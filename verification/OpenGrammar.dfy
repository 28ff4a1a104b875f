/** Which OPEN bodies are read, written as a grammar (section 4.2 of RFC 4271,
    sections 4 and 5 of RFC 5492; crates/flowsdn-bgp-proto/src/open.rs:40-87). Any
    number of parameters may each hold any number of capabilities. */
module OpenGrammar {
  import opened Bytes
  import opened OpenCodec

  // ---------- capabilities ----------

  /** A head and so many entries of one size. */
  predicate Entries(length: nat, head: nat, size: nat, k: nat) { length == head + size * k }

  /** The values of the capabilities that are understood: a multiprotocol family,
      route refresh, extended next hops, graceful restart, a four-octet AS number. */
  ghost predicate GoodValue(cap: Capability)
  {
    && (cap.code == 1 ==> |cap.value| == 4)
    && (cap.code == 2 ==> cap.value == [])
    && (cap.code == 5 ==> exists k: nat :: k >= 1 && Entries(|cap.value|, 0, 6, k))
    && (cap.code == 64 ==> exists k: nat :: Entries(|cap.value|, 2, 4, k))
    && (cap.code == 65 ==> |cap.value| == 4)
  }

  lemma Sixes(n: nat)
    ensures (exists k: nat :: k >= 1 && Entries(n, 0, 6, k)) <==> n > 0 && n % 6 == 0
  {
    if n > 0 && n % 6 == 0 { assert Entries(n, 0, 6, n / 6); }
  }

  lemma Fours(n: nat)
    ensures (exists k: nat :: Entries(n, 2, 4, k)) <==> n >= 2 && (n - 2) % 4 == 0
  {
    if n >= 2 && (n - 2) % 4 == 0 { assert Entries(n, 2, 4, (n - 2) / 4); }
  }

  lemma ValidExactly(cap: Capability)
    ensures CapabilityValid(cap.code, cap.value) <==> GoodValue(cap)
  {
    hide Entries;
    Sixes(|cap.value|);
    Fours(|cap.value|);
  }

  /** A code, a length, a value. */
  ghost predicate SpellsCap(part: seq<byte>, cap: Capability)
  {
    && |part| >= 2 && part[0] == cap.code && part[1] as int == |part| - 2 && part[2..] == cap.value && GoodValue(cap)
  }

  ghost predicate AllCaps(parts: seq<seq<byte>>, caps: seq<Capability>)
  {
    |parts| == |caps| && forall i :: 0 <= i < |caps| ==> SpellsCap(parts[i], caps[i])
  }

  ghost predicate SpellsCaps(bytes: seq<byte>, caps: seq<Capability>)
  {
    exists parts: seq<seq<byte>> :: Concat(parts) == bytes && AllCaps(parts, caps)
  }

  lemma {:induction false} CapsRead(parts: seq<seq<byte>>, caps: seq<Capability>)
    requires AllCaps(parts, caps)
    ensures ParameterCapabilities(Concat(parts)) == Ok(caps)
  {
    hide CapabilityValid, GoodValue;
    if parts != [] {
      assert SpellsCap(parts[0], caps[0]);
      var bytes, end := Concat(parts), |parts[0]|;
      assert bytes[0] == parts[0][0] && bytes[1] == parts[0][1];
      assert bytes[2..end] == caps[0].value && bytes[end..] == Concat(parts[1..]);
      ValidExactly(caps[0]);
      forall i | 0 <= i < |caps[1..]| ensures SpellsCap(parts[1..][i], caps[1..][i]) {
        assert SpellsCap(parts[i + 1], caps[i + 1]);
      }
      CapsRead(parts[1..], caps[1..]);
      assert caps == [caps[0]] + caps[1..] && caps[0] == Capability(bytes[0], bytes[2..end]);
    }
  }

  lemma ConcatNone()
    ensures Concat<byte>([]) == []
  {
  }

  lemma {:induction false} CapsSpelled(bytes: seq<byte>)
    requires ParameterCapabilities(bytes).Ok?
    ensures SpellsCaps(bytes, ParameterCapabilities(bytes).value)
    decreases |bytes|
  {
    hide CapabilityValid, GoodValue, Concat;
    var caps := ParameterCapabilities(bytes).value;
    if bytes == [] {
      var none: seq<seq<byte>> := [];
      ConcatNone();
      assert AllCaps(none, caps);
    } else {
      var end := 2 + bytes[1] as int;
      CapsSpelled(bytes[end..]);
      var others := ParameterCapabilities(bytes[end..]).value;
      var first := Capability(bytes[0], bytes[2..end]);
      assert caps == [first] + others;
      var rest: seq<seq<byte>> :| Concat(rest) == bytes[end..] && AllCaps(rest, others);
      ValidExactly(first);
      assert bytes[..end][2..] == bytes[2..end];
      MoreCaps(bytes[..end], first, rest, others);
      assert bytes == bytes[..end] + bytes[end..];
    }
  }

  lemma MoreCaps(part: seq<byte>, cap: Capability, rest: seq<seq<byte>>, others: seq<Capability>)
    requires SpellsCap(part, cap) && AllCaps(rest, others)
    ensures SpellsCaps(part + Concat(rest), [cap] + others)
  {
    hide SpellsCap;
    var parts, caps := [part] + rest, [cap] + others;
    assert parts[1..] == rest && Concat(parts) == part + Concat(rest);
    forall i | 0 <= i < |caps| ensures SpellsCap(parts[i], caps[i]) {
      if i > 0 { assert SpellsCap(rest[i - 1], others[i - 1]); }
    }
    assert AllCaps(parts, caps);
  }

  /** Inside a parameter exactly capabilities one after the other are read. */
  lemma CapsExactly(bytes: seq<byte>, caps: seq<Capability>)
    ensures ParameterCapabilities(bytes) == Ok(caps) <==> SpellsCaps(bytes, caps)
  {
    if ParameterCapabilities(bytes).Ok? { CapsSpelled(bytes); }
    if SpellsCaps(bytes, caps) {
      var parts: seq<seq<byte>> :| Concat(parts) == bytes && AllCaps(parts, caps);
      CapsRead(parts, caps);
    }
  }

  // ---------- parameters ----------

  /** A parameter of the capability type: its length, then capabilities. */
  ghost predicate SpellsParam(part: seq<byte>, group: seq<Capability>)
  {
    |part| >= 2 && part[0] == 2 && part[1] as int == |part| - 2 && SpellsCaps(part[2..], group)
  }

  ghost predicate AllParams(parts: seq<seq<byte>>, groups: seq<seq<Capability>>)
  {
    |parts| == |groups| && forall i :: 0 <= i < |groups| ==> SpellsParam(parts[i], groups[i])
  }

  /** Parameters one after the other, whose capabilities taken together are these. */
  ghost predicate SpellsParams(bytes: seq<byte>, caps: seq<Capability>)
  {
    exists parts: seq<seq<byte>>, groups: seq<seq<Capability>> :: SpelledAs(bytes, caps, parts, groups)
  }

  ghost predicate SpelledAs(bytes: seq<byte>, caps: seq<Capability>, parts: seq<seq<byte>>,
                            groups: seq<seq<Capability>>)
  {
    Concat(parts) == bytes && Concat(groups) == caps && AllParams(parts, groups)
  }

  lemma {:induction false} ParamsRead(parts: seq<seq<byte>>, groups: seq<seq<Capability>>)
    requires AllParams(parts, groups)
    ensures Capabilities(Concat(parts)) == Ok(Concat(groups))
  {
    hide ParameterCapabilities, SpellsCaps;
    if parts != [] {
      assert SpellsParam(parts[0], groups[0]);
      var bytes, end := Concat(parts), |parts[0]|;
      assert bytes[0] == parts[0][0] && bytes[1] == parts[0][1];
      assert bytes[2..end] == parts[0][2..] && bytes[end..] == Concat(parts[1..]);
      CapsExactly(parts[0][2..], groups[0]);
      forall i | 0 <= i < |groups[1..]| ensures SpellsParam(parts[1..][i], groups[1..][i]) {
        assert SpellsParam(parts[i + 1], groups[i + 1]);
      }
      ParamsRead(parts[1..], groups[1..]);
    }
  }

  lemma {:induction false} ParamsSpelled(bytes: seq<byte>)
    requires Capabilities(bytes).Ok?
    ensures SpellsParams(bytes, Capabilities(bytes).value)
    decreases |bytes|
  {
    hide ParameterCapabilities, SpellsCaps;
    var caps := Capabilities(bytes).value;
    if bytes == [] {
      var none: seq<seq<byte>>, nothing: seq<seq<Capability>> := [], [];
      assert SpelledAs(bytes, caps, none, nothing);
    } else {
      var end := 2 + bytes[1] as int;
      var first := ParameterCapabilities(bytes[2..end]).value;
      CapsExactly(bytes[2..end], first);
      ParamsSpelled(bytes[end..]);
      var more := Capabilities(bytes[end..]).value;
      var rest: seq<seq<byte>>, others: seq<seq<Capability>> :| SpelledAs(bytes[end..], more, rest, others);
      assert bytes[..end][2..] == bytes[2..end];
      MoreParams(bytes[..end], first, rest, others);
      assert bytes == bytes[..end] + bytes[end..];
    }
  }

  lemma MoreParams(part: seq<byte>, group: seq<Capability>, rest: seq<seq<byte>>, others: seq<seq<Capability>>)
    requires SpellsParam(part, group) && AllParams(rest, others)
    ensures SpellsParams(part + Concat(rest), group + Concat(others))
  {
    hide SpellsParam;
    var parts, groups := [part] + rest, [group] + others;
    assert parts[1..] == rest && groups[1..] == others;
    forall i | 0 <= i < |groups| ensures SpellsParam(parts[i], groups[i]) {
      if i > 0 { assert SpellsParam(rest[i - 1], others[i - 1]); }
    }
    assert SpelledAs(part + Concat(rest), group + Concat(others), parts, groups);
  }

  lemma ParamsExactly(bytes: seq<byte>, caps: seq<Capability>)
    ensures Capabilities(bytes) == Ok(caps) <==> SpellsParams(bytes, caps)
    ensures Capabilities(bytes).Err? ==> Capabilities(bytes).error == OpenError(4)
  {
    hide AllParams;
    ParamsError(bytes);
    if Capabilities(bytes).Ok? { ParamsSpelled(bytes); }
    if SpellsParams(bytes, caps) {
      var parts: seq<seq<byte>>, groups: seq<seq<Capability>> :| SpelledAs(bytes, caps, parts, groups);
      ParamsRead(parts, groups);
    }
  }

  lemma {:induction false} ParamsError(bytes: seq<byte>)
    ensures Capabilities(bytes).Err? ==> Capabilities(bytes).error == OpenError(4)
    decreases |bytes|
  {
    if |bytes| >= 2 && |bytes| >= 2 + bytes[1] as int {
      var end := 2 + bytes[1] as int;
      CapsError(bytes[2..end]);
      ParamsError(bytes[end..]);
    }
  }

  lemma {:induction false} CapsError(bytes: seq<byte>)
    ensures ParameterCapabilities(bytes).Err? ==> ParameterCapabilities(bytes).error == OpenError(4)
    decreases |bytes|
  {
    if |bytes| >= 2 && |bytes| >= 2 + bytes[1] as int { CapsError(bytes[2 + bytes[1] as int..]); }
  }

  // ---------- the body ----------

  /** Version 4, AS number, hold time, router ID, the length of the parameters, and
      parameters whose AS numbers agree. */
  ghost predicate SpellsOpen(body: seq<byte>, open: Open)
  {
    && |body| >= 10 && body[0] == 4
    && open.asn == 256 * body[1] as int + body[2] as int
    && open.holdTime == 256 * body[3] as int + body[4] as int && open.holdTime !in {1, 2}
    && open.routerId == 256 * (256 * (256 * body[5] as int + body[6] as int) + body[7] as int) + body[8] as int
    && body[9] as int == |body| - 10 && SpellsParams(body[10..], open.capabilities)
    && exists n :: AgreeOn(open.capabilities, n)
  }

  lemma FourBytes(b: seq<byte>)
    requires |b| == 4
    ensures U32Of(b) == 256 * (256 * (256 * b[0] as int + b[1] as int) + b[2] as int) + b[3] as int
  {
    var one, two, three := [b[0]], [b[0], b[1]], [b[0], b[1], b[2]];
    assert b[..3] == three && three[..2] == two && two[..1] == one && one[..0] == [];
    assert BeValue(one) == b[0] as int;
    assert BeValue(two) == 256 * b[0] as int + b[1] as int;
    assert BeValue(three) == BeValue(two) * 256 + b[2] as int;
  }

  /** Exactly the bodies of the grammar are read, as what they spell. The first of
      size, version and hold time that is wrong is reported, and anything else as
      malformed. */
  lemma DecodeExactly(body: seq<byte>, open: Open)
    ensures DecodeOpen(body) == Ok(open) <==> SpellsOpen(body, open)
    ensures DecodeOpen(body).Err? ==>
              DecodeOpen(body).error ==
              if |body| < 10 then OpenError(4)
              else if body[0] != 4 then OpenError(1)
              else if 256 * body[3] as int + body[4] as int in {1, 2} then OpenError(6)
              else OpenError(4)
  {
    hide Capabilities, SpellsParams, EffectiveAsn, AgreeOn;
    if |body| >= 10 {
      assert body[1..3] == [body[1], body[2]] && body[3..5] == [body[3], body[4]];
      FourBytes(body[5..9]);
      ParamsExactly(body[10..], open.capabilities);
      var caps := Capabilities(body[10..]);
      if caps.Ok? {
        var read := Open(U16Of(body[1..3]), U16Of(body[3..5]), U32Of(body[5..9]), caps.value);
        AsnsAgree(read);
        EffectiveAsnExactly(read, 0);
      }
    }
  }

  // ---------- writing ----------

  function Total(caps: seq<Capability>): nat
  {
    if caps == [] then 0 else 4 + |caps[0].value| + Total(caps[1..])
  }

  lemma {:induction false} ParametersExactly(caps: seq<Capability>)
    ensures Parameters(caps).Ok? <==> forall cap :: cap in caps ==> GoodValue(cap) && |cap.value| <= 253
    ensures Parameters(caps).Ok? ==> |Parameters(caps).value| == Total(caps)
    ensures Parameters(caps).Err? ==> Parameters(caps).error == OpenError(4)
  {
    hide CapabilityValid, GoodValue;
    if caps != [] {
      ParametersExactly(caps[1..]);
      ValidExactly(caps[0]);
      assert forall cap :: cap in caps <==> cap == caps[0] || cap in caps[1..];
    }
  }

  /** Its AS numbers agree, its hold time is zero or at least three seconds, every
      capability is in order and fits a parameter, and all of them fit 255 octets. */
  ghost predicate Sendable(open: Open)
  {
    && (exists n :: AgreeOn(open.capabilities, n)) && open.holdTime !in {1, 2}
    && (forall cap :: cap in open.capabilities ==> GoodValue(cap) && |cap.value| <= 253)
    && Total(open.capabilities) <= 255
  }

  /** An OPEN is encoded exactly when it is sendable. */
  lemma EncodeExactly(open: Open)
    ensures EncodeOpen(open).Ok? <==> Sendable(open)
    ensures EncodeOpen(open).Err? ==>
              EncodeOpen(open).error ==
              if (exists n :: AgreeOn(open.capabilities, n)) && open.holdTime in {1, 2}
              then OpenError(6) else OpenError(4)
  {
    hide Parameters, EffectiveAsn, AgreeOn, GoodValue;
    AsnsAgree(open);
    EffectiveAsnExactly(open, 0);
    ParametersExactly(open.capabilities);
  }
}
