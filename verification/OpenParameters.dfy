/** Why a malformed OPEN is refused
    (crates/flowsdn-bgp-proto/src/session.rs:653-693; section 6.2 of RFC 4271). */
module OpenParameters {
  import opened Bytes
  import opened OpenCodec

  /** The OPEN that ends at an offset, its parameter length made to say so. */
  function Upto(body: seq<byte>, end: nat): seq<byte>
    requires 10 <= end <= |body| && end <= 265
  {
    body[..end][9 := end - 10]
  }

  /** The subcode of a malformed OPEN parameter: an unrecognized one is
      Unsupported Optional Parameter, unless something before it was malformed. */
  function ParameterSubcode(body: seq<byte>, offset: nat): byte
    requires 10 <= offset <= |body| <= 265
    decreases |body| - offset
  {
    if offset == |body| || offset + 1 == |body| then 0 else
    var end := offset + 2 + body[offset + 1] as int;
    if end > |body| then 0
    else if body[offset] != 2 then 4
    else if DecodeOpen(Upto(body, end)).Err? then 0
    else ParameterSubcode(body, end)
  }

  function OpenParameterSubcode(body: seq<byte>): byte
  {
    if |body| < 10 || |body| != 10 + body[9] as int then 0 else ParameterSubcode(body, 10)
  }

  /** A complete parameter of an unknown type starts at the offset. */
  predicate UnknownAt(body: seq<byte>, k: nat)
  {
    k + 2 <= |body| && body[k] != 2 && k + 2 + body[k + 1] as int <= |body|
  }

  /** The body up to the offset is a whole OPEN in itself, or all header. */
  predicate WholeUpto(body: seq<byte>, k: nat)
    requires |body| <= 265
  {
    10 <= k <= |body| && (k == 10 || DecodeOpen(Upto(body, k)).Ok?)
  }

  /** The OPEN fails at a parameter nobody here knows and at nothing before it. */
  ghost predicate Unsupported(body: seq<byte>)
  {
    |body| >= 10 && |body| == 10 + body[9] as int && exists k :: WholeUpto(body, k) && UnknownAt(body, k)
  }

  // ---------- prefixes of an OPEN ----------

  /** Parameters parse one after the other. */
  lemma {:induction false} CapabilitiesSplit(a: seq<byte>, b: seq<byte>)
    requires Capabilities(a).Ok?
    ensures Capabilities(a + b) ==
            match Capabilities(b) { case Ok(more) => Ok(Capabilities(a).value + more) case Err(e) => Err(e) }
    decreases |a|
  {
    hide ParameterCapabilities, CapabilityValid;
    if a == [] {
      assert a + b == b;
      if Capabilities(b).Ok? { assert [] + Capabilities(b).value == Capabilities(b).value; }
    } else {
      var end := 2 + a[1] as int;
      var all := a + b;
      assert all[2..end] == a[2..end] && all[end..] == a[end..] + b;
      CapabilitiesSplit(a[end..], b);
      var first, rest := ParameterCapabilities(a[2..end]).value, Capabilities(a[end..]).value;
      if Capabilities(b).Ok? {
        assert first + (rest + Capabilities(b).value) == (first + rest) + Capabilities(b).value;
      }
    }
  }

  /** The first of some parameters that parse is known, complete, and parses alone. */
  lemma FirstParses(bytes: seq<byte>)
    requires bytes != [] && Capabilities(bytes).Ok?
    ensures |bytes| >= 2 && bytes[0] == 2 && 2 + bytes[1] as int <= |bytes|
    ensures Capabilities(bytes[..2 + bytes[1] as int]).Ok?
  {
    var end := 2 + bytes[1] as int;
    var one := bytes[..end];
    assert one[2..end] == bytes[2..end] && one[end..] == [];
  }

  /** Agreement of the AS numbers passes to fewer parameters. */
  lemma FewerAgree(a: seq<byte>, b: seq<byte>, n: u32)
    requires Capabilities(a).Ok? && Capabilities(a + b).Ok? && AgreeOn(Capabilities(a + b).value, n)
    ensures AgreeOn(Capabilities(a).value, n)
  {
    hide Capabilities;
    CapabilitiesSplit(a, b);
    assert forall cap :: cap in Capabilities(a).value ==> cap in Capabilities(a).value + Capabilities(b).value;
  }

  predicate HeaderOk(body: seq<byte>)
    requires |body| >= 10
  {
    body[0] == 4 && U16Of(body[3..5]) !in {1, 2}
  }

  /** A prefix is whole when its header is right, its parameters parse and their
      AS numbers agree. */
  lemma WholeMeans(body: seq<byte>, k: nat)
    requires 10 <= k <= |body| <= 265
    ensures DecodeOpen(Upto(body, k)).Ok? <==>
            && HeaderOk(body) && Capabilities(body[10..k]).Ok?
            && exists n :: AgreeOn(Capabilities(body[10..k]).value, n)
  {
    hide Capabilities;
    var b := Upto(body, k);
    assert b[3..5] == body[3..5] && b[10..] == body[10..k];
    if Capabilities(body[10..k]).Ok? {
      AsnsAgree(Open(U16Of(b[1..3]), U16Of(b[3..5]), U32Of(b[5..9]), Capabilities(body[10..k]).value));
    }
  }

  /** If the OPEN up to `k` is whole and parameters parse up to `offset`, the next
      parameter is known, ends by `k`, and the OPEN up to its end is whole. */
  lemma NextWhole(body: seq<byte>, offset: nat, k: nat)
    requires 10 <= offset < k <= |body| <= 265
    requires DecodeOpen(Upto(body, k)).Ok? && Capabilities(body[10..offset]).Ok?
    ensures offset + 2 <= k && body[offset] == 2
    ensures var end := offset + 2 + body[offset + 1] as int;
            end <= k && DecodeOpen(Upto(body, end)).Ok? && Capabilities(body[10..end]).Ok?
  {
    hide Capabilities, DecodeOpen, AgreeOn;
    WholeMeans(body, k);
    var before, rest := body[10..offset], body[offset..k];
    assert body[10..k] == before + rest;
    CapabilitiesSplit(before, rest);
    FirstParses(rest);
    assert rest[0] == body[offset] && rest[1] == body[offset + 1];
    var end := offset + 2 + body[offset + 1] as int;
    var one := rest[..end - offset];
    assert body[10..end] == before + one;
    CapabilitiesSplit(before, one);
    var n :| AgreeOn(Capabilities(body[10..k]).value, n);
    assert body[10..k] == body[10..end] + body[end..k];
    FewerAgree(body[10..end], body[end..k], n);
    WholeMeans(body, end);
  }

  /** The walk reaches every offset up to which the OPEN is whole. */
  lemma {:induction false} WalkReaches(body: seq<byte>, offset: nat, k: nat)
    requires 10 <= offset <= k <= |body| <= 265 && (offset < k ==> DecodeOpen(Upto(body, k)).Ok?)
    requires Capabilities(body[10..offset]).Ok?
    ensures ParameterSubcode(body, offset) == ParameterSubcode(body, k)
    decreases k - offset
  {
    hide Capabilities, DecodeOpen;
    if offset < k {
      NextWhole(body, offset, k);
      WalkReaches(body, offset + 2 + body[offset + 1] as int, k);
    }
  }

  lemma {:induction false} WalkFinds(body: seq<byte>, offset: nat)
    requires |body| <= 265 && WholeUpto(body, offset) && ParameterSubcode(body, offset) != 0
    ensures ParameterSubcode(body, offset) == 4
    ensures exists k :: WholeUpto(body, k) && UnknownAt(body, k)
    decreases |body| - offset
  {
    hide DecodeOpen;
    if body[offset] == 2 {
      WalkFinds(body, offset + 2 + body[offset + 1] as int);
    } else {
      assert UnknownAt(body, offset);
    }
  }

  /** The subcode is 4 exactly when some unknown parameter is complete and
      everything before it is an OPEN in itself, and 0 otherwise. */
  lemma SubcodeExactly(body: seq<byte>)
    ensures OpenParameterSubcode(body) == if Unsupported(body) then 4 else 0
  {
    hide DecodeOpen;
    if |body| >= 10 && |body| == 10 + body[9] as int {
      if ParameterSubcode(body, 10) != 0 { WalkFinds(body, 10); }
      if Unsupported(body) {
        var k :| WholeUpto(body, k) && UnknownAt(body, k);
        assert body[10..10] == [];
        WalkReaches(body, 10, k);
      }
    }
  }

  method OpenParameterSubcodeLoop(body: seq<byte>) returns (subcode: byte)
    ensures subcode == OpenParameterSubcode(body)
    ensures subcode == 4 <==> Unsupported(body)
    ensures subcode in {0, 4}
  {
    SubcodeExactly(body);
    hide Unsupported;
    if |body| < 10 || |body| != 10 + body[9] as int { return 0; }
    var offset := 10;
    while offset < |body|
      invariant 10 <= offset <= |body| <= 265
      invariant ParameterSubcode(body, 10) == ParameterSubcode(body, offset)
    {
      if offset + 1 == |body| { return 0; }
      var end := offset + 2 + body[offset + 1] as int;
      if end > |body| { return 0; }
      if body[offset] != 2 { return 4; }
      var decoded := DecodeOpenLoop(Upto(body, end));
      if decoded.Err? { return 0; }
      offset := end;
    }
    subcode := 0;
  }
}
