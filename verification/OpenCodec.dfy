/** The OPEN body codec and the checks on a peer's OPEN
    (crates/flowsdn-bgp-proto/src/open.rs; sections 4.2 and 6.2 of RFC 4271,
    RFC 5492 for the capability parameters, RFC 6793 for four-octet AS numbers). */
module OpenCodec {
  import opened Bytes
  import opened Framing

  datatype Capability = Capability(code: byte, value: seq<byte>)

  datatype Open = Open(asn: u16, holdTime: u16, routerId: u32, capabilities: seq<Capability>)

  type OpenResult<T> = Result<T, ProtocolError>

  function OpenError(subcode: byte): ProtocolError
  {
    ProtocolError(2, subcode, InOpen)
  }

  /** The value lengths a known capability code allows. */
  predicate CapabilityValid(code: byte, value: seq<byte>)
  {
    match code
    case 1 => |value| == 4
    case 2 => |value| == 0
    case 5 => |value| > 0 && |value| % 6 == 0
    case 64 => |value| >= 2 && (|value| - 2) % 4 == 0
    case 65 => |value| == 4
    case _ => true
  }

  /** The four-octet AS number the capabilities agree on. */
  function FourOctetAsn(caps: seq<Capability>, four: Option<u32>): OpenResult<Option<u32>>
    decreases |caps|
  {
    if caps == [] then Ok(four)
    else if caps[0].code != 65 then FourOctetAsn(caps[1..], four)
    else if |caps[0].value| != 4 then Err(OpenError(4))
    else
      var value := U32Of(caps[0].value);
      if four.Some? && four.value != value then Err(OpenError(4))
      else FourOctetAsn(caps[1..], Some(value))
  }

  function EffectiveAsn(open: Open): OpenResult<u32>
  {
    match FourOctetAsn(open.capabilities, None)
    case Err(e) => Err(e)
    case Ok(None) => Ok(open.asn)
    case Ok(Some(n)) => Ok(n)
  }

  method EffectiveAsnLoop(open: Open) returns (r: OpenResult<u32>)
    ensures r == EffectiveAsn(open)
  {
    var four: Option<u32> := None;
    var i := 0;
    while i < |open.capabilities|
      invariant 0 <= i <= |open.capabilities|
      invariant FourOctetAsn(open.capabilities, None) == FourOctetAsn(open.capabilities[i..], four)
    {
      var cap := open.capabilities[i];
      assert open.capabilities[i..][1..] == open.capabilities[i + 1..];
      if cap.code == 65 {
        if |cap.value| != 4 { return Err(OpenError(4)); }
        var value := U32Of(cap.value);
        if four.Some? && four.value != value { return Err(OpenError(4)); }
        four := Some(value);
      }
      i := i + 1;
    }
    r := Ok(if four.Some? then four.value else open.asn);
  }

  predicate IsFourOctet(cap: Capability) { cap.code == 65 }

  /** Every four-octet capability has four bytes and says this number. */
  predicate AgreeOn(caps: seq<Capability>, n: u32)
  {
    forall cap :: cap in caps && IsFourOctet(cap) ==> |cap.value| == 4 && U32Of(cap.value) == n
  }

  lemma {:induction false} FourOctetExactly(caps: seq<Capability>, four: Option<u32>)
    ensures var r := FourOctetAsn(caps, four);
            && (r.Err? ==> r.error == OpenError(4))
            && (r.Ok? <==> exists n :: AgreeOn(caps, n) && (four.Some? ==> four.value == n))
            && (forall n :: r == Ok(Some(n)) <==>
                  && AgreeOn(caps, n)
                  && if four.Some? then four.value == n else exists cap :: cap in caps && IsFourOctet(cap))
  {
    if caps == [] {
      assert AgreeOn(caps, if four.Some? then four.value else 0);
    } else {
      var rest := caps[1..];
      assert forall cap :: cap in caps <==> cap == caps[0] || cap in rest;
      assert forall n :: AgreeOn(caps, n) <==>
        AgreeOn(rest, n) && (IsFourOctet(caps[0]) ==> |caps[0].value| == 4 && U32Of(caps[0].value) == n);
      if !IsFourOctet(caps[0]) {
        FourOctetExactly(rest, four);
      } else if |caps[0].value| == 4 {
        FourOctetExactly(rest, Some(U32Of(caps[0].value)));
      }
    }
  }

  /** The AS number of an OPEN is n exactly when all four-octet capabilities have
      four bytes and say n, or there is none and the two-octet field says n. */
  lemma EffectiveAsnExactly(open: Open, n: u32)
    ensures EffectiveAsn(open) == Ok(n) <==>
            && AgreeOn(open.capabilities, n)
            && ((exists cap :: cap in open.capabilities && IsFourOctet(cap)) || open.asn == n)
    ensures EffectiveAsn(open).Err? ==> EffectiveAsn(open).error == OpenError(4)
  {
    FourOctetExactly(open.capabilities, None);
  }

  lemma AsnsAgree(open: Open)
    ensures EffectiveAsn(open).Ok? <==> exists n :: AgreeOn(open.capabilities, n)
  {
    FourOctetExactly(open.capabilities, None);
  }

  /** A peer's OPEN against what this speaker expects; the hold time both use. */
  function ValidatePeer(peer: Open, expectedAsn: u32, localRouterId: u32, localHold: u16): OpenResult<u16>
  {
    if expectedAsn != 0 && EffectiveAsn(peer).Err? then Err(EffectiveAsn(peer).error)
    else if expectedAsn != 0 && EffectiveAsn(peer).value != expectedAsn then Err(OpenError(2))
    else if peer.routerId == 0 || peer.routerId == localRouterId then Err(OpenError(3))
    else if peer.holdTime in {1, 2} || localHold in {1, 2} then Err(OpenError(6))
    else Ok(if peer.holdTime <= localHold then peer.holdTime else localHold)
  }

  // ---------- encoding ----------

  predicate Encodable(cap: Capability)
  {
    CapabilityValid(cap.code, cap.value) && |cap.value| + 2 <= 255
  }

  /** One capability in an optional parameter of its own. */
  function Parameter(cap: Capability): (r: seq<byte>)
    requires Encodable(cap)
    ensures |r| == |cap.value| + 4
  {
    [2, |cap.value| + 2, cap.code, |cap.value|] + cap.value
  }

  function Parameters(caps: seq<Capability>): OpenResult<seq<byte>>
  {
    if caps == [] then Ok([])
    else if !Encodable(caps[0]) then Err(OpenError(4))
    else
      var rest :- Parameters(caps[1..]);
      Ok(Parameter(caps[0]) + rest)
  }

  function EncodeOpen(open: Open): OpenResult<seq<byte>>
  {
    var _ :- EffectiveAsn(open);
    if open.holdTime in {1, 2} then Err(OpenError(6)) else
    var params :- Parameters(open.capabilities);
    if |params| > 255 then Err(OpenError(4)) else
    Ok([4] + U16Bytes(open.asn) + U16Bytes(open.holdTime) + U32Bytes(open.routerId) + [|params|] + params)
  }

  method EncodeOpenLoop(open: Open) returns (r: OpenResult<seq<byte>>)
    ensures r == EncodeOpen(open)
  {
    var asn := EffectiveAsnLoop(open);
    if asn.Err? { return Err(asn.error); }
    if open.holdTime in {1, 2} { return Err(OpenError(6)); }
    var params: seq<byte> := [];
    var i := 0;
    var caps := open.capabilities;
    ExtendsStart(Parameters(caps));
    assert caps[0..] == caps;
    while i < |caps|
      invariant 0 <= i <= |caps|
      invariant Extends(Parameters(caps), params, Parameters(caps[i..]))
    {
      if !Encodable(caps[i]) { return Err(OpenError(4)); }
      assert caps[i..][1..] == caps[i + 1..];
      ExtendsStep(Parameters(caps), params, Parameter(caps[i]), Parameters(caps[i + 1..]));
      params := params + Parameter(caps[i]);
      i := i + 1;
    }
    assert params + [] == params;
    if |params| > 255 { return Err(OpenError(4)); }
    r := Ok([4] + U16Bytes(open.asn) + U16Bytes(open.holdTime) + U32Bytes(open.routerId) + [|params|] + params);
  }

  // ---------- decoding ----------

  /** The capabilities inside one optional parameter. */
  function ParameterCapabilities(bytes: seq<byte>): OpenResult<seq<Capability>>
    decreases |bytes|
  {
    if bytes == [] then Ok([])
    else if |bytes| < 2 || |bytes| < 2 + bytes[1] as int then Err(OpenError(4))
    else
      var end := 2 + bytes[1] as int;
      if !CapabilityValid(bytes[0], bytes[2..end]) then Err(OpenError(4)) else
      var rest :- ParameterCapabilities(bytes[end..]);
      Ok([Capability(bytes[0], bytes[2..end])] + rest)
  }

  /** All capabilities of the optional parameters. */
  function Capabilities(bytes: seq<byte>): OpenResult<seq<Capability>>
    decreases |bytes|
  {
    if bytes == [] then Ok([])
    else if |bytes| < 2 || |bytes| < 2 + bytes[1] as int || bytes[0] != 2 then Err(OpenError(4))
    else
      var end := 2 + bytes[1] as int;
      var first :- ParameterCapabilities(bytes[2..end]);
      var rest :- Capabilities(bytes[end..]);
      Ok(first + rest)
  }

  function DecodeOpen(body: seq<byte>): (r: OpenResult<Open>)
    ensures r.Ok? ==> EffectiveAsn(r.value).Ok? && r.value.holdTime !in {1, 2}
  {
    if |body| < 10 then Err(OpenError(4))
    else if body[0] != 4 then Err(OpenError(1))
    else
      var holdTime := U16Of(body[3..5]);
      if holdTime in {1, 2} then Err(OpenError(6))
      else if |body| - 10 != body[9] then Err(OpenError(4))
      else
        var capabilities :- Capabilities(body[10..]);
        var open := Open(U16Of(body[1..3]), holdTime, U32Of(body[5..9]), capabilities);
        var _ :- EffectiveAsn(open);
        Ok(open)
  }

  /** The inner loop: the capabilities of one parameter join those before it. */
  method ParameterLoop(bytes: seq<byte>, before: seq<Capability>) returns (r: OpenResult<seq<Capability>>)
    ensures r == match ParameterCapabilities(bytes) { case Ok(caps) => Ok(before + caps) case Err(e) => Err(e) }
  {
    hide CapabilityValid;
    var parameter, found := bytes, [];
    ExtendsStart(ParameterCapabilities(bytes));
    while parameter != []
      invariant Extends(ParameterCapabilities(bytes), found, ParameterCapabilities(parameter))
      decreases |parameter|
    {
      if |parameter| < 2 || |parameter| < 2 + parameter[1] as int { return Err(OpenError(4)); }
      var stop := 2 + parameter[1] as int;
      if !CapabilityValid(parameter[0], parameter[2..stop]) { return Err(OpenError(4)); }
      var cap := Capability(parameter[0], parameter[2..stop]);
      ExtendsStep(ParameterCapabilities(bytes), found, [cap], ParameterCapabilities(parameter[stop..]));
      found := found + [cap];
      parameter := parameter[stop..];
    }
    assert found + [] == found;
    r := Ok(before + found);
  }

  method DecodeOpenLoop(body: seq<byte>) returns (r: OpenResult<Open>)
    ensures r == DecodeOpen(body)
  {
    hide EffectiveAsn, ParameterCapabilities;
    if |body| < 10 { return Err(OpenError(4)); }
    if body[0] != 4 { return Err(OpenError(1)); }
    var asn, holdTime := U16Of(body[1..3]), U16Of(body[3..5]);
    if holdTime in {1, 2} { return Err(OpenError(6)); }
    var routerId := U32Of(body[5..9]);
    if |body| - 10 != body[9] { return Err(OpenError(4)); }
    var bytes, capabilities := body[10..], [];
    ExtendsStart(Capabilities(bytes));
    while bytes != []
      invariant Extends(Capabilities(body[10..]), capabilities, Capabilities(bytes))
      decreases |bytes|
    {
      if |bytes| < 2 || |bytes| < 2 + bytes[1] as int { return Err(OpenError(4)); }
      if bytes[0] != 2 { return Err(OpenError(4)); }
      var end := 2 + bytes[1] as int;
      var more := ParameterLoop(bytes[2..end], capabilities);
      if more.Err? { return Err(more.error); }
      ghost var first := ParameterCapabilities(bytes[2..end]).value;
      ExtendsStep(Capabilities(body[10..]), capabilities, first, Capabilities(bytes[end..]));
      capabilities := more.value;
      bytes := bytes[end..];
    }
    assert capabilities + [] == capabilities;
    var result := Open(asn, holdTime, routerId, capabilities);
    var effective := EffectiveAsnLoop(result);
    if effective.Err? { return Err(effective.error); }
    r := Ok(result);
  }

  // ---------- round trip ----------

  lemma {:induction false} ParametersDecode(caps: seq<Capability>)
    requires Parameters(caps).Ok?
    ensures Capabilities(Parameters(caps).value) == Ok(caps)
  {
    if caps != [] {
      var cap, tail := caps[0], Parameters(caps[1..]).value;
      var bytes := Parameter(cap) + tail;
      var end := 2 + bytes[1] as int;
      assert bytes[2..end] == [cap.code, |cap.value|] + cap.value;
      assert ParameterCapabilities(bytes[2..end]) == Ok([cap]) by {
        var p := bytes[2..end];
        assert p[0] == cap.code && p[1] == |cap.value| && |p| == 2 + |cap.value|;
        assert p[2..2 + |cap.value|] == cap.value;
        assert p[2 + |cap.value|..] == [];
        assert ParameterCapabilities([]) == Ok([]);
        assert [cap] + [] == [cap];
      }
      assert bytes[end..] == tail;
      ParametersDecode(caps[1..]);
      assert [cap] + caps[1..] == caps;
    }
  }

  /** Whatever OPEN this speaker can put on the wire, the peer reads back whole. */
  lemma OpenRoundTrip(open: Open)
    requires EncodeOpen(open).Ok?
    ensures DecodeOpen(EncodeOpen(open).value) == Ok(open)
    ensures 10 <= |EncodeOpen(open).value| <= 265
  {
    var params := Parameters(open.capabilities).value;
    var body := EncodeOpen(open).value;
    assert body[1..3] == U16Bytes(open.asn);
    assert body[3..5] == U16Bytes(open.holdTime);
    assert body[5..9] == U32Bytes(open.routerId);
    assert body[10..] == params;
    U16RoundTrip(open.asn);
    U16RoundTrip(open.holdTime);
    U32RoundTrip(open.routerId);
    ParametersDecode(open.capabilities);
  }
}
