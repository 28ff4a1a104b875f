/** Capability negotiation (crates/flowsdn-bgp-proto/src/capabilities.rs; RFC 4760
    families, RFC 4724 and RFC 8538 graceful restart, RFC 6793 AS numbers). */
module Negotiation {
  import opened Bytes
  import opened OpenCodec

  datatype Family = Family(afi: u16, safi: byte)

  const IPV4 := Family(1, 1)

  predicate FamilyValid(f: Family)
  {
    f.afi in {1, 2} && f.safi == 1
  }

  datatype Restart = Restart(seconds: u16, restarting: bool, notifications: bool, forwarding: set<Family>)

  datatype Graceful = Graceful(notifications: bool, localRestartSeconds: u16, peer: Restart)

  datatype Negotiated = Negotiated(
    graceful: Option<Graceful>,
    holdTime: u16,
    fourOctetAsn: bool,
    routeRefresh: bool,
    families: set<Family>)

  function MultiprotocolFamily(cap: Capability): Option<Family>
  {
    if cap.code != 1 || |cap.value| != 4 then None else
    var family := Family(U16Of(cap.value[..2]), cap.value[3]);
    if FamilyValid(family) then Some(family) else None
  }

  function Families(open: Open): set<Family>
  {
    set cap | cap in open.capabilities && MultiprotocolFamily(cap).Some? :: MultiprotocolFamily(cap).value
  }

  predicate Announces(open: Open, code: byte)
  {
    exists cap :: cap in open.capabilities && cap.code == code
  }

  /** The forwarding families of a graceful restart capability's tuples. */
  function Forwarding(tuples: seq<byte>): set<Family>
    requires |tuples| % 4 == 0
  {
    if |tuples| < 4 then {} else
    var family := Family(U16Of(tuples[..2]), tuples[2]);
    (if tuples[3] >= 0x80 && FamilyValid(family) then {family} else {}) + Forwarding(tuples[4..])
  }

  /** When repeated, only the last graceful restart capability counts. */
  function LastCapability(caps: seq<Capability>, code: byte): Option<Capability>
  {
    if caps == [] then None
    else if caps[|caps| - 1].code == code then Some(caps[|caps| - 1])
    else LastCapability(caps[..|caps| - 1], code)
  }

  function RestartOf(open: Open): Option<Restart>
  {
    var cap := LastCapability(open.capabilities, 64);
    if cap.None? || |cap.value.value| < 2 || (|cap.value.value| - 2) % 4 != 0 then None else
    var field := U16Of(cap.value.value[..2]);
    Some(Restart(field % 0x1000, field >= 0x8000, BitSet(field, 0x4000), Forwarding(cap.value.value[2..])))
  }

  function GracefulOf(local: Open, peer: Open): Option<Graceful>
  {
    match (RestartOf(local), RestartOf(peer))
    case (Some(l), Some(p)) => Some(Graceful(l.notifications && p.notifications, l.seconds, p))
    case _ => None
  }

  function Negotiate(local: Open, peer: Open, expectedAsn: u32): (r: OpenResult<Negotiated>)
    ensures r.Ok? ==> r.value.families != {} && r.value.holdTime !in {1, 2}
  {
    var _ :- EncodeOpen(local);
    var _ :- EncodeOpen(peer);
    var holdTime :- ValidatePeer(peer, expectedAsn, local.routerId, local.holdTime);
    var common := Families(local) * Families(peer);
    if common == {} then Err(OpenError(7)) else
    Ok(Negotiated(GracefulOf(local, peer), holdTime,
                  Announces(local, 65) && Announces(peer, 65),
                  Announces(local, 2) && Announces(peer, 2),
                  common))
  }

  /** What the two ends of one connection must not disagree about. */
  ghost predicate Agree(a: Negotiated, b: Negotiated)
  {
    && a.holdTime == b.holdTime
    && a.families == b.families
    && a.fourOctetAsn == b.fourOctetAsn
    && a.routeRefresh == b.routeRefresh
    && a.graceful.Some? == b.graceful.Some?
    && (a.graceful.Some? ==>
          && a.graceful.value.notifications == b.graceful.value.notifications
          && a.graceful.value.localRestartSeconds == b.graceful.value.peer.seconds
          && b.graceful.value.localRestartSeconds == a.graceful.value.peer.seconds)
  }

  /** Negotiation is symmetric: if each side accepts the other's OPEN, they
      derive agreeing parameters; and one side's acceptance already decides the
      other's, up to the AS number it expects and this side's own router ID. */
  lemma NegotiationSymmetric(a: Open, b: Open, expectedByA: u32, expectedByB: u32)
    requires Negotiate(a, b, expectedByA).Ok?
    ensures Negotiate(b, a, expectedByB).Ok? <==>
            a.routerId != 0 && (expectedByB == 0 || EffectiveAsn(a) == Ok(expectedByB))
    ensures Negotiate(b, a, expectedByB).Ok? ==>
              Agree(Negotiate(a, b, expectedByA).value, Negotiate(b, a, expectedByB).value)
  {
    assert Families(a) * Families(b) == Families(b) * Families(a);
  }

  // ---------- what is negotiated, from the capability lists ----------

  predicate HasCode(caps: seq<Capability>, code: byte)
  {
    exists i :: 0 <= i < |caps| && caps[i].code == code
  }

  /** Capability `i` offers the family, whatever its reserved octet. */
  predicate Offers(caps: seq<Capability>, i: nat, f: Family)
  {
    && i < |caps| && caps[i].code == 1 && |caps[i].value| == 4
    && 256 * caps[i].value[0] as int + caps[i].value[1] as int == f.afi && caps[i].value[3] == f.safi
  }

  ghost predicate Speaks(open: Open, f: Family)
  {
    f.afi in {1, 2} && f.safi == 1 && exists i: nat :: Offers(open.capabilities, i, f)
  }

  lemma SpeaksExactly(open: Open, f: Family)
    ensures f in Families(open) <==> Speaks(open, f)
  {
    if f in Families(open) {
      var cap :| cap in open.capabilities && MultiprotocolFamily(cap) == Some(f);
      var i :| 0 <= i < |open.capabilities| && open.capabilities[i] == cap;
      assert Offers(open.capabilities, i, f);
    }
    if Speaks(open, f) {
      var i: nat :| Offers(open.capabilities, i, f);
      var cap := open.capabilities[i];
      assert cap.value[..2] == [cap.value[0], cap.value[1]];
      assert MultiprotocolFamily(cap) == Some(f);
    }
  }

  lemma HasCodeExactly(open: Open, code: byte)
    ensures Announces(open, code) <==> HasCode(open.capabilities, code)
  {
    if Announces(open, code) {
      var cap :| cap in open.capabilities && cap.code == code;
      var i :| 0 <= i < |open.capabilities| && open.capabilities[i] == cap;
    }
  }

  /** Capability `i` is the last of its code. */
  predicate LastOf(caps: seq<Capability>, code: byte, i: nat)
  {
    i < |caps| && caps[i].code == code && forall j :: i < j < |caps| ==> caps[j].code != code
  }

  lemma {:induction false} LastExactly(caps: seq<Capability>, code: byte)
    ensures LastCapability(caps, code).Some? <==> HasCode(caps, code)
    ensures forall i: nat :: LastOf(caps, code, i) ==> LastCapability(caps, code) == Some(caps[i])
    ensures HasCode(caps, code) ==> exists i: nat :: LastOf(caps, code, i)
  {
    if caps != [] {
      var init, last := caps[..|caps| - 1], caps[|caps| - 1];
      LastExactly(init, code);
      if last.code == code {
        assert LastOf(caps, code, |caps| - 1);
      } else {
        assert forall i: nat :: LastOf(caps, code, i) ==> LastOf(init, code, i);
        if HasCode(caps, code) {
          var k :| 0 <= k < |caps| && caps[k].code == code;
          assert init[k].code == code;
          var i: nat :| LastOf(init, code, i);
          assert LastOf(caps, code, i);
        }
      }
    }
  }

  /** The graceful restart terms a capability states: four flag bits, twelve bits
      of seconds, then four octets per family, the last one's top bit saying that
      its forwarding was kept. */
  ghost predicate States(value: seq<byte>, r: Restart)
  {
    && |value| >= 2 && (|value| - 2) % 4 == 0
    && r.seconds == 256 * (value[0] as int % 16) + value[1] as int
    && r.restarting == (value[0] as int / 128 == 1) && r.notifications == (value[0] as int / 64 % 2 == 1)
    && forall f :: f in r.forwarding <==> FamilyValid(f) && exists k: nat :: KeptAt(value, k, f)
  }

  predicate KeptAt(value: seq<byte>, k: nat, f: Family)
  {
    && 2 + 4 * k + 4 <= |value|
    && 256 * value[2 + 4 * k] as int + value[3 + 4 * k] as int == f.afi
    && value[4 + 4 * k] == f.safi && value[5 + 4 * k] >= 128
  }

  lemma {:induction false} ForwardingExactly(value: seq<byte>, from: nat, f: Family)
    requires |value| >= 2 && (|value| - 2) % 4 == 0 && 2 + 4 * from <= |value|
    ensures f in Forwarding(value[2 + 4 * from..]) <==>
            FamilyValid(f) && exists k: nat :: from <= k && KeptAt(value, k, f)
    decreases |value| - 4 * from
  {
    var tuples := value[2 + 4 * from..];
    if |tuples| >= 4 {
      ForwardingExactly(value, from + 1, f);
      assert tuples[4..] == value[2 + 4 * (from + 1)..];
      assert tuples[..2] == [value[2 + 4 * from], value[3 + 4 * from]];
      assert KeptAt(value, from, f) <==> Family(U16Of(tuples[..2]), tuples[2]) == f && tuples[3] >= 0x80;
      if FamilyValid(f) && exists k: nat :: from <= k && KeptAt(value, k, f) {
        var k: nat :| from <= k && KeptAt(value, k, f);
        assert k == from || from + 1 <= k;
      }
    }
  }

  lemma FlagBits(hi: byte, lo: byte)
    ensures var field := U16Of([hi, lo]);
            && field % 0x1000 == 256 * (hi as int % 16) + lo as int
            && (field >= 0x8000 <==> hi as int / 128 == 1)
            && (BitSet(field, 0x4000) <==> hi as int / 64 % 2 == 1)
  {
    var h: int, l: int := hi, lo;
    DivModUnique(256 * h + l, 0x1000, h / 16, 256 * (h % 16) + l);
    DivModUnique(256 * h + l, 0x4000, h / 64, 256 * (h % 64) + l);
  }

  /** The restart terms of an OPEN are those of its last such capability. */
  lemma RestartExactly(open: Open)
    ensures RestartOf(open).Some? ==>
              exists i: nat :: LastOf(open.capabilities, 64, i)
                               && States(open.capabilities[i].value, RestartOf(open).value)
    ensures RestartOf(open).None? ==>
              forall i: nat, r :: LastOf(open.capabilities, 64, i) ==> !States(open.capabilities[i].value, r)
  {
    hide LastCapability, Forwarding, KeptAt, U16Of, BitSet, FamilyValid;
    LastExactly(open.capabilities, 64);
    if RestartOf(open).Some? {
      var i: nat :| LastOf(open.capabilities, 64, i);
      var value := open.capabilities[i].value;
      assert value[..2] == [value[0], value[1]];
      FlagBits(value[0], value[1]);
      assert value[2 + 4 * 0..] == value[2..];
      forall f
        ensures f in RestartOf(open).value.forwarding <==> FamilyValid(f) && exists k: nat :: KeptAt(value, k, f) {
        ForwardingExactly(value, 0, f);
      }
      assert States(value, RestartOf(open).value);
    }
  }

  /** The refusal, in the order the checks are made. */
  ghost function Refusal(local: Open, peer: Open, expectedAsn: u32): Option<byte>
  {
    if expectedAsn != 0 && EffectiveAsn(peer) != Ok(expectedAsn) then Some(2)
    else if peer.routerId in {0, local.routerId} then Some(3)
    else if !exists f :: Speaks(local, f) && Speaks(peer, f) then Some(7)
    else None
  }

  /** Two OPENs that can be sent come to terms exactly when the peer's AS number is
      the expected one (or any will do), its router ID is not zero and not ours, and
      both speak some family; otherwise the refusal says which it was. */
  lemma NegotiateExactly(local: Open, peer: Open, expectedAsn: u32)
    ensures Negotiate(local, peer, expectedAsn).Ok? ==> EncodeOpen(local).Ok? && EncodeOpen(peer).Ok?
    ensures EncodeOpen(local).Ok? && EncodeOpen(peer).Ok? ==>
              var r := Negotiate(local, peer, expectedAsn);
              && (r.Ok? <==>
                    && (expectedAsn == 0 || EffectiveAsn(peer) == Ok(expectedAsn))
                    && peer.routerId != 0 && peer.routerId != local.routerId
                    && exists f :: Speaks(local, f) && Speaks(peer, f))
              && (r.Err? ==> Some(r.error.subcode) == Refusal(local, peer, expectedAsn) && r.error.code == 2)
  {
    hide EncodeOpen, Families;
    EncodableHold(local);
    EncodableHold(peer);
    forall f ensures (f in Families(local) <==> Speaks(local, f)) && (f in Families(peer) <==> Speaks(peer, f)) {
      SpeaksExactly(local, f);
      SpeaksExactly(peer, f);
    }
    if Families(local) * Families(peer) != {} {
      var f :| f in Families(local) * Families(peer);
      assert Speaks(local, f) && Speaks(peer, f);
    }
    if f :| Speaks(local, f) && Speaks(peer, f) {
      assert f in Families(local) * Families(peer);
    }
  }

  lemma EncodableHold(open: Open)
    ensures EncodeOpen(open).Ok? ==> open.holdTime !in {1, 2} && EffectiveAsn(open).Ok?
  {
  }

  /** What two OPENs come to: the smaller hold time, exactly the families both
      speak, four-octet AS numbers exactly when both list capability 65, route
      refresh exactly when both list capability 2, and graceful restart exactly
      when both state terms. */
  lemma NegotiatedExactly(local: Open, peer: Open, expectedAsn: u32)
    requires Negotiate(local, peer, expectedAsn).Ok?
    ensures var n := Negotiate(local, peer, expectedAsn).value;
            && n.holdTime <= local.holdTime && n.holdTime <= peer.holdTime
            && n.holdTime in {local.holdTime, peer.holdTime}
            && (forall f :: f in n.families <==> Speaks(local, f) && Speaks(peer, f))
            && (n.fourOctetAsn <==> HasCode(local.capabilities, 65) && HasCode(peer.capabilities, 65))
            && (n.routeRefresh <==> HasCode(local.capabilities, 2) && HasCode(peer.capabilities, 2))
            && (n.graceful.Some? <==> RestartOf(local).Some? && RestartOf(peer).Some?)
            && (n.graceful.Some? ==>
                  && n.graceful.value.localRestartSeconds == RestartOf(local).value.seconds
                  && n.graceful.value.peer == RestartOf(peer).value
                  && (n.graceful.value.notifications <==>
                        RestartOf(local).value.notifications && RestartOf(peer).value.notifications))
  {
    hide EncodeOpen, EffectiveAsn, RestartOf, Announces, Families;
    HasCodeExactly(local, 65);
    HasCodeExactly(peer, 65);
    HasCodeExactly(local, 2);
    HasCodeExactly(peer, 2);
    forall f ensures (f in Families(local) <==> Speaks(local, f)) && (f in Families(peer) <==> Speaks(peer, f)) {
      SpeaksExactly(local, f);
      SpeaksExactly(peer, f);
    }
  }

  // ---------- building the local OPEN ----------

  function Multiprotocol(family: Family): OpenResult<Capability>
  {
    if FamilyValid(family) then Ok(Capability(1, U16Bytes(family.afi) + [0, family.safi]))
    else Err(OpenError(7))
  }

  function MultiprotocolAll(families: seq<Family>): OpenResult<seq<Capability>>
  {
    if families == [] then Ok([]) else
    var first :- Multiprotocol(families[0]);
    var rest :- MultiprotocolAll(families[1..]);
    Ok([first] + rest)
  }

  /** The OPEN a speaker sends; `families` lists the family set in its order. */
  function LocalOpen(asn: u32, holdTime: u16, routerId: u32, families: seq<Family>): OpenResult<Open>
  {
    if asn == 0 || routerId == 0 || families == [] then Err(OpenError(4)) else
    var multi :- MultiprotocolAll(families);
    var caps := [Capability(65, U32Bytes(asn)), Capability(2, [])] + multi;
    var open := Open(if asn <= U16_MAX then asn else 23456, holdTime, routerId, caps);
    var _ :- EncodeOpen(open);
    Ok(open)
  }

  method LocalOpenLoop(asn: u32, holdTime: u16, routerId: u32, families: seq<Family>)
    returns (r: OpenResult<Open>)
    ensures r == LocalOpen(asn, holdTime, routerId, families)
  {
    if asn == 0 || routerId == 0 || families == [] { return Err(OpenError(4)); }
    var caps := [Capability(65, U32Bytes(asn)), Capability(2, [])];
    ghost var multi: seq<Capability> := [];
    ExtendsStart(MultiprotocolAll(families));
    assert families[0..] == families;
    var i := 0;
    while i < |families|
      invariant 0 <= i <= |families|
      invariant caps == [Capability(65, U32Bytes(asn)), Capability(2, [])] + multi
      invariant Extends(MultiprotocolAll(families), multi, MultiprotocolAll(families[i..]))
    {
      var cap := Multiprotocol(families[i]);
      if cap.Err? { return Err(cap.error); }
      assert families[i..][1..] == families[i + 1..];
      ExtendsStep(MultiprotocolAll(families), multi, [cap.value], MultiprotocolAll(families[i + 1..]));
      caps, multi, i := caps + [cap.value], multi + [cap.value], i + 1;
    }
    assert multi + [] == multi;
    var open := Open(if asn <= U16_MAX then asn else 23456, holdTime, routerId, caps);
    var encoded := EncodeOpenLoop(open);
    if encoded.Err? { return Err(encoded.error); }
    r := Ok(open);
  }

  /** The families of a graceful restart capability, none with forwarding kept. */
  function RestartTuples(families: seq<Family>): OpenResult<seq<byte>>
  {
    if families == [] then Ok([]) else
    if !FamilyValid(families[0]) then Err(OpenError(7)) else
    var rest :- RestartTuples(families[1..]);
    Ok(U16Bytes(families[0].afi) + [families[0].safi, 0] + rest)
  }

  /** The flag bits: restarting, notifications, and twelve bits of seconds. */
  function RestartField(seconds: u16, restarting: bool): u16
  {
    Min(seconds, 4095) + 0x4000 + if restarting then 0x8000 else 0
  }

  function GracefulRestart(seconds: u16, restarting: bool, families: seq<Family>): OpenResult<Capability>
  {
    var tuples :- RestartTuples(families);
    Ok(Capability(64, U16Bytes(RestartField(seconds, restarting)) + tuples))
  }

  method GracefulRestartLoop(seconds: u16, restarting: bool, families: seq<Family>) returns (r: OpenResult<Capability>)
    ensures r == GracefulRestart(seconds, restarting, families)
  {
    var head := U16Bytes(RestartField(seconds, restarting));
    var tuples: seq<byte> := [];
    ExtendsStart(RestartTuples(families));
    assert families[0..] == families;
    for i := 0 to |families|
      invariant Extends(RestartTuples(families), tuples, RestartTuples(families[i..]))
    {
      if !FamilyValid(families[i]) { return Err(OpenError(7)); }
      assert families[i..][1..] == families[i + 1..];
      var next := U16Bytes(families[i].afi) + [families[i].safi, 0];
      ExtendsStep(RestartTuples(families), tuples, next, RestartTuples(families[i + 1..]));
      tuples := tuples + next;
    }
    assert tuples + [] == tuples;
    r := Ok(Capability(64, head + tuples));
  }

  lemma {:induction false} TuplesKeepNothing(families: seq<Family>)
    requires RestartTuples(families).Ok?
    ensures |RestartTuples(families).value| % 4 == 0 && Forwarding(RestartTuples(families).value) == {}
  {
    if families != [] {
      TuplesKeepNothing(families[1..]);
      var tuples, rest := RestartTuples(families).value, RestartTuples(families[1..]).value;
      assert tuples[4..] == rest && tuples[3] == 0;
    }
  }

  /** A peer reads back the restart time, capped at twelve bits, the restart
      flag and notification support, and no kept forwarding. */
  lemma GracefulRestartRead(seconds: u16, restarting: bool, families: seq<Family>, open: Open)
    requires GracefulRestart(seconds, restarting, families).Ok?
    requires LastCapability(open.capabilities, 64) == Some(GracefulRestart(seconds, restarting, families).value)
    ensures RestartOf(open) == Some(Restart(Min(seconds, 4095), restarting, true, {}))
  {
    hide LastCapability, RestartTuples, Forwarding;
    TuplesKeepNothing(families);
    var field := RestartField(seconds, restarting);
    var value := GracefulRestart(seconds, restarting, families).value.value;
    assert value[..2] == U16Bytes(field) && value[2..] == RestartTuples(families).value;
    U16RoundTrip(field);
  }

  lemma {:induction false} MultiprotocolFamilies(families: seq<Family>)
    requires MultiprotocolAll(families).Ok?
    ensures var caps := MultiprotocolAll(families).value;
            && (set cap | cap in caps && MultiprotocolFamily(cap).Some? :: MultiprotocolFamily(cap).value)
               == (set f | f in families)
            && forall cap :: cap in caps ==> cap.code == 1
  {
    if families != [] {
      MultiprotocolFamilies(families[1..]);
      var f, cap := families[0], Multiprotocol(families[0]).value;
      assert cap.value[..2] == U16Bytes(f.afi);
      U16RoundTrip(f.afi);
      var rest := MultiprotocolAll(families[1..]).value;
      assert forall c :: c in [cap] + rest <==> c == cap || c in rest;
      assert forall g :: g in families <==> g == f || g in families[1..];
      assert MultiprotocolFamily(cap) == Some(f);
      var all := set c | c in [cap] + rest && MultiprotocolFamily(c).Some? :: MultiprotocolFamily(c).value;
      var tail := set c | c in rest && MultiprotocolFamily(c).Some? :: MultiprotocolFamily(c).value;
      assert all == {f} + tail;
    }
  }

  lemma {:induction false} NoFourOctet(caps: seq<Capability>, four: Option<u32>)
    requires forall cap :: cap in caps ==> cap.code != 65
    ensures FourOctetAsn(caps, four) == Ok(four)
  {
    if caps != [] { NoFourOctet(caps[1..], four); }
  }

  lemma CarriesAsn(caps: seq<Capability>, asn: u32, multi: seq<Capability>)
    requires caps == [Capability(65, U32Bytes(asn)), Capability(2, [])] + multi
    requires forall cap :: cap in multi ==> cap.code != 65
    ensures FourOctetAsn(caps, None) == Ok(Some(asn))
  {
    hide BeBytes, BeValue;
    U32RoundTrip(asn);
    assert caps[1..][1..] == multi;
    NoFourOctet(multi, Some(asn));
    assert caps[1..][0].code == 2;
  }

  lemma CarriesFamilies(open: Open, asn: u32, multi: seq<Capability>)
    requires open.capabilities == [Capability(65, U32Bytes(asn)), Capability(2, [])] + multi
    ensures Families(open) ==
            (set c | c in multi && MultiprotocolFamily(c).Some? :: MultiprotocolFamily(c).value)
    ensures Announces(open, 65) && Announces(open, 2)
  {
    hide U32Bytes;
    var caps := open.capabilities;
    assert caps[0] == Capability(65, U32Bytes(asn)) && caps[1] == Capability(2, []);
    assert forall c :: c in caps <==> c == caps[0] || c == caps[1] || c in multi;
  }

  /** A locally built OPEN announces exactly the given families and carries the
      full AS number, whatever its two-octet field says. */
  lemma LocalOpenAnnounces(asn: u32, holdTime: u16, routerId: u32, families: seq<Family>)
    requires LocalOpen(asn, holdTime, routerId, families).Ok?
    ensures var open := LocalOpen(asn, holdTime, routerId, families).value;
            && Families(open) == (set f | f in families)
            && EffectiveAsn(open) == Ok(asn)
            && Announces(open, 65) && Announces(open, 2)
            && RestartOf(open).None? && EncodeOpen(open).Ok?
            && open.holdTime == holdTime && open.routerId == routerId && routerId != 0
            && open.asn == (if asn <= U16_MAX then asn else 23456)
  {
    var open := LocalOpen(asn, holdTime, routerId, families).value;
    var multi := MultiprotocolAll(families).value;
    hide FourOctetAsn, U32Bytes, EncodeOpen, Families, MultiprotocolFamily, LastCapability, Announces, MultiprotocolAll;
    MultiprotocolFamilies(families);
    CarriesAsn(open.capabilities, asn, multi);
    CarriesFamilies(open, asn, multi);
    assert open.capabilities[2..] == multi;
    NoRestart(open.capabilities, families);
  }

  /** Two speakers built this way, each expecting the other's AS number (or any),
      with different router IDs and a family in common, always come to terms. */
  lemma LocalOpensNegotiate(asnA: u32, holdA: u16, idA: u32, famA: seq<Family>,
                            asnB: u32, holdB: u16, idB: u32, famB: seq<Family>, f: Family)
    requires LocalOpen(asnA, holdA, idA, famA).Ok? && LocalOpen(asnB, holdB, idB, famB).Ok?
    requires idA != idB && f in famA && f in famB
    ensures var a, b := LocalOpen(asnA, holdA, idA, famA).value, LocalOpen(asnB, holdB, idB, famB).value;
            && Negotiate(a, b, asnB).Ok? && Negotiate(b, a, asnA).Ok?
            && Negotiate(a, b, asnB).value == Negotiate(b, a, asnA).value
            && Negotiate(a, b, asnB).value.fourOctetAsn
            && Negotiate(a, b, asnB).value.holdTime == (if holdA <= holdB then holdA else holdB)
  {
    hide LocalOpen, EffectiveAsn, EncodeOpen, Families, RestartOf, Announces;
    var a, b := LocalOpen(asnA, holdA, idA, famA).value, LocalOpen(asnB, holdB, idB, famB).value;
    LocalOpenAnnounces(asnA, holdA, idA, famA);
    LocalOpenAnnounces(asnB, holdB, idB, famB);
    LocalHold(asnA, holdA, idA, famA);
    LocalHold(asnB, holdB, idB, famB);
    assert f in Families(a) * Families(b);
    assert Families(a) * Families(b) == Families(b) * Families(a);
  }

  lemma LocalHold(asn: u32, holdTime: u16, routerId: u32, families: seq<Family>)
    requires LocalOpen(asn, holdTime, routerId, families).Ok?
    ensures holdTime !in {1, 2}
  {
    hide FourOctetAsn, Parameters, MultiprotocolAll;
  }

  lemma NoRestart(caps: seq<Capability>, families: seq<Family>)
    requires MultiprotocolAll(families).Ok?
    requires |caps| >= 2 && caps[0].code == 65 && caps[1].code == 2 && caps[2..] == MultiprotocolAll(families).value
    ensures LastCapability(caps, 64).None?
  {
    MultiprotocolFamilies(families);
    assert forall i :: 2 <= i < |caps| ==> caps[i] == caps[2..][i - 2];
    NoneLast(caps, 64);
  }

  lemma {:induction false} NoneLast(caps: seq<Capability>, code: byte)
    requires forall cap :: cap in caps ==> cap.code != code
    ensures LastCapability(caps, code).None?
  {
    if caps != [] { NoneLast(caps[..|caps| - 1], code); }
  }
}
