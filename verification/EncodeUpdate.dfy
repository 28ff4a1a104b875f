/** Export encoding: announcements and withdrawals split over frames
    (crates/flowsdn-bgp-proto/src/encode_update.rs). */
module EncodeUpdate {
  import opened Bytes
  import opened Framing
  import opened Negotiation
  import opened Prefixes
  import Arith
  import Heard = Attributes
  import Update

  type Field = Update.Field
  type Summary = Update.Summary

  datatype IpAddr = IpAddr(v6: bool, value: nat)

  datatype Export = Export(
    family: Family,
    nextHop: IpAddr,
    localAsn: u32,
    external: bool,
    fourOctetAsn: bool,
    asSequence: seq<u32>,
    localPreference: u32,
    origin: byte)

  function ExportError(): ProtocolError { ProtocolError(3, 9, UpdateContent) }

  function FamilyError(): ProtocolError { ProtocolError(2, 7, InOpen) }

  // ---------- attributes ----------

  datatype Attr = Attr(flags: byte, code: byte, value: seq<byte>)

  predicate AttrFits(a: Attr)
  {
    a.flags in {0x40, 0x80, 0xc0} && |a.value| <= U16_MAX
  }

  function AttrBytes(a: Attr): (r: seq<byte>)
    requires AttrFits(a)
    ensures |r| == |a.value| + (if |a.value| > 255 then 4 else 3)
  {
    if |a.value| > 255 then [a.flags + 0x10, a.code] + U16Bytes(|a.value|) + a.value
    else [a.flags, a.code, |a.value|] + a.value
  }

  lemma AttrField(a: Attr)
    requires AttrFits(a)
    ensures var raw := AttrBytes(a);
            && Update.OneAttribute(raw)
            && var f := Update.FieldOf(raw);
               f.code == a.code && f.value == a.value && Update.Class(f.flags) == a.flags && !Update.Partial(f.flags)
  {
    var raw := AttrBytes(a);
    if |a.value| > 255 {
      assert raw[2..4] == U16Bytes(|a.value|);
      U16RoundTrip(|a.value|);
      assert raw[4..] == a.value;
    } else {
      assert raw[3..] == a.value;
    }
  }

  function AsNumbers(asns: seq<u32>, four: bool): (r: seq<byte>)
    ensures |r| == |asns| * (if four then 4 else 2)
  {
    if asns == [] then []
    else
      (if four then U32Bytes(asns[0]) else U16Bytes(if asns[0] <= U16_MAX then asns[0] else 23456))
      + AsNumbers(asns[1..], four)
  }

  /** AS_SEQUENCE segments of at most 255 numbers. */
  function Path(asns: seq<u32>, four: bool): seq<byte>
    decreases |asns|
  {
    if asns == [] then [] else
    var k := Min(|asns|, 255);
    [2, k] + AsNumbers(asns[..k], four) + Path(asns[k..], four)
  }

  lemma {:induction false} PathOk(asns: seq<u32>, four: bool)
    ensures Update.AsPathOk(Path(asns, four), if four then 4 else 2)
    ensures |Path(asns, four)| <= 6 * |asns|
    decreases |asns|
  {
    if asns != [] {
      var k := Min(|asns|, 255);
      var value := Path(asns, four);
      PathOk(asns[k..], four);
      var end := 2 + k * (if four then 4 else 2);
      assert value[end..] == Path(asns[k..], four);
    }
  }

  predicate ConfigOk(e: Export)
  {
    && e.localAsn != 0 && e.origin <= 2 && 0 !in e.asSequence && |e.asSequence| <= 1024
  }

  function Sequence(e: Export): seq<u32>
  {
    (if e.external then [e.localAsn] else []) + e.asSequence
  }

  function IpBytes(ip: IpAddr): (r: seq<byte>)
    ensures |r| == Octets(ip.v6)
  {
    BeBytes(ip.value, Octets(ip.v6))
  }

  predicate NextHopOk(e: Export)
  {
    if !e.nextHop.v6 then e.family == IPV4 && !Update.NextHopRefused(IpBytes(e.nextHop))
    else IpBytes(e.nextHop) != Zeros(16) && IpBytes(e.nextHop)[0] != 0xff
  }

  /** The AS numbers do not all fit two octets: the full path travels in AS4_PATH. */
  function As4Path(e: Export): seq<Attr>
  {
    if !e.fourOctetAsn && exists n :: n in Sequence(e) && n > U16_MAX
    then [Attr(0xc0, 17, Path(Sequence(e), true))] else []
  }

  function LocalPreference(e: Export): seq<Attr>
  {
    if e.external then [] else [Attr(0x40, 5, U32Bytes(e.localPreference))]
  }

  function NextHop(e: Export): seq<Attr>
  {
    if e.nextHop.v6 then [] else [Attr(0x40, 3, IpBytes(e.nextHop))]
  }

  /** The attributes every frame of this export repeats. */
  function BaseAttrs(e: Export): seq<Attr>
  {
    [Attr(0x40, 1, [e.origin])]
    + ([Attr(0x40, 2, Path(Sequence(e), e.fourOctetAsn))] + (As4Path(e) + (LocalPreference(e) + NextHop(e))))
  }

  function AttrsBytes(attrs: seq<Attr>): seq<byte>
    requires forall a :: a in attrs ==> AttrFits(a)
  {
    if attrs == [] then [] else AttrBytes(attrs[0]) + AttrsBytes(attrs[1..])
  }

  lemma {:induction false} AttrsBytesBound(attrs: seq<Attr>)
    requires forall a :: a in attrs ==> AttrFits(a) && |a.value| <= 6150
    ensures |AttrsBytes(attrs)| <= 6154 * |attrs|
  {
    if attrs != [] { AttrsBytesBound(attrs[1..]); }
  }

  lemma BaseMembers(e: Export)
    ensures forall a :: a in BaseAttrs(e) ==>
              || a == Attr(0x40, 1, [e.origin]) || a == Attr(0x40, 2, Path(Sequence(e), e.fourOctetAsn))
              || a in As4Path(e) || a in LocalPreference(e) || a in NextHop(e)
  {
  }

  predicate Small(a: Attr) { AttrFits(a) && |a.value| <= 6150 }

  lemma PathSmall(asns: seq<u32>, four: bool)
    requires |asns| <= 1025
    ensures Small(Attr(0x40, 2, Path(asns, four))) && Small(Attr(0xc0, 17, Path(asns, four)))
  {
    PathOk(asns, four);
  }

  lemma BaseSmall(e: Export)
    requires ConfigOk(e)
    ensures forall a :: a in BaseAttrs(e) ==> Small(a)
  {
    hide BaseAttrs, Path;
    BaseMembers(e);
    PathSmall(Sequence(e), e.fourOctetAsn);
    PathSmall(Sequence(e), true);
  }

  lemma BaseFits(e: Export)
    requires ConfigOk(e)
    ensures forall a :: a in BaseAttrs(e) ==> AttrFits(a)
    ensures |AttrsBytes(BaseAttrs(e))| <= 30770
  {
    BaseSmall(e);
    BaseCount(e);
    hide BaseAttrs;
    assert forall a :: a in BaseAttrs(e) ==> Small(a) && AttrFits(a);
    AttrsBytesBound(BaseAttrs(e));
  }

  lemma BaseCount(e: Export)
    ensures 2 <= |BaseAttrs(e)| <= 5
  {
  }

  function Attributes(e: Export): Result<seq<byte>, ProtocolError>
  {
    if !FamilyValid(e.family) then Err(FamilyError())
    else if !ConfigOk(e) || !NextHopOk(e) then Err(ExportError())
    else BaseFits(e); Ok(AttrsBytes(BaseAttrs(e)))
  }

  // ---------- bodies ----------

  predicate Legacy(e: Export) { e.family == IPV4 && !e.nextHop.v6 }

  /** The MP_REACH_NLRI value. */
  function Reach(e: Export, nlri: seq<byte>): (r: seq<byte>)
    requires e.nextHop.v6
    ensures |r| == 21 + |nlri|
  {
    U16Bytes(e.family.afi) + [e.family.safi, 16] + IpBytes(e.nextHop) + [0] + nlri
  }

  function Body(e: Export, base: seq<byte>, ps: seq<Prefix>): Result<seq<byte>, ProtocolError>
    requires forall p :: p in ps ==> Canonical(p)
  {
    var nlri := Nlri(ps);
    if Legacy(e) then
      if |base| > U16_MAX then Err(ExportError())
      else Ok([0, 0] + U16Bytes(|base|) + base + nlri)
    else if !e.nextHop.v6 then Err(ExportError())
    else
      var a := Attr(0x80, 14, Reach(e, nlri));
      if !AttrFits(a) then Err(ExportError()) else
      var attrs := base + AttrBytes(a);
      if |attrs| > U16_MAX then Err(ExportError())
      else Ok([0, 0] + U16Bytes(|attrs|) + attrs)
  }

  /** The size of a body, from the NLRI size alone. */
  function BodySize(e: Export, base: nat, nlri: nat): nat
  {
    if Legacy(e) then 4 + base + nlri
    else 4 + base + (if 21 + nlri > 255 then 4 else 3) + 21 + nlri
  }

  lemma BodySized(e: Export, base: seq<byte>, ps: seq<Prefix>)
    requires forall p :: p in ps ==> Canonical(p)
    requires Attributes(e) == Ok(base) && BodySize(e, |base|, |Nlri(ps)|) <= U16_MAX
    ensures Body(e, base, ps).Ok? && |Body(e, base, ps).value| == BodySize(e, |base|, |Nlri(ps)|)
  {
  }

  // ---------- what a body says to the validator ----------

  function FieldsFor(attrs: seq<Attr>): seq<Field>
    requires forall a :: a in attrs ==> AttrFits(a)
  {
    if attrs == [] then [] else AttrField(attrs[0]); [Update.FieldOf(AttrBytes(attrs[0]))] + FieldsFor(attrs[1..])
  }

  lemma {:induction false} SplitAttrs(attrs: seq<Attr>)
    requires forall a :: a in attrs ==> AttrFits(a)
    ensures Update.SplitFields(AttrsBytes(attrs)) == Ok(FieldsFor(attrs))
  {
    if attrs != [] {
      SplitAttrs(attrs[1..]);
      AttrField(attrs[0]);
      Update.SplitFirst(AttrBytes(attrs[0]), AttrsBytes(attrs[1..]));
    }
  }

  lemma {:induction false} AttrsSnoc(attrs: seq<Attr>, a: Attr)
    requires AttrFits(a) && forall x :: x in attrs ==> AttrFits(x)
    ensures AttrsBytes(attrs + [a]) == AttrsBytes(attrs) + AttrBytes(a)
    ensures FieldsFor(attrs + [a]) == FieldsFor(attrs) + FieldsFor([a])
  {
    if attrs == [] {
      assert attrs + [a] == [a];
    } else {
      assert (attrs + [a])[1..] == attrs[1..] + [a];
      AttrsSnoc(attrs[1..], a);
    }
  }

  /** An attribute that passes on its own and leaves the summary alone. */
  ghost predicate Plain(a: Attr, four: bool)
  {
    && AttrFits(a) && a.code !in {14, 15}
    && Update.ExpectedClass(a.code) == Some(a.flags)
    && Update.ValueError(Update.Field(a.flags, a.code, a.value, []), four).None?
  }

  lemma PlainPasses(a: Attr, seen: set<byte>, s: Summary, four: bool)
    requires Plain(a, four) && a.code !in seen
    ensures Update.OneAttribute(AttrBytes(a)) && Update.FieldOf(AttrBytes(a)).code == a.code
    ensures Update.CheckField(Update.FieldOf(AttrBytes(a)), seen, s, four) == Ok(s)
  {
    AttrField(a);
  }

  function Codes(attrs: seq<Attr>): set<byte>
  {
    if attrs == [] then {} else {attrs[0].code} + Codes(attrs[1..])
  }

  predicate DistinctCodes(attrs: seq<Attr>)
  {
    attrs == [] || (attrs[0].code !in Codes(attrs[1..]) && DistinctCodes(attrs[1..]))
  }

  lemma {:induction false} PlainFieldsPass(attrs: seq<Attr>, tail: seq<Field>, seen: set<byte>, s: Summary, four: bool)
    requires forall a :: a in attrs ==> AttrFits(a)
    requires forall a :: a in attrs ==> Plain(a, four)
    requires DistinctCodes(attrs) && seen !! Codes(attrs)
    ensures Update.CheckFields(FieldsFor(attrs) + tail, seen, s, four)
            == Update.CheckFields(tail, seen + Codes(attrs), s, four)
  {
    hide Update.CheckField, Plain, Update.FieldOf, AttrBytes, AttrFits, Update.OneAttribute;
    if attrs == [] {
      assert FieldsFor(attrs) + tail == tail;
      assert seen + Codes(attrs) == seen;
    } else {
      var a := attrs[0];
      PlainPasses(a, seen, s, four);
      var fields := FieldsFor(attrs) + tail;
      assert fields[0] == Update.FieldOf(AttrBytes(a));
      assert fields[1..] == FieldsFor(attrs[1..]) + tail;
      PlainFieldsPass(attrs[1..], tail, seen + {a.code}, s, four);
      assert seen + {a.code} + Codes(attrs[1..]) == seen + Codes(attrs);
    }
  }

  lemma PathPlain(asns: seq<u32>, four: bool)
    requires |asns| <= 1025
    ensures Plain(Attr(0x40, 2, Path(asns, four)), four)
    ensures four ==> Plain(Attr(0xc0, 17, Path(asns, true)), true) && Plain(Attr(0xc0, 17, Path(asns, true)), false)
  {
    PathOk(asns, four);
  }

  lemma BasePlain(e: Export)
    requires Attributes(e).Ok?
    ensures forall a :: a in BaseAttrs(e) ==> Plain(a, e.fourOctetAsn)
  {
    PathPlain(Sequence(e), e.fourOctetAsn);
    PathPlain(Sequence(e), true);
    assert forall a :: a in LocalPreference(e) ==> Plain(a, e.fourOctetAsn);
    assert forall a :: a in NextHop(e) ==> Plain(a, e.fourOctetAsn);
    assert forall a :: a in As4Path(e) ==> Plain(a, e.fourOctetAsn);
    var origin := Attr(0x40, 1, [e.origin]);
    assert Plain(origin, e.fourOctetAsn);
    BaseMembers(e);
  }

  lemma BaseCodes(e: Export)
    ensures DistinctCodes(BaseAttrs(e))
    ensures Codes(BaseAttrs(e)) >= {1, 2} && 14 !in Codes(BaseAttrs(e)) && 15 !in Codes(BaseAttrs(e))
    ensures !e.nextHop.v6 ==> 3 in Codes(BaseAttrs(e))
  {
    hide Path, Codes, DistinctCodes, As4Path, LocalPreference, NextHop;
    PieceCodes(e);
    var tail := As4Path(e) + (LocalPreference(e) + NextHop(e));
    var path := [Attr(0x40, 2, Path(Sequence(e), e.fourOctetAsn))];
    NoCodes();
    CodesOfOne(NextHop(e), [], 3);
    assert NextHop(e) + [] == NextHop(e);
    CodesOfOne(LocalPreference(e), NextHop(e), 5);
    CodesOfOne(As4Path(e), LocalPreference(e) + NextHop(e), 17);
    CodesOfOne(path, tail, 2);
    CodesOfOne([Attr(0x40, 1, [e.origin])], path + tail, 1);
  }

  lemma PieceCodes(e: Export)
    ensures |As4Path(e)| <= 1 && (|As4Path(e)| == 1 ==> As4Path(e)[0].code == 17)
    ensures |LocalPreference(e)| <= 1 && (|LocalPreference(e)| == 1 ==> LocalPreference(e)[0].code == 5)
    ensures |NextHop(e)| <= 1 && (|NextHop(e)| == 1 ==> NextHop(e)[0].code == 3)
    ensures !e.nextHop.v6 ==> |NextHop(e)| == 1
  {
    hide Path, U32Bytes, IpBytes, Sequence;
  }

  lemma NoCodes()
    ensures Codes([]) == {} && DistinctCodes([])
  {
  }

  /** Prepending at most one attribute of code `c`. */
  lemma CodesOfOne(head: seq<Attr>, tail: seq<Attr>, c: byte)
    requires |head| <= 1 && (|head| == 1 ==> head[0].code == c)
    requires DistinctCodes(tail) && c !in Codes(tail)
    ensures DistinctCodes(head + tail)
    ensures Codes(head + tail) == (if head == [] then {} else {c}) + Codes(tail)
  {
    if head == [] {
      assert head + tail == tail;
    } else {
      assert (head + tail)[1..] == tail;
    }
  }

  predicate RightFamily(family: Family, ps: seq<Prefix>)
  {
    forall p :: p in ps ==> p.v6 == (family != IPV4)
  }

  lemma ReachReads(e: Export, ps: seq<Prefix>)
    requires FamilyValid(e.family) && e.nextHop.v6
    requires forall p :: p in ps ==> Canonical(p)
    requires RightFamily(e.family, ps)
    ensures Update.Multiprotocol(Reach(e, Nlri(ps)), true) == Ok(ps)
  {
    var value := Reach(e, Nlri(ps));
    assert value[..2] == U16Bytes(e.family.afi);
    U16RoundTrip(e.family.afi);
    assert value[2] == 1 && value[3] == 16;
    assert value[21..] == Nlri(ps);
    ReadNlri(ps, e.family.afi == 2);
  }

  function Announcing(e: Export, ps: seq<Prefix>): Summary
  {
    if Legacy(e) then Update.Summary([], ps, [], [], []) else Update.Summary([], [], ps, [], [])
  }

  /** A body that fits validates, and announces exactly its prefixes. */
  lemma BodyValid(e: Export, base: seq<byte>, ps: seq<Prefix>)
    requires forall p :: p in ps ==> Canonical(p)
    requires Attributes(e) == Ok(base) && RightFamily(e.family, ps)
    requires Body(e, base, ps).Ok? && |Body(e, base, ps).value| <= MAX_BODY
    ensures Update.Validate(Body(e, base, ps).value, e.fourOctetAsn) == Ok(Announcing(e, ps))
  {
    BaseFits(e);
    BasePlain(e);
    BaseCodes(e);
    if Legacy(e) { LegacyBodyValid(e, base, ps); } else { ReachBodyValid(e, base, ps); }
  }

  lemma EmptyReads()
    ensures ReadPrefixes([], false) == Ok([])
  {
  }

  lemma LegacyBodyValid(e: Export, base: seq<byte>, ps: seq<Prefix>)
    requires forall p :: p in ps ==> Canonical(p)
    requires forall a :: a in BaseAttrs(e) ==> AttrFits(a)
    requires forall a :: a in BaseAttrs(e) ==> Plain(a, e.fourOctetAsn)
    requires DistinctCodes(BaseAttrs(e)) && Codes(BaseAttrs(e)) >= {1, 2, 3}
    requires base == AttrsBytes(BaseAttrs(e)) && RightFamily(e.family, ps) && Legacy(e)
    requires Body(e, base, ps).Ok? && |Body(e, base, ps).value| <= MAX_BODY
    ensures Update.Validate(Body(e, base, ps).value, e.fourOctetAsn) == Ok(Announcing(e, ps))
  {
    hide AttrsBytes, BaseAttrs, Plain, AttrFits, FieldsFor, DistinctCodes, Codes, Update.SplitFields, Nlri;
    hide ReadPrefixes;
    var attrs, four, body := BaseAttrs(e), e.fourOctetAsn, Body(e, base, ps).value;
    SplitAttrs(attrs);
    EmptyReads();
    assert body == U16Bytes(0) + [] + U16Bytes(|base|) + base + Nlri(ps);
    ReadNlri(ps, false);
    var s := Update.Summary([], ps, [], [], []);
    PlainFieldsPass(attrs, [], {}, s, four);
    assert FieldsFor(attrs) + [] == FieldsFor(attrs);
    Update.PartsValidate(body, Update.Regions([], base, Nlri(ps)), FieldsFor(attrs), [], ps, four, s,
                         {} + Codes(attrs));
  }

  function Multi(code: byte, ps: seq<Prefix>): Summary
  {
    if code == 14 then Update.Summary([], [], ps, [], []) else Update.Summary([], [], [], ps, [])
  }

  lemma MultiFieldPasses(mp: Attr, ps: seq<Prefix>, seen: set<byte>, four: bool)
    requires AttrFits(mp) && mp.flags == 0x80 && mp.code in {14, 15} && mp.code !in seen
    requires Update.Multiprotocol(mp.value, mp.code == 14) == Ok(ps)
    ensures Update.CheckFields(FieldsFor([mp]), seen, Update.Summary([], [], [], [], []), four)
            == Ok((Multi(mp.code, ps), seen + {mp.code}))
  {
    AttrField(mp);
    var fields := FieldsFor([mp]);
    assert [mp][1..] == [];
    assert fields == [Update.FieldOf(AttrBytes(mp))] + FieldsFor([]);
    assert fields[1..] == [];
  }

  /** Plain attributes followed by one multiprotocol attribute, and no NLRI. */
  lemma MultiBodyValid(attrs: seq<Attr>, mp: Attr, ps: seq<Prefix>, four: bool, all: seq<byte>)
    requires forall a :: a in attrs ==> AttrFits(a)
    requires forall a :: a in attrs ==> Plain(a, four)
    requires DistinctCodes(attrs) && mp.code !in Codes(attrs)
    requires AttrFits(mp) && mp.flags == 0x80 && mp.code in {14, 15}
    requires mp.code == 14 ==> Codes(attrs) >= {1, 2}
    requires Update.Multiprotocol(mp.value, mp.code == 14) == Ok(ps)
    requires all == AttrsBytes(attrs) + AttrBytes(mp) && |all| <= MAX_BODY - 4
    ensures Update.Validate([0, 0] + U16Bytes(|all|) + all, four) == Ok(Multi(mp.code, ps))
  {
    hide AttrsBytes, AttrBytes, Plain, FieldsFor, Update.SplitFields, Update.CheckFields, Update.Multiprotocol;
    var body := [0, 0] + U16Bytes(|all|) + all;
    MultiFields(attrs, mp, ps, four, all);
    assert body == U16Bytes(0) + [] + U16Bytes(|all|) + all + [];
    Update.PartsValidate(body, Update.Regions([], all, []), FieldsFor(attrs + [mp]), [], [], four,
                         Multi(mp.code, ps), {} + Codes(attrs) + {mp.code});
  }

  lemma MultiFields(attrs: seq<Attr>, mp: Attr, ps: seq<Prefix>, four: bool, all: seq<byte>)
    requires forall a :: a in attrs ==> AttrFits(a)
    requires forall a :: a in attrs ==> Plain(a, four)
    requires DistinctCodes(attrs) && mp.code !in Codes(attrs)
    requires AttrFits(mp) && mp.flags == 0x80 && mp.code in {14, 15}
    requires Update.Multiprotocol(mp.value, mp.code == 14) == Ok(ps)
    requires all == AttrsBytes(attrs) + AttrBytes(mp)
    ensures Update.SplitFields(all) == Ok(FieldsFor(attrs + [mp]))
    ensures Update.CheckFields(FieldsFor(attrs + [mp]), {}, Update.Summary([], [], [], [], []), four)
            == Ok((Multi(mp.code, ps), {} + Codes(attrs) + {mp.code}))
  {
    AttrsSnoc(attrs, mp);
    SplitAttrs(attrs + [mp]);
    PlainFieldsPass(attrs, FieldsFor([mp]), {}, Update.Summary([], [], [], [], []), four);
    MultiFieldPasses(mp, ps, {} + Codes(attrs), four);
  }

  lemma ReachBodyValid(e: Export, base: seq<byte>, ps: seq<Prefix>)
    requires forall p :: p in ps ==> Canonical(p)
    requires forall a :: a in BaseAttrs(e) ==> AttrFits(a)
    requires forall a :: a in BaseAttrs(e) ==> Plain(a, e.fourOctetAsn)
    requires DistinctCodes(BaseAttrs(e)) && Codes(BaseAttrs(e)) >= {1, 2} && 14 !in Codes(BaseAttrs(e))
    requires FamilyValid(e.family) && base == AttrsBytes(BaseAttrs(e)) && RightFamily(e.family, ps) && !Legacy(e)
    requires Body(e, base, ps).Ok? && |Body(e, base, ps).value| <= MAX_BODY
    ensures Update.Validate(Body(e, base, ps).value, e.fourOctetAsn) == Ok(Announcing(e, ps))
  {
    var mp := Attr(0x80, 14, Reach(e, Nlri(ps)));
    ReachReads(e, ps);
    var body := Body(e, base, ps).value;
    var all := base + AttrBytes(mp);
    assert body == [0, 0] + U16Bytes(|all|) + all;
    MultiBodyValid(BaseAttrs(e), mp, ps, e.fourOctetAsn, all);
  }

  // ---------- what a peer hears ----------

  /** What a receiver of one frame reads: framing, then validation. */
  function Received(frame: seq<byte>, four: bool): Option<Summary>
  {
    match Decode(frame)
    case Ok((Frame(KUpdate, body), used)) =>
      (match Update.Validate(body, four)
       case Ok(s) => if used == |frame| then Some(s) else None
       case Err(_) => None)
    case _ => None
  }

  predicate AllReceived(frames: seq<seq<byte>>, four: bool)
  {
    forall f :: f in frames ==> |f| <= MAX_MESSAGE_LENGTH && Received(f, four).Some?
  }

  /** The prefixes a received summary announces, and those it withdraws. */
  function Told(s: Summary): seq<Prefix> { s.announced + s.mpAnnounced }

  function Untold(s: Summary): seq<Prefix> { s.withdrawn + s.mpWithdrawn }

  function ToldBy(frames: seq<seq<byte>>, four: bool): seq<seq<Prefix>>
    requires AllReceived(frames, four)
  {
    seq(|frames|, i requires 0 <= i < |frames| => assert frames[i] in frames; Told(Received(frames[i], four).value))
  }

  function UntoldBy(frames: seq<seq<byte>>, four: bool): seq<seq<Prefix>>
    requires AllReceived(frames, four)
  {
    seq(|frames|, i requires 0 <= i < |frames| => assert frames[i] in frames; Untold(Received(frames[i], four).value))
  }

  // ---------- which exports are encoded ----------

  lemma {:induction false} TopByte(b: seq<byte>)
    requires b != []
    ensures b[0] as int * Pow2(8 * (|b| - 1)) <= BeValue(b) < (b[0] as int + 1) * Pow2(8 * (|b| - 1))
  {
    if |b| > 1 {
      var init, unit := b[..|b| - 1], Pow2(8 * (|b| - 2));
      TopByte(init);
      Pow2Byte(8 * (|b| - 2));
      Arith.MulAssoc(b[0], 0x100, unit);
      Arith.MulAssoc(b[0] as int + 1, 0x100, unit);
      assert 0x100 * (b[0] as int * unit) == b[0] as int * (0x100 * unit);
      assert 0x100 * ((b[0] as int + 1) * unit) == (b[0] as int + 1) * (0x100 * unit);
    }
  }

  /** A next hop that is an address of a host: not zero, not a group, not everyone. */
  predicate HostHop(e: Export)
  {
    if e.nextHop.v6 then 0 < e.nextHop.value < 0xff * Pow2(120)
    else
      && e.family.afi == 1 && e.nextHop.value !in {0, 0xffff_ffff}
      && !(0xe000_0000 <= e.nextHop.value < 0xf000_0000)
  }

  /** Unicast of a known family, a path of numbers that are not zero and not too many,
      a known origin, a host as next hop. */
  ghost predicate Exportable(e: Export)
  {
    && e.family.afi in {1, 2} && e.family.safi == 1
    && e.localAsn > 0 && (forall i :: 0 <= i < |e.asSequence| ==> e.asSequence[i] > 0) && |e.asSequence| < 1025
    && e.origin in {0, 1, 2} && HostHop(e)
  }

  lemma {:induction false} ZerosValue(n: nat)
    ensures BeValue(Zeros(n)) == 0
  {
    if n > 0 { ZerosValue(n - 1); }
  }

  lemma FourByteHop(b: seq<byte>)
    requires |b| == 4
    ensures Update.NextHopRefused(b) <==>
            BeValue(b) in {0, 0xffff_ffff} || 0xe000_0000 <= BeValue(b) < 0xf000_0000
  {
    hide BeValue;
    FourByteValue(b);
  }

  lemma FourByteValue(b: seq<byte>)
    requires |b| == 4
    ensures BeValue(b) == 0x100_0000 * b[0] as int + 0x1_0000 * b[1] as int + 0x100 * b[2] as int + b[3] as int
  {
    assert b[..3] == [b[0], b[1], b[2]] && [b[0], b[1], b[2]][..2] == [b[0], b[1]];
    assert [b[0], b[1]][..1] == [b[0]] && [b[0]][..0] == [];
    assert BeValue([b[0]]) == BeValue([]) * 0x100 + b[0] as int;
  }

  lemma HopExactly(e: Export)
    requires IsAddress(e.nextHop) && FamilyValid(e.family)
    ensures NextHopOk(e) <==> HostHop(e)
  {
    hide Update.NextHopRefused;
    var b := IpBytes(e.nextHop);
    BeRoundTrip(e.nextHop.value, Octets(e.nextHop.v6));
    if e.nextHop.v6 {
      TopByte(b);
      ZerosValue(16);
      if e.nextHop.value == 0 { BeTrailingZeros(0, 16, 16); }
      if b[0] < 0xff { Arith.MulMono(Pow2(120), b[0] as int + 1, 0xff); }
    } else {
      FourByteHop(b);
    }
  }

  /** Exactly the exportable exports are encoded; the family is refused first. */
  lemma AttributesExactly(e: Export)
    requires IsAddress(e.nextHop)
    ensures Attributes(e).Ok? <==> Exportable(e)
    ensures Attributes(e).Err? ==>
              Attributes(e).error ==
              if e.family.afi in {1, 2} && e.family.safi == 1
              then ProtocolError(3, 9, UpdateContent) else ProtocolError(2, 7, InOpen)
  {
    hide NextHopOk, HostHop, AttrsBytes, BaseAttrs;
    if FamilyValid(e.family) { HopExactly(e); }
  }

  // ---------- what the attributes of a frame say ----------

  /** The frame carries the export's whole AS path, although a two-octet session
      cannot spell every number, its origin, next hop and local preference. */
  ghost predicate Says(e: Export, frame: seq<byte>)
  {
    Heard.Fields(frame).Some? && SaysFields(e, Heard.Fields(frame).value)
  }

  ghost predicate SaysFields(e: Export, fields: seq<Field>)
  {
    && (exists path :: Heard.FullPath(fields, e.fourOctetAsn) == Some(path) && PathOf(e, path))
    && Heard.ValueOf(fields, 1) == Some([e.origin])
    && (exists hop :: Heard.NextHopOf(fields) == Some(hop) && HopOf(e, hop))
    && (Heard.ValueOf(fields, 5).Some? <==> !e.external)
    && (!e.external ==>
          |Heard.ValueOf(fields, 5).value| == 4 && BeValue(Heard.ValueOf(fields, 5).value) == e.localPreference)
    && (Heard.ValueOf(fields, 17).Some? <==> !e.fourOctetAsn && Large(e))
  }

  /** The configured sequence; an external peer sees our own number before it. */
  predicate PathOf(e: Export, path: seq<u32>)
  {
    if e.external then |path| >= 1 && path[0] == e.localAsn && path[1..] == e.asSequence else path == e.asSequence
  }

  predicate HopOf(e: Export, hop: seq<byte>)
  {
    |hop| == (if e.nextHop.v6 then 16 else 4) && (IsAddress(e.nextHop) ==> BeValue(hop) == e.nextHop.value)
  }

  predicate IsAddress(ip: IpAddr) { ip.value < Pow2(Width(ip.v6)) }

  /** Some number of the path does not fit two octets. */
  predicate Large(e: Export)
  {
    (e.external && e.localAsn >= 0x10000) || exists i :: 0 <= i < |e.asSequence| && e.asSequence[i] >= 0x10000
  }

  lemma LargeInSequence(e: Export)
    ensures Large(e) <==> exists n :: n in Sequence(e) && n > U16_MAX
  {
    assert forall n :: n in Sequence(e) <==> (e.external && n == e.localAsn) || n in e.asSequence;
    if n :| n in Sequence(e) && n > U16_MAX {
      if n in e.asSequence {
        var i :| 0 <= i < |e.asSequence| && e.asSequence[i] == n;
        assert e.asSequence[i] >= 0x10000;
      }
    }
    if Large(e) {
      if e.external && e.localAsn >= 0x10000 {
        assert e.localAsn in Sequence(e);
      } else {
        var i :| 0 <= i < |e.asSequence| && e.asSequence[i] >= 0x10000;
        assert e.asSequence[i] in Sequence(e);
      }
    }
  }

  /** The numbers a path of two octets shows; AS_TRANS stands for the large ones. */
  function Shown(asns: seq<u32>, four: bool): (r: seq<u32>)
    ensures |r| == |asns|
  {
    if asns == [] then []
    else [if four || asns[0] <= U16_MAX then asns[0] else 23456] + Shown(asns[1..], four)
  }

  lemma {:induction false} ShownAll(asns: seq<u32>, four: bool)
    requires four || forall n :: n in asns ==> n <= U16_MAX
    ensures Shown(asns, four) == asns
  {
    if asns != [] {
      assert asns[0] in asns && forall i :: 0 <= i < |asns| - 1 ==> asns[1..][i] in asns;
      ShownAll(asns[1..], four);
      assert asns == [asns[0]] + asns[1..];
    }
  }

  lemma {:induction false} ShownSplit(a: seq<u32>, b: seq<u32>, four: bool)
    ensures Shown(a + b, four) == Shown(a, four) + Shown(b, four)
  {
    if a == [] {
      assert a + b == b;
    } else {
      assert (a + b)[1..] == a[1..] + b;
      ShownSplit(a[1..], b, four);
    }
  }

  lemma {:induction false} NumbersRead(asns: seq<u32>, four: bool)
    ensures Heard.Numbers(AsNumbers(asns, four), four) == Shown(asns, four)
  {
    if asns != [] {
      var value := AsNumbers(asns, four);
      var n: u32 := if four || asns[0] <= U16_MAX then asns[0] else 23456;
      if four {
        assert value[..4] == U32Bytes(n);
        U32RoundTrip(n);
      } else {
        assert value[..2] == U16Bytes(n);
        U16RoundTrip(n);
      }
      assert value[Heard.Width(four)..] == AsNumbers(asns[1..], four);
      NumbersRead(asns[1..], four);
    }
  }

  lemma {:induction false} PathRead(asns: seq<u32>, four: bool)
    ensures Heard.PathNumbers(Path(asns, four), four) == Shown(asns, four)
    decreases |asns|
  {
    if asns != [] {
      var k := Min(|asns|, 255);
      var value := Path(asns, four);
      var end := 2 + k * Heard.Width(four);
      assert value[1] == k;
      assert value[2..end] == AsNumbers(asns[..k], four);
      assert value[end..] == Path(asns[k..], four);
      NumbersRead(asns[..k], four);
      PathRead(asns[k..], four);
      ShownSplit(asns[..k], asns[k..], four);
      assert asns[..k] + asns[k..] == asns;
    }
  }

  /** The value of the first attribute of a code, before encoding. */
  function Lookup(attrs: seq<Attr>, code: byte): Option<seq<byte>>
  {
    if attrs == [] then None
    else if attrs[0].code == code then Some(attrs[0].value)
    else Lookup(attrs[1..], code)
  }

  lemma {:induction false} FieldsLookup(attrs: seq<Attr>, code: byte)
    requires forall a :: a in attrs ==> AttrFits(a)
    ensures Heard.ValueOf(FieldsFor(attrs), code) == Lookup(attrs, code)
  {
    if attrs != [] {
      AttrField(attrs[0]);
      assert FieldsFor(attrs)[1..] == FieldsFor(attrs[1..]);
      FieldsLookup(attrs[1..], code);
    }
  }

  lemma {:induction false} LookupSplit(a: seq<Attr>, b: seq<Attr>, code: byte)
    ensures Lookup(a + b, code) == if Lookup(a, code).Some? then Lookup(a, code) else Lookup(b, code)
  {
    if a == [] {
      assert a + b == b;
    } else {
      assert (a + b)[1..] == a[1..] + b;
      LookupSplit(a[1..], b, code);
    }
  }

  lemma LookupOne(a: Attr, code: byte)
    ensures Lookup([a], code) == if a.code == code then Some(a.value) else None
  {
    assert [a][1..] == [];
  }

  /** What the export's attributes say under each code. */
  function Spoken(e: Export, code: byte): Option<seq<byte>>
  {
    if code == 1 then Some([e.origin])
    else if code == 2 then Some(Path(Sequence(e), e.fourOctetAsn))
    else if code == 17 && As4Path(e) != [] then Some(Path(Sequence(e), true))
    else if code == 5 && !e.external then Some(U32Bytes(e.localPreference))
    else if code == 3 && !e.nextHop.v6 then Some(IpBytes(e.nextHop))
    else None
  }

  lemma BaseLookup(e: Export, code: byte)
    ensures Lookup(BaseAttrs(e), code) == Spoken(e, code)
  {
    hide Path, IpBytes, U32Bytes;
    var origin, path := Attr(0x40, 1, [e.origin]), Attr(0x40, 2, Path(Sequence(e), e.fourOctetAsn));
    var tail := As4Path(e) + (LocalPreference(e) + NextHop(e));
    LookupSplit([origin], [path] + tail, code);
    LookupSplit([path], tail, code);
    LookupSplit(As4Path(e), LocalPreference(e) + NextHop(e), code);
    LookupSplit(LocalPreference(e), NextHop(e), code);
    LookupOne(origin, code);
    LookupOne(path, code);
    if As4Path(e) != [] { LookupOne(As4Path(e)[0], code); }
    if LocalPreference(e) != [] { LookupOne(LocalPreference(e)[0], code); }
    if NextHop(e) != [] { LookupOne(NextHop(e)[0], code); }
  }

  /** The attributes of a body: the export's, and the multiprotocol one. */
  function AllAttrs(e: Export, nlri: seq<byte>): seq<Attr>
  {
    BaseAttrs(e) + if e.nextHop.v6 then [Attr(0x80, 14, Reach(e, nlri))] else []
  }

  lemma AllLookup(e: Export, nlri: seq<byte>, code: byte)
    requires forall a :: a in AllAttrs(e, nlri) ==> AttrFits(a)
    ensures Heard.ValueOf(FieldsFor(AllAttrs(e, nlri)), code) ==
            if code == 14 && e.nextHop.v6 then Some(Reach(e, nlri)) else Spoken(e, code)
  {
    hide BaseAttrs, Reach, FieldsFor;
    FieldsLookup(AllAttrs(e, nlri), code);
    BaseLookup(e, code);
    if e.nextHop.v6 {
      LookupSplit(BaseAttrs(e), [Attr(0x80, 14, Reach(e, nlri))], code);
      LookupOne(Attr(0x80, 14, Reach(e, nlri)), code);
    } else {
      assert AllAttrs(e, nlri) == BaseAttrs(e);
    }
  }

  lemma PathHeard(e: Export, fields: seq<Field>)
    requires Heard.ValueOf(fields, 2) == Spoken(e, 2) && Heard.ValueOf(fields, 17) == Spoken(e, 17)
    ensures Heard.FullPath(fields, e.fourOctetAsn) == Some(Sequence(e))
  {
    hide Path, Heard.ValueOf, Heard.PathNumbers;
    PathRead(Sequence(e), e.fourOctetAsn);
    PathRead(Sequence(e), true);
    ShownAll(Sequence(e), true);
    if e.fourOctetAsn || As4Path(e) == [] {
      ShownAll(Sequence(e), e.fourOctetAsn);
    } else {
      var short := Shown(Sequence(e), e.fourOctetAsn);
      assert short[..|short| - |Sequence(e)|] + Sequence(e) == Sequence(e);
    }
  }

  lemma AttrsSay(e: Export, nlri: seq<byte>)
    requires forall a :: a in AllAttrs(e, nlri) ==> AttrFits(a)
    ensures SaysFields(e, FieldsFor(AllAttrs(e, nlri)))
  {
    hide AllAttrs, FieldsFor, Heard.FullPath, Heard.ValueOf, Reach;
    AllLookup(e, nlri, 1);
    AllLookup(e, nlri, 2);
    AllLookup(e, nlri, 3);
    AllLookup(e, nlri, 5);
    AllLookup(e, nlri, 14);
    AllLookup(e, nlri, 17);
    PathHeard(e, FieldsFor(AllAttrs(e, nlri)));
    SequenceIsPath(e);
    LargeInSequence(e);
    HopIs(e);
    U32RoundTrip(e.localPreference);
    if e.nextHop.v6 { ReachHop(e, nlri); }
  }

  lemma SequenceIsPath(e: Export)
    ensures PathOf(e, Sequence(e))
  {
    assert [] + e.asSequence == e.asSequence && ([e.localAsn] + e.asSequence)[1..] == e.asSequence;
  }

  lemma HopIs(e: Export)
    ensures HopOf(e, IpBytes(e.nextHop))
  {
    if IsAddress(e.nextHop) { BeRoundTrip(e.nextHop.value, Octets(e.nextHop.v6)); }
  }

  lemma ReachHop(e: Export, nlri: seq<byte>)
    requires e.nextHop.v6
    ensures Reach(e, nlri)[3] == 16 && Reach(e, nlri)[4..20] == IpBytes(e.nextHop)
  {
  }

  lemma BodySays(e: Export, base: seq<byte>, ps: seq<Prefix>)
    requires forall p :: p in ps ==> Canonical(p)
    requires Attributes(e) == Ok(base) && Body(e, base, ps).Ok?
    ensures Heard.FieldsOfBody(Body(e, base, ps).value).Some?
    ensures SaysFields(e, Heard.FieldsOfBody(Body(e, base, ps).value).value)
  {
    hide Attributes, BaseAttrs, AttrsBytes, AttrBytes, FieldsFor, SaysFields, Update.SplitFields, Update.SplitRegions;
    BaseBytes(e);
    var nlri, body := Nlri(ps), Body(e, base, ps).value;
    if Legacy(e) {
      assert body == U16Bytes(0) + [] + U16Bytes(|base|) + base + nlri;
      Update.RegionsOf([], base, nlri);
      SplitAttrs(BaseAttrs(e));
      assert AllAttrs(e, nlri) == BaseAttrs(e);
    } else {
      var mp := Attr(0x80, 14, Reach(e, nlri));
      var all := base + AttrBytes(mp);
      assert body == U16Bytes(0) + [] + U16Bytes(|all|) + all + [];
      Update.RegionsOf([], all, []);
      AttrsSnoc(BaseAttrs(e), mp);
      SplitAttrs(BaseAttrs(e) + [mp]);
    }
    AttrsSay(e, nlri);
  }

  lemma BaseBytes(e: Export)
    requires Attributes(e).Ok?
    ensures (forall a :: a in BaseAttrs(e) ==> AttrFits(a)) && Attributes(e).value == AttrsBytes(BaseAttrs(e))
  {
    BaseFits(e);
  }

  function Checked(e: Export, base: seq<byte>, batch: seq<Prefix>): Result<seq<byte>, ProtocolError>
    requires forall p :: p in batch ==> Canonical(p)
  {
    var body :- Body(e, base, batch);
    match Update.Validate(body, e.fourOctetAsn)
    case Err(f) => Err(f.error)
    case Ok(_) => Encode(KUpdate, body)
  }

  /** A batch becomes a frame exactly when its body fits. */
  lemma CheckedOutcome(e: Export, base: seq<byte>, batch: seq<Prefix>)
    requires forall p :: p in batch ==> Canonical(p)
    requires Attributes(e) == Ok(base) && RightFamily(e.family, batch)
    requires BodySize(e, |base|, |Nlri(batch)|) <= U16_MAX
    ensures var size := BodySize(e, |base|, |Nlri(batch)|);
            && (size > MAX_BODY ==> Checked(e, base, batch) == Err(FramingError(2)))
            && (size <= MAX_BODY ==>
                  && Checked(e, base, batch).Ok?
                  && |Checked(e, base, batch).value| == HEADER_LENGTH + size
                  && Received(Checked(e, base, batch).value, e.fourOctetAsn) == Some(Announcing(e, batch))
                  && Says(e, Checked(e, base, batch).value))
  {
    BodySized(e, base, batch);
    var body := Body(e, base, batch).value;
    if |body| <= MAX_BODY {
      BodyValid(e, base, batch);
      BodySays(e, base, batch);
      EncodeDecode(KUpdate, body, []);
      assert Checked(e, base, batch).value + [] == Checked(e, base, batch).value;
    }
  }

  lemma SingleWithin(ps: seq<Prefix>, i: nat)
    requires forall p :: p in ps ==> Canonical(p)
    requires i < |ps|
    ensures |EncodePrefix(ps[i])| <= |Nlri(ps)|
  {
    NlriSplit(ps[..i], ps[i..]);
    assert ps[..i] + ps[i..] == ps;
  }

  lemma NlriSnoc(ps: seq<Prefix>, p: Prefix)
    requires Canonical(p) && forall q :: q in ps ==> Canonical(q)
    ensures Nlri(ps + [p]) == Nlri(ps) + EncodePrefix(p)
  {
    NlriSplit(ps, [p]);
    assert Nlri([p]) == EncodePrefix(p) + Nlri([]);
  }

  predicate SingleFits(e: Export, base: nat, p: Prefix)
    requires Canonical(p)
  {
    BodySize(e, base, |EncodePrefix(p)|) <= MAX_BODY
  }

  /** Why an announcement is refused, from the inputs alone. */
  ghost function AnnounceError(e: Export, ps: seq<Prefix>): Option<ProtocolError>
    requires forall p :: p in ps ==> Canonical(p)
  {
    match Attributes(e)
    case Err(err) => Some(err)
    case Ok(base) =>
      if BodySize(e, |base|, 0) > MAX_BODY then Some(FramingError(2))
      else if !RightFamily(e.family, ps) then Some(ExportError())
      else if exists i :: 0 <= i < |ps| && !SingleFits(e, |base|, ps[i]) then Some(FramingError(2))
      else None
  }

  ghost predicate NoRoomFor(e: Export, base: nat, batch: seq<Prefix>, p: Prefix)
  {
    && (forall q :: q in batch ==> Canonical(q)) && Canonical(p)
    && BodySize(e, base, |Nlri(batch)| + |EncodePrefix(p)|) > MAX_BODY
  }

  /** Each batch was full: the first prefix of the next would not have fitted. */
  ghost predicate Greedy(e: Export, base: nat, batches: seq<seq<Prefix>>)
  {
    forall i :: 0 < i < |batches| ==> batches[i] != [] && NoRoomFor(e, base, batches[i - 1], batches[i][0])
  }

  /** The state of the splitting loop: the batches sent so far, the one in hand. */
  ghost predicate Splitting(e: Export, base: nat, done: seq<Prefix>, sent: seq<seq<Prefix>>, batch: seq<Prefix>)
  {
    && (forall p :: p in done ==> Canonical(p)) && (forall p :: p in batch ==> Canonical(p))
    && Concat(sent) + batch == done
    && (forall k :: 0 <= k < |done| - |batch| ==> SingleFits(e, base, done[k]))
    && (|batch| != 1 ==> BodySize(e, base, |Nlri(batch)|) <= MAX_BODY)
    && (batch == [] ==> sent == [] && done == [])
    && Greedy(e, base, sent + [batch])
  }

  /** The frames out so far carry exactly the batches sent. */
  ghost predicate Carries(e: Export, output: seq<seq<byte>>, sent: seq<seq<Prefix>>)
  {
    && |output| == |sent|
    && forall i :: 0 <= i < |output| ==> CarriesOne(e, output[i], sent[i])
  }

  ghost predicate CarriesOne(e: Export, frame: seq<byte>, batch: seq<Prefix>)
  {
    && |frame| <= MAX_MESSAGE_LENGTH && Received(frame, e.fourOctetAsn) == Some(Announcing(e, batch))
    && Says(e, frame)
  }

  lemma CarriesTold(e: Export, output: seq<seq<byte>>, sent: seq<seq<Prefix>>)
    requires Carries(e, output, sent)
    ensures AllReceived(output, e.fourOctetAsn) && ToldBy(output, e.fourOctetAsn) == sent
    ensures forall f :: f in output ==> Says(e, f)
  {
    hide Says, Received;
    forall i | 0 <= i < |output|
      ensures |output[i]| <= MAX_MESSAGE_LENGTH && Received(output[i], e.fourOctetAsn).Some?
      ensures Told(Received(output[i], e.fourOctetAsn).value) == sent[i]
    {
      assert CarriesOne(e, output[i], sent[i]);
      assert Told(Announcing(e, sent[i])) == sent[i];
    }
  }

  lemma BatchBound(e: Export, base: seq<byte>, batch: seq<Prefix>)
    requires forall p :: p in batch ==> Canonical(p)
    requires BodySize(e, |base|, 0) <= MAX_BODY
    requires |batch| != 1 ==> BodySize(e, |base|, |Nlri(batch)|) <= MAX_BODY
    ensures BodySize(e, |base|, |Nlri(batch)| + 17) <= U16_MAX
    ensures BodySize(e, |base|, |Nlri(batch)|) <= U16_MAX
  {
    if |batch| == 1 {
      assert Nlri(batch) == EncodePrefix(batch[0]) + Nlri(batch[1..]);
    }
  }

  /** The new prefix still fits the batch. */
  lemma Keep(e: Export, base: nat, done: seq<Prefix>, sent: seq<seq<Prefix>>, batch: seq<Prefix>, p: Prefix)
    requires Splitting(e, base, done, sent, batch) && Canonical(p)
    requires BodySize(e, base, |Nlri(batch)| + |EncodePrefix(p)|) <= MAX_BODY
    ensures Splitting(e, base, done + [p], sent, batch + [p])
  {
    NlriSnoc(batch, p);
    assert Concat(sent) + (batch + [p]) == (Concat(sent) + batch) + [p];
    GreedyGrow(e, base, sent, batch, p);
    forall k | 0 <= k < |done + [p]| - |batch + [p]| ensures SingleFits(e, base, (done + [p])[k]) {
      assert (done + [p])[k] == done[k];
    }
  }

  lemma GreedyGrow(e: Export, base: nat, sent: seq<seq<Prefix>>, batch: seq<Prefix>, p: Prefix)
    requires Greedy(e, base, sent + [batch])
    ensures Greedy(e, base, sent + [batch + [p]])
  {
    var a, b := sent + [batch], sent + [batch + [p]];
    forall i | 0 < i < |b| ensures b[i] != [] && NoRoomFor(e, base, b[i - 1], b[i][0]) {
      assert a[i] != [] && NoRoomFor(e, base, a[i - 1], a[i][0]);
    }
  }

  /** When the batch goes out, everything so far fits some frame. */
  lemma Sent(e: Export, base: nat, done: seq<Prefix>, sent: seq<seq<Prefix>>, batch: seq<Prefix>)
    requires Splitting(e, base, done, sent, batch)
    requires BodySize(e, base, |Nlri(batch)|) <= MAX_BODY
    ensures Concat(sent + [batch]) == done
    ensures forall k :: 0 <= k < |done| ==> SingleFits(e, base, done[k])
  {
    ConcatSnoc(sent, batch);
    forall k | 0 <= k < |done| ensures SingleFits(e, base, done[k]) {
      if k >= |done| - |batch| {
        SingleWithin(batch, k - (|done| - |batch|));
      }
    }
  }

  lemma SendAndStart(e: Export, base: nat, done: seq<Prefix>, sent: seq<seq<Prefix>>, batch: seq<Prefix>, p: Prefix)
    requires Splitting(e, base, done, sent, batch)
    requires BodySize(e, base, |Nlri(batch)|) <= MAX_BODY
    requires Canonical(p) && NoRoomFor(e, base, batch, p) && batch != []
    ensures Splitting(e, base, done + [p], sent + [batch], [p])
  {
    Sent(e, base, done, sent, batch);
    var a := sent + [batch];
    var b := a + [[p]];
    forall i | 0 < i < |b| ensures b[i] != [] && NoRoomFor(e, base, b[i - 1], b[i][0]) {
      if i < |a| {
        assert a[i] != [] && NoRoomFor(e, base, a[i - 1], a[i][0]);
      }
    }
  }

  /** Announcements succeed exactly when the export is well formed, every prefix
      is of its family and each one fits a frame by itself. Then every frame is
      at most 4096 bytes, decodes and validates, the frames announce the input
      in order with nothing lost or added, no frame is split early, and each one
      carries the export's AS path, origin, next hop and local preference. */
  method Announcements(e: Export, prefixes: seq<Prefix>) returns (r: Result<seq<seq<byte>>, ProtocolError>)
    requires forall p :: p in prefixes ==> Canonical(p)
    ensures AnnounceError(e, prefixes).Some? ==> r == Err(AnnounceError(e, prefixes).value)
    ensures AnnounceError(e, prefixes).None? ==>
              && r.Ok? && AllReceived(r.value, e.fourOctetAsn)
              && Concat(ToldBy(r.value, e.fourOctetAsn)) == prefixes
              && Greedy(e, |Attributes(e).value|, ToldBy(r.value, e.fourOctetAsn))
              && forall frame :: frame in r.value ==> Says(e, frame)
  {
    hide Says, Attributes, CarriesOne, Received, Nlri, EncodePrefix, Canonical, NoRoomFor, AttrsBytes, Told, Body;
    var attributes := Attributes(e);
    if attributes.Err? { return Err(attributes.error); }
    var base := attributes.value;
    EmptyBody(e, base);
    if |Body(e, base, []).value| > MAX_BODY { return Err(FramingError(2)); }
    if !RightFamily(e.family, prefixes) { return Err(ExportError()); }
    ghost var sent;
    r, sent := Split(e, base, prefixes);
    if r.Ok? { CarriesTold(e, r.value, sent); }
  }

  lemma EmptyBody(e: Export, base: seq<byte>)
    requires Attributes(e) == Ok(base)
    ensures Body(e, base, []).Ok? && |Body(e, base, []).value| == BodySize(e, |base|, 0)
  {
    BaseFits(e);
    hide AttrsBytes, BaseAttrs;
    BodySized(e, base, []);
  }

  method Split(e: Export, base: seq<byte>, prefixes: seq<Prefix>)
    returns (r: Result<seq<seq<byte>>, ProtocolError>, ghost sent: seq<seq<Prefix>>)
    requires Attributes(e) == Ok(base) && BodySize(e, |base|, 0) <= MAX_BODY
    requires forall p :: p in prefixes ==> Canonical(p)
    requires RightFamily(e.family, prefixes)
    ensures r.Err? ==> r.error == FramingError(2)
    ensures r.Err? ==> exists k :: 0 <= k < |prefixes| && !SingleFits(e, |base|, prefixes[k])
    ensures r.Ok? ==> Carries(e, r.value, sent) && Concat(sent) == prefixes && Greedy(e, |base|, sent)
    ensures r.Ok? ==> forall k :: 0 <= k < |prefixes| ==> SingleFits(e, |base|, prefixes[k])
  {
    hide Attributes, CarriesOne, Splitting, Greedy;
    var output, batch, i := [], [], 0;
    sent := [];
    SplittingStart(e, |base|);
    while i < |prefixes|
      invariant 0 <= i <= |prefixes|
      invariant Splitting(e, |base|, prefixes[..i], sent, batch)
      invariant Carries(e, output, sent)
    {
      var frame;
      frame, batch, sent := Push(e, base, prefixes, i, batch, sent);
      match frame {
        case None =>
        case Some(Ok(f)) => output := output + [f];
        case Some(Err(error)) => return Err(error), sent;
      }
      i := i + 1;
    }
    assert prefixes[..i] == prefixes;
    if batch != [] {
      var last := Flush(e, base, prefixes, batch, sent);
      if last.Err? { return Err(last.error), sent; }
      output, sent := output + [last.value], sent + [batch];
    } else {
      SplittingNone(e, |base|, prefixes, sent);
    }
    r := Ok(output);
  }

  lemma SplittingStart(e: Export, base: nat)
    requires BodySize(e, base, 0) <= MAX_BODY
    ensures Splitting(e, base, [], [], [])
  {
  }

  lemma SplittingNone(e: Export, base: nat, done: seq<Prefix>, sent: seq<seq<Prefix>>)
    requires Splitting(e, base, done, sent, [])
    ensures done == [] && sent == [] && Greedy(e, base, sent)
  {
  }

  /** The batch left over after the last prefix. */
  method Flush(e: Export, base: seq<byte>, prefixes: seq<Prefix>, batch: seq<Prefix>, ghost sent: seq<seq<Prefix>>)
    returns (r: Result<seq<byte>, ProtocolError>)
    requires Attributes(e) == Ok(base) && BodySize(e, |base|, 0) <= MAX_BODY
    requires RightFamily(e.family, prefixes) && batch != []
    requires Splitting(e, |base|, prefixes, sent, batch)
    ensures r.Err? ==> r.error == FramingError(2)
    ensures r.Err? ==> exists k :: 0 <= k < |prefixes| && !SingleFits(e, |base|, prefixes[k])
    ensures r.Ok? ==> CarriesOne(e, r.value, batch) && Concat(sent + [batch]) == prefixes
    ensures r.Ok? ==> Greedy(e, |base|, sent + [batch])
    ensures r.Ok? ==> forall k :: 0 <= k < |prefixes| ==> SingleFits(e, |base|, prefixes[k])
  {
    assert prefixes[..|prefixes|] == prefixes;
    BatchIs(prefixes, |prefixes|, sent, batch);
    r := CheckBatch(e, base, batch);
    if r.Err? {
      assert !SingleFits(e, |base|, prefixes[|prefixes| - 1]);
    } else {
      Sent(e, |base|, prefixes, sent, batch);
    }
  }

  /** One turn of the loop: the prefix joins the batch, or the batch goes out as
      a frame and the prefix starts the next one. */
  method Push(e: Export, base: seq<byte>, prefixes: seq<Prefix>, i: nat, batch: seq<Prefix>,
              ghost sent: seq<seq<Prefix>>)
    returns (frame: Option<Result<seq<byte>, ProtocolError>>, batch': seq<Prefix>, ghost sent': seq<seq<Prefix>>)
    requires Attributes(e) == Ok(base) && BodySize(e, |base|, 0) <= MAX_BODY
    requires i < |prefixes| && Canonical(prefixes[i]) && RightFamily(e.family, prefixes[..i])
    requires Splitting(e, |base|, prefixes[..i], sent, batch)
    ensures frame.Some? && frame.value.Err? ==>
              && frame.value.error == FramingError(2)
              && exists k :: 0 <= k <= i && Canonical(prefixes[k]) && !SingleFits(e, |base|, prefixes[k])
    ensures !(frame.Some? && frame.value.Err?) ==> Splitting(e, |base|, prefixes[..i + 1], sent', batch')
    ensures frame.None? ==> sent' == sent
    ensures frame.Some? && frame.value.Ok? ==> CarriesOne(e, frame.value.value, batch) && sent' == sent + [batch]
  {
    var prefix := prefixes[i];
    TakeNext(prefixes, i);
    var fits := FitsBody(e, base, batch, prefix);
    if fits {
      Keep(e, |base|, prefixes[..i], sent, batch, prefix);
      frame, batch', sent' := None, batch + [prefix], sent;
    } else if batch == [] {
      assert !SingleFits(e, |base|, prefixes[i]);
      frame, batch', sent' := Some(Err(FramingError(2))), batch, sent;
    } else {
      var checked := SendFull(e, base, prefixes[..i], batch, sent, prefix);
      frame, batch', sent' := Some(checked), [prefix], sent + [batch];
    }
  }

  method SendFull(e: Export, base: seq<byte>, done: seq<Prefix>, batch: seq<Prefix>, ghost sent: seq<seq<Prefix>>,
                  prefix: Prefix)
    returns (r: Result<seq<byte>, ProtocolError>)
    requires Attributes(e) == Ok(base) && BodySize(e, |base|, 0) <= MAX_BODY
    requires RightFamily(e.family, done) && Splitting(e, |base|, done, sent, batch)
    requires batch != [] && Canonical(prefix) && NoRoomFor(e, |base|, batch, prefix)
    ensures r.Err? ==> r.error == FramingError(2) && exists k :: 0 <= k < |done| && !SingleFits(e, |base|, done[k])
    ensures r.Ok? ==> CarriesOne(e, r.value, batch) && Splitting(e, |base|, done + [prefix], sent + [batch], [prefix])
  {
    assert done[..|done|] == done;
    BatchIs(done, |done|, sent, batch);
    r := CheckBatch(e, base, batch);
    if r.Err? {
      assert !SingleFits(e, |base|, done[|done| - 1]);
    } else {
      SendAndStart(e, |base|, done, sent, batch, prefix);
    }
  }

  lemma BatchIs(prefixes: seq<Prefix>, i: nat, sent: seq<seq<Prefix>>, batch: seq<Prefix>)
    requires i <= |prefixes| && Concat(sent) + batch == prefixes[..i]
    ensures |batch| <= i && batch == prefixes[i - |batch|..i]
  {
    var told := Concat(sent);
    assert (told + batch)[|told|..] == batch;
    assert prefixes[..i][|told|..] == prefixes[|told|..i];
  }

  /** Whether the batch extended by the prefix still fits one body. */
  method FitsBody(e: Export, base: seq<byte>, batch: seq<Prefix>, prefix: Prefix) returns (fits: bool)
    requires Attributes(e) == Ok(base) && BodySize(e, |base|, 0) <= MAX_BODY
    requires Canonical(prefix) && forall p :: p in batch ==> Canonical(p)
    requires |batch| != 1 ==> BodySize(e, |base|, |Nlri(batch)|) <= MAX_BODY
    ensures fits <==> BodySize(e, |base|, |Nlri(batch)| + |EncodePrefix(prefix)|) <= MAX_BODY
  {
    hide Attributes, Nlri, EncodePrefix;
    NlriSnoc(batch, prefix);
    BatchBound(e, base, batch);
    BodySized(e, base, batch + [prefix]);
    fits := |Body(e, base, batch + [prefix]).value| <= MAX_BODY;
  }

  /** The batch's frame; it is refused only when it is one prefix that fits no frame. */
  method CheckBatch(e: Export, base: seq<byte>, batch: seq<Prefix>) returns (r: Result<seq<byte>, ProtocolError>)
    requires Attributes(e) == Ok(base) && BodySize(e, |base|, 0) <= MAX_BODY
    requires forall p :: p in batch ==> Canonical(p)
    requires RightFamily(e.family, batch)
    requires batch != [] && (|batch| != 1 ==> BodySize(e, |base|, |Nlri(batch)|) <= MAX_BODY)
    ensures r.Err? ==> r.error == FramingError(2) && |batch| == 1 && !SingleFits(e, |base|, batch[0])
    ensures r.Ok? ==> BodySize(e, |base|, |Nlri(batch)|) <= MAX_BODY && CarriesOne(e, r.value, batch)
  {
    BatchBound(e, base, batch);
    CheckedOutcome(e, base, batch);
    r := Checked(e, base, batch);
    if r.Err? {
      assert Nlri(batch) == EncodePrefix(batch[0]) + Nlri(batch[1..]);
    }
  }

  // ---------- withdrawals ----------

  const WITHDRAW_LIMIT := 4000

  function WithdrawAttr(family: Family, nlri: seq<byte>): Attr
  {
    Attr(0x80, 15, U16Bytes(family.afi) + [family.safi] + nlri)
  }

  function WithdrawBody(family: Family, nlri: seq<byte>): Result<seq<byte>, ProtocolError>
  {
    if family == IPV4 then
      if |nlri| > U16_MAX then Err(ExportError()) else Ok(U16Bytes(|nlri|) + nlri + [0, 0])
    else
      var a := WithdrawAttr(family, nlri);
      if !AttrFits(a) || |AttrBytes(a)| > U16_MAX then Err(ExportError())
      else Ok([0, 0] + U16Bytes(|AttrBytes(a)|) + AttrBytes(a))
  }

  function WithdrawFrame(family: Family, nlri: seq<byte>): Result<seq<byte>, ProtocolError>
  {
    var body :- WithdrawBody(family, nlri);
    match Update.Validate(body, true)
    case Err(f) => Err(f.error)
    case Ok(_) => Encode(KUpdate, body)
  }

  function Withdrawing(family: Family, ps: seq<Prefix>): Summary
  {
    if family == IPV4 then Update.Summary(ps, [], [], [], []) else Multi(15, ps)
  }

  lemma WithdrawBodyV4(ps: seq<Prefix>, four: bool)
    requires forall p :: p in ps ==> Canonical(p)
    requires RightFamily(IPV4, ps) && |Nlri(ps)| <= WITHDRAW_LIMIT
    ensures Update.Validate(U16Bytes(|Nlri(ps)|) + Nlri(ps) + [0, 0], four) == Ok(Withdrawing(IPV4, ps))
  {
    var nlri := Nlri(ps);
    var body := U16Bytes(|nlri|) + nlri + [0, 0];
    assert body == U16Bytes(|nlri|) + nlri + U16Bytes(0) + [] + [];
    ReadNlri(ps, false);
    Update.PartsValidate(body, Update.Regions(nlri, [], []), [], ps, [], four, Withdrawing(IPV4, ps), {});
  }

  lemma WithdrawReads(family: Family, ps: seq<Prefix>)
    requires forall p :: p in ps ==> Canonical(p)
    requires FamilyValid(family) && family != IPV4 && RightFamily(family, ps)
    ensures Update.Multiprotocol(WithdrawAttr(family, Nlri(ps)).value, false) == Ok(ps)
  {
    var value := WithdrawAttr(family, Nlri(ps)).value;
    assert value[..2] == U16Bytes(family.afi);
    U16RoundTrip(family.afi);
    assert value[3..] == Nlri(ps);
    ReadNlri(ps, true);
  }

  lemma WithdrawBodyV6(family: Family, ps: seq<Prefix>, four: bool)
    requires forall p :: p in ps ==> Canonical(p)
    requires FamilyValid(family) && family != IPV4 && RightFamily(family, ps) && |Nlri(ps)| <= WITHDRAW_LIMIT
    ensures var bytes := AttrBytes(WithdrawAttr(family, Nlri(ps)));
            Update.Validate([0, 0] + U16Bytes(|bytes|) + bytes, four) == Ok(Withdrawing(family, ps))
  {
    var a := WithdrawAttr(family, Nlri(ps));
    WithdrawReads(family, ps);
    assert AttrsBytes([]) + AttrBytes(a) == AttrBytes(a);
    MultiBodyValid([], a, ps, four, AttrBytes(a));
  }

  ghost predicate WithdrawsOne(family: Family, frame: seq<byte>, batch: seq<Prefix>)
  {
    && |frame| <= MAX_MESSAGE_LENGTH
    && forall four :: Received(frame, four) == Some(Withdrawing(family, batch))
  }

  /** A batch within the limit always makes a frame that withdraws exactly it. */
  lemma WithdrawOk(family: Family, ps: seq<Prefix>)
    requires forall p :: p in ps ==> Canonical(p)
    requires FamilyValid(family) && RightFamily(family, ps) && |Nlri(ps)| <= WITHDRAW_LIMIT
    ensures WithdrawFrame(family, Nlri(ps)).Ok?
    ensures WithdrawsOne(family, WithdrawFrame(family, Nlri(ps)).value, ps)
  {
    hide Update.Validate, Nlri;
    var body := WithdrawBody(family, Nlri(ps)).value;
    forall four ensures |body| <= MAX_BODY && Update.Validate(body, four) == Ok(Withdrawing(family, ps)) {
      if family == IPV4 { WithdrawBodyV4(ps, four); } else { WithdrawBodyV6(family, ps, four); }
    }
    EncodeDecode(KUpdate, body, []);
    assert Encode(KUpdate, body).value + [] == Encode(KUpdate, body).value;
  }

  /** No batch was sent while the next prefix still had room. */
  ghost predicate WithdrawGreedy(batches: seq<seq<Prefix>>)
  {
    forall i :: 0 < i < |batches| ==> batches[i] != [] && OverLimit(batches[i - 1], batches[i][0])
  }

  ghost predicate OverLimit(batch: seq<Prefix>, p: Prefix)
  {
    && (forall q :: q in batch ==> Canonical(q)) && Canonical(p)
    && |Nlri(batch)| + |EncodePrefix(p)| > WITHDRAW_LIMIT
  }

  ghost predicate WithdrawsAll(family: Family, frames: seq<seq<byte>>, sent: seq<seq<Prefix>>)
  {
    && |frames| == |sent|
    && forall i :: 0 <= i < |frames| ==> WithdrawsOne(family, frames[i], sent[i])
  }

  lemma WithdrawsUntold(family: Family, frames: seq<seq<byte>>, sent: seq<seq<Prefix>>, four: bool)
    requires WithdrawsAll(family, frames, sent)
    ensures AllReceived(frames, four) && UntoldBy(frames, four) == sent
  {
    hide Received;
    forall i | 0 <= i < |frames|
      ensures |frames[i]| <= MAX_MESSAGE_LENGTH && Received(frames[i], four).Some?
      ensures Untold(Received(frames[i], four).value) == sent[i]
    {
      assert WithdrawsOne(family, frames[i], sent[i]);
      assert Untold(Withdrawing(family, sent[i])) == sent[i];
    }
  }

  ghost predicate WithdrawLoop(done: seq<Prefix>, sent: seq<seq<Prefix>>, batch: seq<Prefix>, nlri: seq<byte>)
  {
    && (forall p :: p in batch ==> Canonical(p))
    && Concat(sent) + batch == done
    && nlri == Nlri(batch) && |nlri| <= WITHDRAW_LIMIT
    && (batch == [] ==> sent == [])
    && WithdrawGreedy(sent + [batch])
  }

  lemma WithdrawKeep(done: seq<Prefix>, sent: seq<seq<Prefix>>, batch: seq<Prefix>, nlri: seq<byte>, p: Prefix)
    requires WithdrawLoop(done, sent, batch, nlri) && Canonical(p)
    requires |nlri| + |EncodePrefix(p)| <= WITHDRAW_LIMIT
    ensures WithdrawLoop(done + [p], sent, batch + [p], nlri + EncodePrefix(p))
  {
    NlriSnoc(batch, p);
    assert Concat(sent) + (batch + [p]) == (Concat(sent) + batch) + [p];
    var a, b := sent + [batch], sent + [batch + [p]];
    forall i | 0 < i < |b| ensures b[i] != [] && OverLimit(b[i - 1], b[i][0]) {
      assert a[i] != [] && OverLimit(a[i - 1], a[i][0]);
    }
  }

  lemma WithdrawNext(done: seq<Prefix>, sent: seq<seq<Prefix>>, batch: seq<Prefix>, nlri: seq<byte>, p: Prefix)
    requires WithdrawLoop(done, sent, batch, nlri) && Canonical(p)
    requires |nlri| + |EncodePrefix(p)| > WITHDRAW_LIMIT
    ensures WithdrawLoop(done + [p], sent + [batch], [p], EncodePrefix(p))
  {
    NlriSnoc([], p);
    assert [] + [p] == [p];
    ConcatSnoc(sent, batch);
    var a := sent + [batch];
    var b := a + [[p]];
    forall i | 0 < i < |b| ensures b[i] != [] && OverLimit(b[i - 1], b[i][0]) {
      if i < |a| {
        assert a[i] != [] && OverLimit(a[i - 1], a[i][0]);
      }
    }
  }

  lemma WithdrawsSnoc(family: Family, frames: seq<seq<byte>>, sent: seq<seq<Prefix>>, frame: seq<byte>,
                      batch: seq<Prefix>)
    requires WithdrawsAll(family, frames, sent) && WithdrawsOne(family, frame, batch)
    ensures WithdrawsAll(family, frames + [frame], sent + [batch])
  {
  }

  method WithdrawSend(family: Family, nlri: seq<byte>, ghost batch: seq<Prefix>) returns (frame: seq<byte>)
    requires forall p :: p in batch ==> Canonical(p)
    requires FamilyValid(family) && RightFamily(family, batch) && nlri == Nlri(batch) && |nlri| <= WITHDRAW_LIMIT
    ensures WithdrawFrame(family, nlri) == Ok(frame) && WithdrawsOne(family, frame, batch)
  {
    WithdrawOk(family, batch);
    frame := WithdrawFrame(family, nlri).value;
  }

  method WithdrawStep(family: Family, ghost done: seq<Prefix>, prefix: Prefix,
                      out: seq<seq<byte>>, nlri: seq<byte>, ghost sent: seq<seq<Prefix>>, ghost batch: seq<Prefix>)
    returns (out': seq<seq<byte>>, nlri': seq<byte>, ghost sent': seq<seq<Prefix>>, ghost batch': seq<Prefix>)
    requires FamilyValid(family) && Canonical(prefix) && prefix.v6 == (family != IPV4)
    requires WithdrawLoop(done, sent, batch, nlri) && RightFamily(family, batch)
    requires WithdrawsAll(family, out, sent)
    ensures WithdrawLoop(done + [prefix], sent', batch', nlri') && RightFamily(family, batch')
    ensures WithdrawsAll(family, out', sent')
  {
    var encoded := EncodePrefix(prefix);
    if |nlri| + |encoded| > WITHDRAW_LIMIT {
      var frame := WithdrawSend(family, nlri, batch);
      WithdrawsSnoc(family, out, sent, frame, batch);
      WithdrawNext(done, sent, batch, nlri, prefix);
      out', sent', batch', nlri' := out + [frame], sent + [batch], [prefix], encoded;
    } else {
      WithdrawKeep(done, sent, batch, nlri, prefix);
      out', sent', batch', nlri' := out, sent, batch + [prefix], nlri + encoded;
    }
  }

  method WithdrawSplit(family: Family, prefixes: seq<Prefix>)
    returns (r: Result<seq<seq<byte>>, ProtocolError>, ghost sent: seq<seq<Prefix>>)
    requires FamilyValid(family) && forall p :: p in prefixes ==> Canonical(p)
    ensures r.Ok? <==> RightFamily(family, prefixes)
    ensures r.Err? ==> r.error == ExportError()
    ensures r.Ok? ==> WithdrawsAll(family, r.value, sent) && Concat(sent) == prefixes && WithdrawGreedy(sent)
  {
    hide WithdrawsOne;
    var out, nlri, i := [], [], 0;
    ghost var batch := [];
    sent := [];
    while i < |prefixes|
      invariant 0 <= i <= |prefixes| && RightFamily(family, prefixes[..i])
      invariant WithdrawLoop(prefixes[..i], sent, batch, nlri) && RightFamily(family, batch)
      invariant WithdrawsAll(family, out, sent)
    {
      TakeNext(prefixes, i);
      if prefixes[i].v6 != (family != IPV4) { return Err(ExportError()), sent; }
      out, nlri, sent, batch := WithdrawStep(family, prefixes[..i], prefixes[i], out, nlri, sent, batch);
      i := i + 1;
    }
    assert prefixes[..i] == prefixes;
    if nlri != [] {
      var frame := WithdrawSend(family, nlri, batch);
      WithdrawsSnoc(family, out, sent, frame, batch);
      ConcatSnoc(sent, batch);
      out, sent := out + [frame], sent + [batch];
    }
    r := Ok(out);
  }

  /** Withdrawals succeed for every list of the right family, however long, and
      the frames withdraw exactly that list in order, from receivers with
      two-octet and with four-octet AS numbers alike. */
  method Withdrawals(family: Family, prefixes: seq<Prefix>) returns (r: Result<seq<seq<byte>>, ProtocolError>)
    requires forall p :: p in prefixes ==> Canonical(p)
    ensures r.Ok? <==> FamilyValid(family) && RightFamily(family, prefixes)
    ensures r.Err? ==> r.error == (if FamilyValid(family) then ExportError() else FamilyError())
    ensures r.Ok? ==>
              forall four ::
                && AllReceived(r.value, four)
                && Concat(UntoldBy(r.value, four)) == prefixes
                && WithdrawGreedy(UntoldBy(r.value, four))
  {
    if !FamilyValid(family) { return Err(FamilyError()); }
    ghost var sent;
    r, sent := WithdrawSplit(family, prefixes);
    if r.Ok? {
      forall four ensures AllReceived(r.value, four) && UntoldBy(r.value, four) == sent {
        WithdrawsUntold(family, r.value, sent, four);
      }
    }
  }
}
