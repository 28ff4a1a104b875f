/** Which UPDATE bodies are in order, written as a grammar (sections 4.3, 5 and 6.3
    of RFC 4271, RFC 4760 for the multiprotocol attributes, RFC 6793 for four-octet
    AS numbers, RFC 1997 and RFC 8092 for communities), and that validation accepts
    exactly those and explains every refusal
    (crates/flowsdn-bgp-proto/src/update.rs:134-319). */
module UpdateGrammar {
  import opened Bytes
  import opened Framing
  import opened Prefixes
  import opened Update

  // ---------- AS paths ----------

  /** A path segment: set or sequence, how many numbers, the numbers. */
  predicate IsSegment(segment: seq<byte>, width: nat)
  {
    |segment| >= 2 && segment[0] in {1, 2} && segment[1] >= 1 && |segment| - 2 == segment[1] as int * width
  }

  ghost predicate IsPath(value: seq<byte>, width: nat)
  {
    exists segments: seq<seq<byte>> :: Concat(segments) == value && AllSegments(segments, width)
  }

  ghost predicate AllSegments(segments: seq<seq<byte>>, width: nat)
  {
    forall segment :: segment in segments ==> IsSegment(segment, width)
  }

  lemma FirstSegment(value: seq<byte>, width: nat) returns (end: nat)
    requires AsPathOk(value, width) && value != []
    ensures 0 < end <= |value| && IsSegment(value[..end], width) && AsPathOk(value[end..], width)
  {
    end := SegmentSize(value[1], width);
  }

  lemma {:induction false} PathIs(value: seq<byte>, width: nat)
    requires AsPathOk(value, width)
    ensures IsPath(value, width)
    decreases |value|
  {
    hide IsSegment, AsPathOk;
    if value == [] {
      var none: seq<seq<byte>> := [];
      assert Concat(none) == [] && AllSegments(none, width);
    } else {
      var end := FirstSegment(value, width);
      PathIs(value[end..], width);
      var rest: seq<seq<byte>> :| Concat(rest) == value[end..] && AllSegments(rest, width);
      var all := [value[..end]] + rest;
      assert all[1..] == rest && Concat(all) == value;
      assert AllSegments(all, width);
    }
  }

  lemma {:induction false} SegmentsPass(segments: seq<seq<byte>>, width: nat)
    requires AllSegments(segments, width)
    ensures AsPathOk(Concat(segments), width)
  {
    if segments != [] {
      assert IsSegment(segments[0], width);
      SegmentsPass(segments[1..], width);
      var value, end := Concat(segments), |segments[0]|;
      assert value[0] == segments[0][0] && value[1] == segments[0][1] && value[end..] == Concat(segments[1..]);
    }
  }

  lemma PathExactly(value: seq<byte>, width: nat)
    ensures AsPathOk(value, width) <==> IsPath(value, width)
  {
    if AsPathOk(value, width) { PathIs(value, width); }
    if IsPath(value, width) {
      var segments: seq<seq<byte>> :| Concat(segments) == value && AllSegments(segments, width);
      SegmentsPass(segments, width);
    }
  }

  // ---------- attributes ----------

  function OptionalBit(flags: byte): nat { flags as int / 128 }

  function TransitiveBit(flags: byte): nat { flags as int / 64 % 2 }

  function PartialBit(flags: byte): nat { flags as int / 32 % 2 }

  const WELL_KNOWN: set<byte> := {1, 2, 3, 5, 6}
  const NON_TRANSITIVE: set<byte> := {4, 14, 15}
  const TRANSITIVE: set<byte> := {7, 8, 17, 18, 32}

  predicate Known(code: byte) { code in WELL_KNOWN || code in NON_TRANSITIVE || code in TRANSITIVE }

  /** The flag bits each attribute must have: a well-known one is transitive, only
      an optional transitive one may be partial, an unknown one is optional. */
  predicate GoodFlags(code: byte, flags: byte)
  {
    && (code in WELL_KNOWN ==> OptionalBit(flags) == 0 && TransitiveBit(flags) == 1)
    && (code in NON_TRANSITIVE ==> OptionalBit(flags) == 1 && TransitiveBit(flags) == 0)
    && (code in TRANSITIVE ==> OptionalBit(flags) == 1 && TransitiveBit(flags) == 1)
    && (!Known(code) ==> OptionalBit(flags) == 1)
    && (PartialBit(flags) == 1 ==> OptionalBit(flags) == 1 && TransitiveBit(flags) == 1)
  }

  /** MP_REACH_NLRI: a unicast family, a next hop of a possible size for it, a
      reserved octet, prefixes. */
  ghost predicate Reaches(value: seq<byte>, ps: seq<Prefix>)
  {
    && |value| >= 5 && value[0] == 0 && value[1] in {1, 2} && value[2] == 1
    && (value[3] in {16, 32} || (value[3] == 4 && value[1] == 1))
    && |value| >= 5 + value[3] as int && Spells(value[5 + value[3] as int..], value[1] == 2, ps)
  }

  /** MP_UNREACH_NLRI: a unicast family and prefixes. */
  ghost predicate Unreaches(value: seq<byte>, ps: seq<Prefix>)
  {
    |value| >= 3 && value[0] == 0 && value[1] in {1, 2} && value[2] == 1 && Spells(value[3..], value[1] == 2, ps)
  }

  /** The values of the known attributes that carry no prefixes. */
  ghost predicate GoodValue(code: byte, value: seq<byte>, four: bool)
  {
    && (code == 1 ==> |value| == 1 && value[0] <= 2)
    && (code == 2 ==> IsPath(value, if four then 4 else 2))
    && (code == 17 ==> IsPath(value, 4))
    && (code == 3 ==> |value| == 4 && Hop(value))
    && (code in {4, 5} ==> |value| == 4)
    && (code == 6 ==> value == [])
    && (code == 7 ==> |value| == (if four then 4 else 2) + 4)
    && (code == 18 ==> |value| == 8)
    && (code == 8 ==> |value| % 4 == 0)
    && (code == 32 ==> |value| % 12 == 0)
  }

  /** An address that can be a next hop: not 0.0.0.0, not 224.0.0.0/4, not
      255.255.255.255. */
  predicate Hop(ip: seq<byte>)
    requires |ip| == 4
  {
    BeValue(ip) != 0 && BeValue(ip) / 0x10000000 != 14 && BeValue(ip) != U32_MAX
  }

  /** What one attribute adds to the summary. */
  ghost predicate Adds(f: Field, four: bool, before: Summary, after: Summary)
  {
    if f.code == 14 then Reaches(f.value, after.mpAnnounced) && after == before.(mpAnnounced := after.mpAnnounced)
    else if f.code == 15 then
      Unreaches(f.value, after.mpWithdrawn) && after == before.(mpWithdrawn := after.mpWithdrawn)
    else if Known(f.code) then GoodValue(f.code, f.value, four) && after == before
    else after == before.(unknownTransitive := before.unknownTransitive + Passed(f))
  }

  /** An unknown attribute to be passed on has the partial bit set. */
  function Passed(f: Field): seq<UnknownTransitive>
  {
    if TransitiveBit(f.flags) == 0 then []
    else [UnknownTransitive(if PartialBit(f.flags) == 1 then f.flags else f.flags + 32, f.code, f.value)]
  }

  lemma FlagBits(flags: byte)
    ensures Class(flags) == 128 * OptionalBit(flags) + 64 * TransitiveBit(flags)
    ensures Partial(flags) <==> PartialBit(flags) == 1
    ensures BitSet(flags, 0x40) <==> TransitiveBit(flags) == 1
    ensures flags >= 0x80 <==> OptionalBit(flags) == 1
    ensures OptionalBit(flags) <= 1 && TransitiveBit(flags) <= 1 && PartialBit(flags) <= 1
    ensures PartialBit(flags) == 0 ==> flags + 32 < 0x100
  {
  }

  lemma HopExactly(ip: seq<byte>)
    requires |ip| == 4
    ensures NextHopRefused(ip) <==> !Hop(ip)
  {
    var a: int, b: int, c: int, d: int := ip[0], ip[1], ip[2], ip[3];
    assert BeValue(ip) == ((a * 0x100 + b) * 0x100 + c) * 0x100 + d by {
      assert ip[..3][..2][..1] == [ip[0]] && ip[..3][..2] == [ip[0], ip[1]] && ip[..3] == [ip[0], ip[1], ip[2]];
      assert BeValue([ip[0]]) == a by { assert [ip[0]][..0] == []; }
      assert [ip[0], ip[1]][..1] == [ip[0]];
      assert BeValue([ip[0], ip[1]]) == a * 0x100 + b;
      assert [ip[0], ip[1], ip[2]][..2] == [ip[0], ip[1]];
    }
    var low := (b * 0x100 + c) * 0x100 + d;
    assert BeValue(ip) == a * 0x1000000 + low && 0 <= low < 0x1000000;
    DivModUnique(BeValue(ip), 0x10000000, a / 16, (a % 16) * 0x1000000 + low);
    assert ip == [ip[0], ip[1], ip[2], ip[3]];
  }

  lemma ReachesExactly(value: seq<byte>, ps: seq<Prefix>)
    ensures Multiprotocol(value, true) == Ok(ps) <==> Reaches(value, ps)
    ensures Multiprotocol(value, false) == Ok(ps) <==> Unreaches(value, ps)
  {
    hide ReadPrefixes, Spells;
    if |value| >= 3 {
      assert value[..2] == [value[0], value[1]];
      ReadExactly(value[3..], value[1] == 2, ps);
      if |value| >= 4 && |value| >= 5 + value[3] as int {
        assert 4 + value[3] as int + 1 == 5 + value[3] as int;
        ReadExactly(value[5 + value[3] as int..], value[1] == 2, ps);
      }
    }
  }

  lemma ValuesExactly(f: Field, four: bool)
    requires Known(f.code) && f.code !in {14, 15}
    ensures ValueError(f, four).None? <==> GoodValue(f.code, f.value, four)
  {
    hide AsPathOk, IsPath, Hop, NextHopRefused;
    PathExactly(f.value, if four then 4 else 2);
    PathExactly(f.value, 4);
    if |f.value| == 4 { HopExactly(f.value); }
  }

  lemma PrefixCodes()
    ensures Known(14) && Known(15)
  {
  }

  lemma FlagsExactly(code: byte, flags: byte)
    ensures Known(code) <==> ExpectedClass(code).Some?
    ensures GoodFlags(code, flags) <==>
            && !(Partial(flags) && Class(flags) != 0xc0)
            && match ExpectedClass(code)
               case None => flags >= 0x80
               case Some(expected) => Class(flags) == expected && !(Partial(flags) && expected != 0xc0)
  {
    hide OptionalBit, TransitiveBit, PartialBit, Class, Partial;
    FlagBits(flags);
  }

  /** One attribute passes exactly when it is new, flagged as its code demands and
      has a value its code allows. */
  lemma FieldExactly(f: Field, seen: set<byte>, before: Summary, four: bool, after: Summary)
    ensures CheckField(f, seen, before, four) == Ok(after) <==>
            f.code !in seen && GoodFlags(f.code, f.flags) && Adds(f, four, before, after)
  {
    hide ValueError, GoodValue, Multiprotocol, Reaches, Unreaches, GoodFlags, ExpectedClass, Known, Class, Partial;
    hide OptionalBit, TransitiveBit, PartialBit;
    FlagBits(f.flags);
    FlagsExactly(f.code, f.flags);
    PrefixCodes();
    if f.code == 14 {
      ReachesExactly(f.value, after.mpAnnounced);
    } else if f.code == 15 {
      ReachesExactly(f.value, after.mpWithdrawn);
    } else if Known(f.code) {
      ValuesExactly(f, four);
    } else {
      assert before.unknownTransitive + [] == before.unknownTransitive;
    }
  }

  // ---------- the whole body ----------

  predicate Once(fields: seq<Field>)
  {
    forall i, j :: 0 <= i < j < |fields| ==> fields[i].code != fields[j].code
  }

  ghost predicate Has(fields: seq<Field>, code: byte) { exists i :: 0 <= i < |fields| && fields[i].code == code }

  /** The attributes in order: each as its code demands, no code twice. */
  ghost predicate GoodFields(fields: seq<Field>, four: bool)
  {
    && Once(fields)
    && forall i :: 0 <= i < |fields| ==>
         GoodFlags(fields[i].code, fields[i].flags)
         && (Known(fields[i].code) && fields[i].code !in {14, 15} ==> GoodValue(fields[i].code, fields[i].value, four))
  }

  function PassedAll(fields: seq<Field>): seq<UnknownTransitive>
  {
    if fields == [] then []
    else (if Known(fields[0].code) then [] else Passed(fields[0])) + PassedAll(fields[1..])
  }

  /** What the attributes say of prefixes and unknown attributes. */
  ghost predicate Said(fields: seq<Field>, base: Summary, s: Summary)
  {
    && s.withdrawn == base.withdrawn && s.announced == base.announced
    && (forall i :: 0 <= i < |fields| && fields[i].code == 14 ==> Reaches(fields[i].value, s.mpAnnounced))
    && (!Has(fields, 14) ==> s.mpAnnounced == base.mpAnnounced)
    && (forall i :: 0 <= i < |fields| && fields[i].code == 15 ==> Unreaches(fields[i].value, s.mpWithdrawn))
    && (!Has(fields, 15) ==> s.mpWithdrawn == base.mpWithdrawn)
    && s.unknownTransitive == base.unknownTransitive + PassedAll(fields)
  }

  ghost predicate NoneSeen(fields: seq<Field>, seen: set<byte>)
  {
    forall i :: 0 <= i < |fields| ==> fields[i].code !in seen
  }

  lemma HasHead(fields: seq<Field>, code: byte)
    requires fields != []
    ensures Has(fields, code) <==> fields[0].code == code || Has(fields[1..], code)
  {
    if Has(fields, code) {
      var i :| 0 <= i < |fields| && fields[i].code == code;
      if i > 0 { assert fields[1..][i - 1].code == code; }
    }
    if Has(fields[1..], code) {
      var i :| 0 <= i < |fields[1..]| && fields[1..][i].code == code;
      assert fields[i + 1].code == code;
    }
  }

  lemma GoodHead(fields: seq<Field>, seen: set<byte>, four: bool)
    requires fields != []
    ensures GoodFields(fields, four) && NoneSeen(fields, seen) <==>
            && fields[0].code !in seen && GoodFlags(fields[0].code, fields[0].flags)
            && (Known(fields[0].code) && fields[0].code !in {14, 15} ==>
                  GoodValue(fields[0].code, fields[0].value, four))
            && GoodFields(fields[1..], four) && NoneSeen(fields[1..], seen + {fields[0].code})
  {
    hide GoodFlags, GoodValue;
    var rest := fields[1..];
    assert forall i :: 0 <= i < |rest| ==> rest[i] == fields[i + 1];
    assert forall i :: 1 <= i < |fields| ==> fields[i] == rest[i - 1];
  }

  /** Said by head and rest. */
  lemma SaidHead(fields: seq<Field>, four: bool, base: Summary, mid: Summary, s: Summary)
    requires fields != [] && Once(fields) && Adds(fields[0], four, base, mid)
    ensures Said(fields[1..], mid, s) ==> Said(fields, base, s)
  {
    hide Reaches, Unreaches, GoodValue;
    var rest := fields[1..];
    HasHead(fields, 14);
    HasHead(fields, 15);
    assert forall i :: 0 <= i < |rest| ==> rest[i] == fields[i + 1];
    assert forall i :: 1 <= i < |fields| ==> fields[i] == rest[i - 1];
    if Said(rest, mid, s) {
      assert base.unknownTransitive + ((if Known(fields[0].code) then [] else Passed(fields[0])) + PassedAll(rest))
             == s.unknownTransitive;
      assert fields[0].code == 14 ==> !Has(rest, 14) by { NotAgain(fields); }
      assert fields[0].code == 15 ==> !Has(rest, 15) by { NotAgain(fields); }
    }
  }

  lemma NotAgain(fields: seq<Field>)
    requires fields != [] && Once(fields)
    ensures !Has(fields[1..], fields[0].code)
  {
    assert forall i :: 0 <= i < |fields[1..]| ==> fields[1..][i] == fields[i + 1];
  }

  /** The summary after the first attribute, from the one after all. */
  lemma MidSummary(fields: seq<Field>, four: bool, base: Summary, s: Summary) returns (mid: Summary)
    requires fields != [] && GoodFields(fields, four) && Said(fields, base, s)
    ensures Adds(fields[0], four, base, mid) && Said(fields[1..], mid, s)
  {
    hide Reaches, Unreaches, GoodValue, GoodFlags;
    var f, rest := fields[0], fields[1..];
    HasHead(fields, 14);
    HasHead(fields, 15);
    NotAgain(fields);
    assert forall i :: 0 <= i < |rest| ==> rest[i] == fields[i + 1];
    if f.code == 14 {
      mid := base.(mpAnnounced := s.mpAnnounced);
    } else if f.code == 15 {
      mid := base.(mpWithdrawn := s.mpWithdrawn);
    } else if Known(f.code) {
      mid := base;
    } else {
      mid := base.(unknownTransitive := base.unknownTransitive + Passed(f));
    }
    assert s.unknownTransitive == mid.unknownTransitive + PassedAll(rest);
  }

  function CodesOf(fields: seq<Field>): set<byte>
  {
    if fields == [] then {} else {fields[0].code} + CodesOf(fields[1..])
  }

  lemma {:induction false} FieldsPass(fields: seq<Field>, seen: set<byte>, base: Summary, four: bool, s: Summary)
    requires GoodFields(fields, four) && NoneSeen(fields, seen) && Said(fields, base, s)
    ensures CheckFields(fields, seen, base, four) == Ok((s, seen + CodesOf(fields)))
  {
    hide CheckField, Adds, Said, GoodFields, NoneSeen, GoodFlags, GoodValue;
    if fields == [] {
      SaidNothing(base, s);
      assert seen + CodesOf(fields) == seen;
    } else {
      var mid := MidSummary(fields, four, base, s);
      GoodHead(fields, seen, four);
      FieldExactly(fields[0], seen, base, four, mid);
      FieldsPass(fields[1..], seen + {fields[0].code}, mid, four, s);
      assert seen + {fields[0].code} + CodesOf(fields[1..]) == seen + CodesOf(fields);
    }
  }

  lemma SaidNothing(base: Summary, s: Summary)
    ensures Said([], base, s) <==> s == base
  {
    assert base.unknownTransitive + [] == base.unknownTransitive;
    if Said([], base, s) { assert !Has([], 14) && !Has([], 15); }
  }

  lemma {:induction false} FieldsMean(fields: seq<Field>, seen: set<byte>, base: Summary, four: bool)
    requires CheckFields(fields, seen, base, four).Ok?
    ensures var (s, all) := CheckFields(fields, seen, base, four).value;
            GoodFields(fields, four) && NoneSeen(fields, seen) && Said(fields, base, s) && all == seen + CodesOf(fields)
  {
    hide CheckField, Adds, Said, GoodFields, NoneSeen, GoodFlags, GoodValue;
    if fields == [] {
      SaidNothing(base, base);
      NothingWrong(seen, four);
      assert seen + CodesOf(fields) == seen;
    } else {
      var mid := CheckField(fields[0], seen, base, four).value;
      FieldExactly(fields[0], seen, base, four, mid);
      FieldsMean(fields[1..], seen + {fields[0].code}, mid, four);
      AddsValue(fields[0], four, base, mid);
      GoodHead(fields, seen, four);
      OnceOf(fields, four);
      SaidHead(fields, four, base, mid, CheckFields(fields, seen, base, four).value.0);
      assert seen + {fields[0].code} + CodesOf(fields[1..]) == seen + CodesOf(fields);
    }
  }

  lemma NothingWrong(seen: set<byte>, four: bool)
    ensures GoodFields([], four) && NoneSeen([], seen)
  {
  }

  lemma AddsValue(f: Field, four: bool, before: Summary, after: Summary)
    requires Adds(f, four, before, after)
    ensures Known(f.code) && f.code !in {14, 15} ==> GoodValue(f.code, f.value, four)
  {
  }

  lemma OnceOf(fields: seq<Field>, four: bool)
    requires GoodFields(fields, four)
    ensures Once(fields)
  {
  }

  lemma {:induction false} CodesExactly(fields: seq<Field>, code: byte)
    ensures code in CodesOf(fields) <==> Has(fields, code)
  {
    if fields != [] {
      CodesExactly(fields[1..], code);
      HasHead(fields, code);
    }
  }

  /** The mandatory attributes are there: origin and path with any announcement, a
      next hop with prefixes announced outside the multiprotocol attribute. */
  ghost predicate Complete(fields: seq<Field>, s: Summary)
  {
    && (s.announced != [] || s.mpAnnounced != [] ==> Has(fields, 1) && Has(fields, 2))
    && (s.announced != [] ==> Has(fields, 3))
  }

  /** Withdrawn prefixes, attributes and announced prefixes that mean this summary. */
  ghost predicate Means(withdrawn: seq<byte>, raws: seq<seq<byte>>, nlri: seq<byte>, four: bool, s: Summary)
    requires forall raw :: raw in raws ==> OneAttribute(raw)
  {
    var fields := FieldsOf(raws);
    && Spells(withdrawn, false, s.withdrawn) && Spells(nlri, false, s.announced)
    && GoodFields(fields, four) && Complete(fields, s)
    && Said(fields, Summary(s.withdrawn, s.announced, [], [], []), s)
  }

  lemma ContentExactly(withdrawn: seq<byte>, fields: seq<Field>, nlri: seq<byte>, four: bool, s: Summary)
    ensures CheckContent(Regions(withdrawn, [], nlri), fields, four) == Ok(s) <==>
            && Spells(withdrawn, false, s.withdrawn) && Spells(nlri, false, s.announced)
            && GoodFields(fields, four) && Complete(fields, s)
            && Said(fields, Summary(s.withdrawn, s.announced, [], [], []), s)
  {
    hide ReadPrefixes, CheckFields, Spells, GoodFields, Said, Has, NoneSeen;
    ReadExactly(withdrawn, false, s.withdrawn);
    ReadExactly(nlri, false, s.announced);
    NoneSeenYet(fields);
    CodesExactly(fields, 1);
    CodesExactly(fields, 2);
    CodesExactly(fields, 3);
    var base := Summary(s.withdrawn, s.announced, [], [], []);
    assert {} + CodesOf(fields) == CodesOf(fields);
    if GoodFields(fields, four) && Said(fields, base, s) { FieldsPass(fields, {}, base, four, s); }
    var w, a := ReadPrefixes(withdrawn, false), ReadPrefixes(nlri, false);
    if w.Ok? && a.Ok? {
      var start := Summary(w.value, a.value, [], [], []);
      if CheckFields(fields, {}, start, four).Ok? {
        FieldsMean(fields, {}, start, four);
        SaidBase(fields, start, CheckFields(fields, {}, start, four).value.0);
      }
    }
  }

  lemma NoneSeenYet(fields: seq<Field>)
    ensures NoneSeen(fields, {})
  {
  }

  lemma SaidBase(fields: seq<Field>, base: Summary, s: Summary)
    requires Said(fields, base, s)
    ensures s.withdrawn == base.withdrawn && s.announced == base.announced
  {
  }

  lemma RegionsOnly(r: Regions, fields: seq<Field>, four: bool)
    ensures CheckContent(r, fields, four) == CheckContent(Regions(r.withdrawn, [], r.nlri), fields, four)
  {
  }

  /** A body is a withdrawn field, whole attributes and announced prefixes that mean
      this summary. */
  ghost predicate BodyMeans(body: seq<byte>, four: bool, s: Summary)
  {
    exists withdrawn: seq<byte>, raws: seq<seq<byte>>, nlri: seq<byte> ::
      StructuredAs(body, withdrawn, raws, nlri) && Means(withdrawn, raws, nlri, four, s)
  }

  /** Validation accepts exactly the bodies within the limit that the grammar gives
      a meaning to, and its summary is that meaning. */
  lemma ValidateExactly(body: seq<byte>, four: bool, s: Summary)
    ensures Validate(body, four) == Ok(s) <==> |body| <= MAX_BODY && BodyMeans(body, four, s)
  {
    hide SplitRegions, SplitFields, CheckContent, Means, Trim, OneAttribute;
    if |body| <= MAX_BODY {
      if Validate(body, four) == Ok(s) {
        var r := SplitRegions(body).value;
        var fields := SplitFields(r.attributes).value;
        var raws := Raws(fields);
        RegionsRebuild(body);
        SplitGivesAttributes(r.attributes);
        SplitConcat(raws);
        assert StructuredAs(body, r.withdrawn, raws, r.nlri);
        MeansContent(r, raws, four, s);
      }
      if BodyMeans(body, four, s) {
        var withdrawn: seq<byte>, raws: seq<seq<byte>>, nlri: seq<byte> :|
          StructuredAs(body, withdrawn, raws, nlri) && Means(withdrawn, raws, nlri, four, s);
        RegionsOf(withdrawn, Concat(raws), nlri);
        SplitConcat(raws);
        MeansContent(Regions(withdrawn, Concat(raws), nlri), raws, four, s);
      }
    }
  }

  lemma MeansContent(r: Regions, raws: seq<seq<byte>>, four: bool, s: Summary)
    requires forall raw :: raw in raws ==> OneAttribute(raw)
    ensures CheckContent(r, FieldsOf(raws), four) == Ok(s) <==> Means(r.withdrawn, raws, r.nlri, four, s)
  {
    hide CheckContent, Spells, GoodFields, Complete, Said, OneAttribute;
    RegionsOnly(r, FieldsOf(raws), four);
    ContentExactly(r.withdrawn, FieldsOf(raws), r.nlri, four, s);
  }

  // ---------- what a refusal says ----------

  /** A value of a size its code does not allow. */
  predicate WrongSize(code: byte, value: seq<byte>, four: bool)
  {
    match code
    case 1 => |value| != 1
    case 3 => |value| != 4
    case 4 => |value| != 4
    case 5 => |value| != 4
    case 6 => |value| != 0
    case 7 => |value| != (if four then 8 else 6)
    case 8 => |value| % 4 != 0
    case 18 => |value| != 8
    case 32 => |value| % 12 != 0
    case _ => false
  }

  /** Where the prefixes of a multiprotocol attribute start, if what comes before
      them is in order. */
  function PrefixStart(f: Field): Option<nat>
    requires f.code in {14, 15}
  {
    if |f.value| < 3 || f.value[0] != 0 || f.value[1] !in {1, 2} || f.value[2] != 1 then None
    else if f.code == 15 then Some(3)
    else if |f.value| < 4 || !(f.value[3] in {16, 32} || (f.value[3] == 4 && f.value[1] == 1)) then None
    else if |f.value| < 5 + f.value[3] as int then None
    else Some(5 + f.value[3] as int)
  }

  /** The bytes are no list of prefixes. */
  ghost predicate NoPrefixes(bytes: seq<byte>, v6: bool) { forall ps :: !Spells(bytes, v6, ps) }

  /** What is wrong with the attribute the refusal is about: 1 a code again, 2 an
      unknown attribute that claims to be well known, 4 flags, 5 a size, 6 an
      origin, 8 a next hop, 9 a multiprotocol family or next hop, 10 prefixes, 11 an
      AS path. */
  ghost predicate Wrong(f: Field, earlier: set<byte>, four: bool, subcode: byte)
  {
    if subcode == 1 then f.code in earlier
    else
      && f.code !in earlier
      && if subcode == 2 then !Known(f.code) && OptionalBit(f.flags) == 0 && PartialBit(f.flags) == 0
         else if subcode == 4 then !GoodFlags(f.code, f.flags) && (Known(f.code) || PartialBit(f.flags) == 1)
         else
           && GoodFlags(f.code, f.flags)
           && match subcode
              case 5 => WrongSize(f.code, f.value, four)
              case 6 => f.code == 1 && |f.value| == 1 && f.value[0] > 2
              case 8 => f.code == 3 && |f.value| == 4 && !Hop(f.value)
              case 9 => f.code in {14, 15} && PrefixStart(f).None?
              case 10 =>
                && f.code in {14, 15} && PrefixStart(f).Some?
                && NoPrefixes(f.value[PrefixStart(f).value..], f.value[1] == 2)
              case 11 => (f.code == 2 && !IsPath(f.value, if four then 4 else 2))
                         || (f.code == 17 && !IsPath(f.value, 4))
              case _ => false
  }

  lemma Unspelled(bytes: seq<byte>, v6: bool)
    requires ReadPrefixes(bytes, v6).Err?
    ensures ReadPrefixes(bytes, v6).error == UpdateError(10, false) && NoPrefixes(bytes, v6)
  {
    forall ps ensures !Spells(bytes, v6, ps) { ReadExactly(bytes, v6, ps); }
    ReadExactly(bytes, v6, []);
  }

  lemma MultiWrong(f: Field, four: bool)
    requires f.code in {14, 15} && Multiprotocol(f.value, f.code == 14).Err?
    ensures var e := Multiprotocol(f.value, f.code == 14).error;
            && e in {UpdateError(9, false), UpdateError(10, false)}
            && (e.subcode == 9 ==> PrefixStart(f).None?)
            && (e.subcode == 10 ==>
                  PrefixStart(f).Some? && NoPrefixes(f.value[PrefixStart(f).value..], f.value[1] == 2))
  {
    hide ReadPrefixes, NoPrefixes;
    if |f.value| >= 3 { assert f.value[..2] == [f.value[0], f.value[1]]; }
    if PrefixStart(f).Some? {
      if f.code == 14 { assert 4 + f.value[3] as int + 1 == 5 + f.value[3] as int; }
      Unspelled(f.value[PrefixStart(f).value..], f.value[1] == 2);
    }
  }

  lemma ValueWrong(f: Field, four: bool)
    requires Known(f.code) && f.code !in {14, 15} && ValueError(f, four).Some?
    ensures var subcode := ValueError(f, four).value;
            || (subcode == 5 && WrongSize(f.code, f.value, four))
            || (subcode == 6 && f.code == 1 && |f.value| == 1 && f.value[0] > 2)
            || (subcode == 8 && f.code == 3 && |f.value| == 4 && !Hop(f.value))
            || (subcode == 11 && ((f.code == 2 && !IsPath(f.value, if four then 4 else 2))
                                  || (f.code == 17 && !IsPath(f.value, 4))))
  {
    hide AsPathOk, IsPath, Hop, NextHopRefused;
    PathExactly(f.value, if four then 4 else 2);
    PathExactly(f.value, 4);
    if |f.value| == 4 { HopExactly(f.value); }
  }

  lemma FieldWrong(f: Field, seen: set<byte>, before: Summary, four: bool)
    requires CheckField(f, seen, before, four).Err?
    ensures var e := CheckField(f, seen, before, four).error;
            e == UpdateError(e.subcode, false) && Wrong(f, seen, four, e.subcode)
  {
    hide ValueError, WrongSize, Multiprotocol, GoodFlags, ExpectedClass, Known, Class,
      Partial, PrefixStart, NoPrefixes, Hop;
    hide OptionalBit, TransitiveBit, PartialBit, IsPath;
    FlagBits(f.flags);
    FlagsExactly(f.code, f.flags);
    PrefixCodes();
    if f.code !in seen && GoodFlags(f.code, f.flags) {
      if f.code in {14, 15} { MultiWrong(f, four); } else if Known(f.code) { ValueWrong(f, four); }
    }
  }

  /** The attributes before this one are in order, and it is wrong in the way the
      failure says. */
  ghost predicate BlamesField(fields: seq<Field>, i: nat, four: bool, failure: Failure)
  {
    && i < |fields| && GoodFields(fields[..i], four)
    && Wrong(fields[i], CodesOf(fields[..i]), four, failure.error.subcode)
    && failure == Failure(UpdateError(failure.error.subcode, false), fields[i].raw)
  }

  lemma {:induction false} FieldsWrong(done: seq<Field>, fields: seq<Field>, base: Summary, four: bool) returns (i: nat)
    requires GoodFields(done, four) && CheckFields(fields, CodesOf(done), base, four).Err?
    ensures BlamesField(done + fields, i, four, CheckFields(fields, CodesOf(done), base, four).error)
    decreases |fields|
  {
    hide CheckField, Wrong, GoodFlags, GoodValue, Adds, GoodFields, CodesOf;
    var f := fields[0];
    var all := done + fields;
    match CheckField(f, CodesOf(done), base, four)
    case Err(e) =>
      FieldWrong(f, CodesOf(done), base, four);
      i := |done|;
      assert all[..i] == done && all[i] == f;
      assert CheckFields(fields, CodesOf(done), base, four).error == Failure(e, f.raw);
    case Ok(next) =>
      FieldExactly(f, CodesOf(done), base, four, next);
      AddsValue(f, four, base, next);
      GoodSnoc(done, f, four);
      CodesSnoc(done, f);
      i := FieldsWrong(done + [f], fields[1..], next, four);
      assert done + [f] + fields[1..] == all;
  }

  lemma {:induction false} CodesSnoc(fields: seq<Field>, f: Field)
    ensures CodesOf(fields + [f]) == CodesOf(fields) + {f.code}
  {
    if fields == [] {
      assert fields + [f] == [f] && [f][1..] == [];
    } else {
      CodesSnoc(fields[1..], f);
      assert (fields + [f])[1..] == fields[1..] + [f];
    }
  }

  lemma GoodSnoc(fields: seq<Field>, f: Field, four: bool)
    requires GoodFields(fields, four) && f.code !in CodesOf(fields) && GoodFlags(f.code, f.flags)
    requires Known(f.code) && f.code !in {14, 15} ==> GoodValue(f.code, f.value, four)
    ensures GoodFields(fields + [f], four)
  {
    hide GoodFlags, GoodValue, Known;
    CodesExactly(fields, f.code);
    var more := fields + [f];
    assert forall i :: 0 <= i < |fields| ==> more[i] == fields[i] && fields[i].code != f.code;
  }

  /** What a refusal of a structurally sound body is about: prefixes that are none,
      one attribute, or a mandatory attribute that is missing. */
  ghost predicate Blames(withdrawn: seq<byte>, fields: seq<Field>, nlri: seq<byte>, four: bool, failure: Failure)
  {
    || (failure == Failure(UpdateError(10, false), [])
        && (NoPrefixes(withdrawn, false) || NoPrefixes(nlri, false)))
    || (exists i: nat :: BlamesField(fields, i, four, failure))
    || (exists code: byte :: code in {1, 2, 3} && !Has(fields, code)
                             && failure == Failure(UpdateError(3, false), [code]))
  }

  lemma ContentWrong(r: Regions, fields: seq<Field>, four: bool)
    requires CheckContent(r, fields, four).Err?
    ensures Blames(r.withdrawn, fields, r.nlri, four, CheckContent(r, fields, four).error)
  {
    hide ReadPrefixes, CheckFields, Spells, BlamesField, Has;
    if ReadPrefixes(r.withdrawn, false).Err? {
      Unspelled(r.withdrawn, false);
    } else if ReadPrefixes(r.nlri, false).Err? {
      Unspelled(r.nlri, false);
    } else {
      var start := Summary(ReadPrefixes(r.withdrawn, false).value, ReadPrefixes(r.nlri, false).value, [], [], []);
      var checked := CheckFields(fields, {}, start, four);
      if checked.Err? {
        NothingWrong({}, four);
        var i := FieldsWrong([], fields, start, four);
        assert [] + fields == fields;
      } else {
        MissingIs(fields, start, four);
      }
    }
  }

  lemma MissingIs(fields: seq<Field>, start: Summary, four: bool)
    requires CheckFields(fields, {}, start, four).Ok?
    ensures var (s, seen) := CheckFields(fields, {}, start, four).value;
            CheckMandatory(s, seen).Err? ==>
              exists code: byte :: code in {1, 2, 3} && !Has(fields, code)
                                   && CheckMandatory(s, seen).error == Failure(UpdateError(3, false), [code])
  {
    hide CheckFields, Has;
    FieldsMean(fields, {}, start, four);
    CodesExactly(fields, 1);
    CodesExactly(fields, 2);
    CodesExactly(fields, 3);
    var (s, seen) := CheckFields(fields, {}, start, four).value;
    if CheckMandatory(s, seen).Err? {
      var code: byte := if 1 !in seen then 1 else if 2 !in seen then 2 else 3;
      if s.announced == [] && s.mpAnnounced == [] { return; }
      assert code in {1, 2, 3} && !Has(fields, code);
      assert CheckMandatory(s, seen).error == Failure(UpdateError(3, false), [code]);
    }
  }

  /** Every refusal of a structurally sound body says what is wrong with it, and
      carries the attribute it is about where a NOTIFICATION does. */
  lemma RefusalExplained(body: seq<byte>, four: bool)
    requires Validate(body, four).Err? && |body| <= MAX_BODY && Structured(body)
    ensures exists withdrawn: seq<byte>, raws: seq<seq<byte>>, nlri: seq<byte>, failure ::
              && StructuredAs(body, withdrawn, raws, nlri)
              && Blames(withdrawn, FieldsOf(raws), nlri, four, failure)
              && Validate(body, four).error.error == failure.error
              && Validate(body, four).error.data ==
                 (if failure.error.subcode in {2, 3, 4, 5, 6, 8, 9}
                  then failure.data[..Min(|failure.data|, 4075)] else [])
  {
    hide SplitRegions, SplitFields, CheckContent, Blames, OneAttribute;
    StructureParses(body);
    var r := SplitRegions(body).value;
    var fields := SplitFields(r.attributes).value;
    var raws := Raws(fields);
    RegionsRebuild(body);
    SplitGivesAttributes(r.attributes);
    SplitConcat(raws);
    assert StructuredAs(body, r.withdrawn, raws, r.nlri);
    ContentWrong(r, fields, four);
    ContentCode(r, fields, four);
    var failure := CheckContent(r, fields, four).error;
    assert Blames(r.withdrawn, FieldsOf(raws), r.nlri, four, failure);
  }

  lemma ContentCode(r: Regions, fields: seq<Field>, four: bool)
    requires CheckContent(r, fields, four).Err?
    ensures CheckContent(r, fields, four).error.error.code == 3
  {
    ContentFailureContent(r, fields, four);
  }

  /** Withdrawn routes and attributes, each behind its length, then the rest. */
  ghost predicate Enclosed(body: seq<byte>, withdrawn: seq<byte>, attributes: seq<byte>, nlri: seq<byte>)
  {
    && |withdrawn| <= U16_MAX && |attributes| <= U16_MAX
    && body == U16Bytes(|withdrawn|) + withdrawn + U16Bytes(|attributes|) + attributes + nlri
  }

  /** Whole attributes, then bytes that do not start with one. */
  ghost predicate BreaksAt(attributes: seq<byte>, raws: seq<seq<byte>>, rest: seq<byte>)
  {
    && (forall raw :: raw in raws ==> OneAttribute(raw)) && attributes == Concat(raws) + rest
    && rest != [] && forall n :: 0 <= n <= |rest| ==> !OneAttribute(rest[..n])
  }

  lemma NoneFits(attrs: seq<byte>)
    requires 2 <= |attrs| && HeaderSize(attrs[0]) <= |attrs| < HeaderSize(attrs[0]) + DeclaredLength(attrs)
    ensures forall n :: 0 <= n <= |attrs| ==> !OneAttribute(attrs[..n])
  {
    hide ExtendedLength, DeclaredLength;
    forall n | 0 <= n <= |attrs| ensures !OneAttribute(attrs[..n]) {
      if 2 <= n && n >= HeaderSize(attrs[0]) { SameHeader(attrs, n); }
    }
  }

  lemma TooShort(attrs: seq<byte>)
    requires attrs != [] && (|attrs| < 2 || |attrs| < HeaderSize(attrs[0]))
    ensures forall n :: 0 <= n <= |attrs| ==> !OneAttribute(attrs[..n])
  {
    hide ExtendedLength, DeclaredLength;
  }

  lemma {:induction false} SplitBreaks(attrs: seq<byte>) returns (raws: seq<seq<byte>>, rest: seq<byte>)
    requires SplitFields(attrs).Err?
    ensures BreaksAt(attrs, raws, rest)
    ensures SplitFields(attrs).error == Failure(UpdateError(if |rest| == 1 then 1 else 5, true), rest)
    decreases |attrs|
  {
    if |attrs| < 2 || |attrs| < HeaderSize(attrs[0]) {
      raws, rest := [], attrs;
      assert Concat(raws) + rest == attrs;
      TooShort(attrs);
    } else {
      var end := HeaderSize(attrs[0]) + DeclaredLength(attrs);
      if |attrs| < end {
        raws, rest := [], attrs;
        assert Concat(raws) + rest == attrs;
        NoneFits(attrs);
      } else {
        raws, rest := SplitBreaks(attrs[end..]);
        SameHeader(attrs, end);
        BreaksLater(attrs, end, raws, rest);
        raws := [attrs[..end]] + raws;
      }
    }
  }

  lemma BreaksLater(attrs: seq<byte>, end: nat, raws: seq<seq<byte>>, rest: seq<byte>)
    requires end <= |attrs| && OneAttribute(attrs[..end]) && BreaksAt(attrs[end..], raws, rest)
    ensures BreaksAt(attrs, [attrs[..end]] + raws, rest)
  {
    hide OneAttribute;
    var first := attrs[..end];
    assert ([first] + raws)[1..] == raws;
    assert attrs == first + (Concat(raws) + rest) == (first + Concat(raws)) + rest;
  }

  lemma SameHeader(attrs: seq<byte>, n: nat)
    requires 2 <= n <= |attrs| && HeaderSize(attrs[0]) <= n
    ensures HeaderSize(attrs[..n][0]) == HeaderSize(attrs[0]) && DeclaredLength(attrs[..n]) == DeclaredLength(attrs)
  {
    if ExtendedLength(attrs[0]) { assert attrs[..n][2..4] == attrs[2..4]; }
  }

  /** A body within the limit whose structure is broken is refused with subcode 1
      where the enclosing lengths or a last single byte do not fit, and with
      subcode 5 and everything from the attribute that does not fit otherwise. */
  lemma StructureExplained(body: seq<byte>, four: bool)
    requires |body| <= MAX_BODY && !Structured(body)
    ensures Validate(body, four).Err?
    ensures var f := Validate(body, four).error;
            if !(exists w: seq<byte>, a: seq<byte>, n: seq<byte> :: Enclosed(body, w, a, n)) then
              f == Failure(UpdateError(1, true), [])
            else
              exists w: seq<byte>, a: seq<byte>, n: seq<byte>, raws: seq<seq<byte>>, rest: seq<byte> ::
                && Enclosed(body, w, a, n) && BreaksAt(a, raws, rest)
                && f == if |rest| == 1 then Failure(UpdateError(1, true), [])
                        else Failure(UpdateError(5, true), rest[..Min(|rest|, 4075)])
  {
    hide SplitFields, OneAttribute, SplitRegions, CheckContent;
    StructureParses(body);
    if SplitRegions(body).Ok? {
      RegionsRebuild(body);
      var r := SplitRegions(body).value;
      assert Enclosed(body, r.withdrawn, r.attributes, r.nlri);
    }
    if exists w: seq<byte>, a: seq<byte>, n: seq<byte> :: Enclosed(body, w, a, n) {
      var w: seq<byte>, a: seq<byte>, n: seq<byte> :| Enclosed(body, w, a, n);
      RegionsOf(w, a, n);
      var raws, rest := SplitBreaks(a);
      assert Enclosed(body, w, a, n) && BreaksAt(a, raws, rest);
    } else {
      NotEnclosed(body);
    }
  }

  lemma NotEnclosed(body: seq<byte>)
    ensures SplitRegions(body).Err? ==> SplitRegions(body).error == Failure(UpdateError(1, true), [])
  {
  }
}
