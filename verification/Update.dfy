/** UPDATE validation (crates/flowsdn-bgp-proto/src/update.rs; sections 4.3 and
    6.3 of RFC 4271, RFC 4760 for the multiprotocol attributes). */
module Update {
  import opened Bytes
  import opened Framing
  import opened Prefixes
  import opened Arith
  import Messages

  datatype UnknownTransitive = UnknownTransitive(flags: byte, code: byte, value: seq<byte>)

  datatype Summary = Summary(
    withdrawn: seq<Prefix>,
    announced: seq<Prefix>,
    mpAnnounced: seq<Prefix>,
    mpWithdrawn: seq<Prefix>,
    unknownTransitive: seq<UnknownTransitive>)

  /** A refused UPDATE: the error, and the data its NOTIFICATION carries. */
  datatype Failure = Failure(error: ProtocolError, data: seq<byte>)

  /** One path attribute; `raw` is its whole encoding. */
  datatype Field = Field(flags: byte, code: byte, value: seq<byte>, raw: seq<byte>)

  // ---------- structure ----------

  predicate ExtendedLength(flags: byte) { BitSet(flags, 0x10) }

  /** The size of the attribute header. */
  function HeaderSize(flags: byte): nat { if ExtendedLength(flags) then 4 else 3 }

  /** The value length the header declares. */
  function DeclaredLength(attrs: seq<byte>): nat
    requires |attrs| >= 1 && |attrs| >= HeaderSize(attrs[0])
  {
    if ExtendedLength(attrs[0]) then U16Of(attrs[2..4]) else attrs[2]
  }

  /** Split the attribute bytes into attributes, interpreting none of them. The
      failure data is what is left from the attribute that does not fit. */
  function SplitFields(attrs: seq<byte>): Result<seq<Field>, Failure>
    decreases |attrs|
  {
    if attrs == [] then Ok([])
    else if |attrs| < 2 then Err(Failure(UpdateError(1, true), attrs))
    else if |attrs| < HeaderSize(attrs[0]) then Err(Failure(UpdateError(5, true), attrs))
    else
      var start := HeaderSize(attrs[0]);
      var end := start + DeclaredLength(attrs);
      if |attrs| < end then Err(Failure(UpdateError(5, true), attrs)) else
      var rest :- SplitFields(attrs[end..]);
      Ok([Field(attrs[0], attrs[1], attrs[start..end], attrs[..end])] + rest)
  }

  /** The three regions of an UPDATE body. */
  datatype Regions = Regions(withdrawn: seq<byte>, attributes: seq<byte>, nlri: seq<byte>)

  function SplitRegions(body: seq<byte>): Result<Regions, Failure>
  {
    var short := Err(Failure(UpdateError(1, true), []));
    if |body| < 2 then short else
    var a := 2 + U16Of(body[..2]) as int;
    if |body| < a + 2 then short else
    var b := a + 2 + U16Of(body[a..a + 2]) as int;
    if |body| < b then short else
    Ok(Regions(body[2..a], body[a + 2..b], body[b..]))
  }

  // ---------- content ----------

  /** The size of a path segment with this many numbers. */
  function SegmentSize(count: byte, width: nat): (r: nat)
    ensures r == 2 + count as int * width && r >= 2
  {
    ProductNat(count, width);
    2 + count as int * width
  }

  /** An AS_PATH value: segments of a type, a count and that many AS numbers. */
  function AsPathOk(value: seq<byte>, width: nat): bool
    decreases |value|
  {
    if value == [] then true
    else if |value| < 2 || value[0] !in {1, 2} || value[1] == 0 then false
    else
      var end := SegmentSize(value[1], width);
      |value| >= end && AsPathOk(value[end..], width)
  }

  method AsPathLoop(input: seq<byte>, width: nat) returns (ok: bool)
    ensures ok == AsPathOk(input, width)
  {
    var value := input;
    while value != []
      invariant AsPathOk(input, width) == AsPathOk(value, width)
      decreases |value|
    {
      if |value| < 2 || value[0] !in {1, 2} || value[1] == 0 { return false; }
      var end := SegmentSize(value[1], width);
      if |value| < end { return false; }
      value := value[end..];
    }
    ok := true;
  }

  /** MP_REACH_NLRI and MP_UNREACH_NLRI. */
  function Multiprotocol(value: seq<byte>, reach: bool): UpdateResult<seq<Prefix>>
  {
    if |value| < 3 then Err(UpdateError(9, false)) else
    var afi := U16Of(value[..2]);
    if afi !in {1, 2} || value[2] != 1 then Err(UpdateError(9, false)) else
    if !reach then ReadPrefixes(value[3..], afi == 2) else
    if |value| < 4 then Err(UpdateError(9, false)) else
    var length := value[3] as int;
    if length !in {4, 16, 32} || (afi == 2 && length == 4) then Err(UpdateError(9, false)) else
    if |value| < 4 + length + 1 then Err(UpdateError(9, false)) else
    ReadPrefixes(value[4 + length + 1..], afi == 2)
  }

  /** The optional/transitive bits a known attribute code must have. */
  function ExpectedClass(code: byte): Option<byte>
  {
    if code in {1, 2, 3, 5, 6} then Some(0x40)
    else if code in {4, 14, 15} then Some(0x80)
    else if code in {7, 8, 17, 18, 32} then Some(0xc0)
    else None
  }

  /** `flags & 0xc0` */
  function Class(flags: byte): byte { flags / 0x40 * 0x40 }

  predicate Partial(flags: byte) { BitSet(flags, 0x20) }

  predicate NextHopRefused(ip: seq<byte>)
    requires |ip| == 4
  {
    ip == [0, 0, 0, 0] || 224 <= ip[0] <= 239 || ip == [255, 255, 255, 255]
  }

  /** The value check of a known attribute other than the multiprotocol two. */
  function ValueError(f: Field, four: bool): Option<byte>
  {
    if f.code == 1 then
      if |f.value| != 1 then Some(5) else if f.value[0] > 2 then Some(6) else None
    else if f.code == 2 then
      if AsPathOk(f.value, if four then 4 else 2) then None else Some(11)
    else if f.code == 17 then
      if AsPathOk(f.value, 4) then None else Some(11)
    else if f.code == 3 then
      if |f.value| != 4 then Some(5) else if NextHopRefused(f.value) then Some(8) else None
    else if f.code in {4, 5} && |f.value| != 4 then Some(5)
    else if f.code == 6 && |f.value| != 0 then Some(5)
    else if f.code == 7 && |f.value| != (if four then 8 else 6) then Some(5)
    else if f.code == 18 && |f.value| != 8 then Some(5)
    else if f.code == 8 && |f.value| % 4 != 0 then Some(5)
    else if f.code == 32 && |f.value| % 12 != 0 then Some(5)
    else None
  }

  /** One attribute's content, given the codes already seen. */
  function CheckField(f: Field, seen: set<byte>, s: Summary, four: bool): UpdateResult<Summary>
  {
    if f.code in seen then Err(UpdateError(1, false))
    else if Partial(f.flags) && Class(f.flags) != 0xc0 then Err(UpdateError(4, false))
    else match ExpectedClass(f.code)
      case None =>
        if f.flags < 0x80 then Err(UpdateError(2, false))
        else if BitSet(f.flags, 0x40) then
          var flags := if Partial(f.flags) then f.flags else f.flags + 0x20;
          Ok(s.(unknownTransitive := s.unknownTransitive + [UnknownTransitive(flags, f.code, f.value)]))
        else Ok(s)
      case Some(expected) =>
        if Class(f.flags) != expected || (Partial(f.flags) && expected != 0xc0) then Err(UpdateError(4, false))
        else if f.code == 14 then
          var ps :- Multiprotocol(f.value, true);
          Ok(s.(mpAnnounced := ps))
        else if f.code == 15 then
          var ps :- Multiprotocol(f.value, false);
          Ok(s.(mpWithdrawn := ps))
        else match ValueError(f, four)
          case Some(subcode) => Err(UpdateError(subcode, false))
          case None => Ok(s)
  }

  function CheckFields(fields: seq<Field>, seen: set<byte>, s: Summary, four: bool)
    : Result<(Summary, set<byte>), Failure>
    decreases |fields|
  {
    if fields == [] then Ok((s, seen)) else
    match CheckField(fields[0], seen, s, four)
    case Err(e) => Err(Failure(e, fields[0].raw))
    case Ok(next) => CheckFields(fields[1..], seen + {fields[0].code}, next, four)
  }

  /** The mandatory attributes of an UPDATE that announces something. */
  function CheckMandatory(s: Summary, seen: set<byte>): Result<Summary, Failure>
  {
    if (s.announced != [] || s.mpAnnounced != []) && (1 !in seen || 2 !in seen) then
      Err(Failure(UpdateError(3, false), [if 1 !in seen then 1 else 2]))
    else if s.announced != [] && 3 !in seen then Err(Failure(UpdateError(3, false), [3]))
    else Ok(s)
  }

  function CheckContent(r: Regions, fields: seq<Field>, four: bool): Result<Summary, Failure>
  {
    match ReadPrefixes(r.withdrawn, false)
    case Err(e) => Err(Failure(e, []))
    case Ok(withdrawn) =>
      match ReadPrefixes(r.nlri, false)
      case Err(e) => Err(Failure(e, []))
      case Ok(announced) =>
        var checked :- CheckFields(fields, {}, Summary(withdrawn, announced, [], [], []), four);
        CheckMandatory(checked.0, checked.1)
  }

  function ValidateInner(body: seq<byte>, four: bool): Result<Summary, Failure>
  {
    if |body| > MAX_BODY then Err(Failure(FramingError(2), [])) else
    var regions :- SplitRegions(body);
    var fields :- SplitFields(regions.attributes);
    CheckContent(regions, fields, four)
  }

  /** Only some errors carry data, and never more than a NOTIFICATION holds. */
  function Trim(f: Failure): Failure
  {
    var kept := if f.error.code == 3 && f.error.subcode in {2, 3, 4, 5, 6, 8, 9} then f.data else [];
    Failure(f.error, kept[..Min(|kept|, MAX_MESSAGE_LENGTH - 21)])
  }

  function Validate(body: seq<byte>, four: bool): Result<Summary, Failure>
  {
    match ValidateInner(body, four)
    case Ok(s) => Ok(s)
    case Err(f) => Err(Trim(f))
  }

  /** The validation as it runs: two loops over the attributes, with the data of
      a possible failure kept beside them. */
  method ValidateLoop(body: seq<byte>, four: bool) returns (r: Result<Summary, Failure>)
    ensures r == Validate(body, four)
  {
    hide CheckField, CheckMandatory, Trim, ReadPrefixes, SplitRegions;
    if |body| > MAX_BODY { return Err(Trim(Failure(FramingError(2), []))); }
    var regions := SplitRegions(body);
    if regions.Err? { return Err(Trim(regions.error)); }
    var attributes, data, fields := regions.value.attributes, [], [];
    ghost var all := SplitFields(attributes);
    ExtendsStart(all);
    while attributes != []
      invariant Extends(all, fields, SplitFields(attributes))
      decreases |attributes|
    {
      data := attributes;
      if |attributes| < 2 { return Err(Trim(Failure(UpdateError(1, true), data))); }
      if |attributes| < HeaderSize(attributes[0]) { return Err(Trim(Failure(UpdateError(5, true), data))); }
      var start := HeaderSize(attributes[0]);
      var end := start + DeclaredLength(attributes);
      if |attributes| < end { return Err(Trim(Failure(UpdateError(5, true), data))); }
      var field := Field(attributes[0], attributes[1], attributes[start..end], attributes[..end]);
      ExtendsStep(all, fields, [field], SplitFields(attributes[end..]));
      fields := fields + [field];
      attributes := attributes[end..];
    }
    assert fields + [] == fields;
    data := [];
    var withdrawn := ReadPrefixesLoop(regions.value.withdrawn, false);
    if withdrawn.Err? { return Err(Trim(Failure(withdrawn.error, data))); }
    var announced := ReadPrefixesLoop(regions.value.nlri, false);
    if announced.Err? { return Err(Trim(Failure(announced.error, data))); }
    var result, seen := Summary(withdrawn.value, announced.value, [], [], []), {};
    ghost var checked := CheckFields(fields, seen, result, four);
    var i := 0;
    while i < |fields|
      invariant 0 <= i <= |fields|
      invariant checked == CheckFields(fields[i..], seen, result, four)
    {
      data := fields[i].raw;
      var next := CheckField(fields[i], seen, result, four);
      if next.Err? { return Err(Trim(Failure(next.error, data))); }
      assert fields[i..][1..] == fields[i + 1..];
      seen, result, i := seen + {fields[i].code}, next.value, i + 1;
    }
    var last := CheckMandatory(result, seen);
    r := match last case Ok(s) => Ok(s) case Err(f) => Err(Trim(f));
  }

  // ---------- what the structural error means ----------

  /** `raw` is exactly one attribute: its header fits and declares its length. */
  ghost predicate OneAttribute(raw: seq<byte>)
  {
    && |raw| >= 2 && |raw| >= HeaderSize(raw[0])
    && |raw| == HeaderSize(raw[0]) + DeclaredLength(raw)
  }

  /** The body is withdrawn routes, whole attributes and NLRI, each enclosing
      length telling the truth. Nothing is said about any content. */
  ghost predicate Structured(body: seq<byte>)
  {
    exists withdrawn: seq<byte>, raws: seq<seq<byte>>, nlri: seq<byte> ::
      StructuredAs(body, withdrawn, raws, nlri)
  }

  ghost predicate StructuredAs(body: seq<byte>, withdrawn: seq<byte>, raws: seq<seq<byte>>, nlri: seq<byte>)
  {
    && |withdrawn| <= U16_MAX && |Concat(raws)| <= U16_MAX
    && (forall raw :: raw in raws ==> OneAttribute(raw))
    && body == U16Bytes(|withdrawn|) + withdrawn + U16Bytes(|Concat(raws)|) + Concat(raws) + nlri
  }

  function FieldOf(raw: seq<byte>): Field
    requires |raw| >= 2 && |raw| >= HeaderSize(raw[0])
  {
    Field(raw[0], raw[1], raw[HeaderSize(raw[0])..], raw)
  }

  function FieldsOf(raws: seq<seq<byte>>): seq<Field>
    requires forall raw :: raw in raws ==> OneAttribute(raw)
  {
    if raws == [] then [] else assert OneAttribute(raws[0]); [FieldOf(raws[0])] + FieldsOf(raws[1..])
  }

  lemma SplitFirst(raw: seq<byte>, rest: seq<byte>)
    requires OneAttribute(raw)
    ensures SplitFields(raw + rest) ==
            match SplitFields(rest) { case Ok(fs) => Ok([FieldOf(raw)] + fs) case Err(e) => Err(e) }
  {
    var attrs := raw + rest;
    if ExtendedLength(raw[0]) {
      assert attrs[2..4] == raw[2..4];
    }
    assert DeclaredLength(attrs) == DeclaredLength(raw);
    assert attrs[|raw|..] == rest;
    assert attrs[..|raw|] == raw;
    assert attrs[HeaderSize(raw[0])..|raw|] == raw[HeaderSize(raw[0])..];
  }

  /** Splitting inverts concatenation of whole attributes. */
  lemma {:induction false} SplitConcat(raws: seq<seq<byte>>)
    requires forall raw :: raw in raws ==> OneAttribute(raw)
    ensures SplitFields(Concat(raws)) == Ok(FieldsOf(raws))
  {
    if raws != [] {
      SplitConcat(raws[1..]);
      SplitFirst(raws[0], Concat(raws[1..]));
    }
  }

  function Raws(fields: seq<Field>): (r: seq<seq<byte>>)
    ensures |r| == |fields|
  {
    if fields == [] then [] else [fields[0].raw] + Raws(fields[1..])
  }

  lemma {:induction false} SplitGivesAttributes(attrs: seq<byte>)
    requires SplitFields(attrs).Ok?
    ensures Concat(Raws(SplitFields(attrs).value)) == attrs
    ensures forall raw :: raw in Raws(SplitFields(attrs).value) ==> OneAttribute(raw)
    decreases |attrs|
  {
    if attrs != [] {
      var end := HeaderSize(attrs[0]) + DeclaredLength(attrs);
      SplitGivesAttributes(attrs[end..]);
      var raw := attrs[..end];
      if ExtendedLength(attrs[0]) { assert raw[2..4] == attrs[2..4]; }
      assert OneAttribute(raw);
      assert attrs == raw + attrs[end..];
      assert SplitFields(attrs).value[1..] == SplitFields(attrs[end..]).value;
    }
  }

  lemma RegionsOf(withdrawn: seq<byte>, attributes: seq<byte>, nlri: seq<byte>)
    requires |withdrawn| <= U16_MAX && |attributes| <= U16_MAX
    ensures SplitRegions(U16Bytes(|withdrawn|) + withdrawn + U16Bytes(|attributes|) + attributes + nlri)
            == Ok(Regions(withdrawn, attributes, nlri))
  {
    var body := U16Bytes(|withdrawn|) + withdrawn + U16Bytes(|attributes|) + attributes + nlri;
    U16RoundTrip(|withdrawn|);
    U16RoundTrip(|attributes|);
    assert body[..2] == U16Bytes(|withdrawn|);
    var a := 2 + |withdrawn|;
    assert body[a..a + 2] == U16Bytes(|attributes|);
    var b := a + 2 + |attributes|;
    assert body[2..a] == withdrawn;
    assert body[a + 2..b] == attributes;
    assert body[b..] == nlri;
  }

  /** A body put together from parts that each pass validates to their sum. */
  lemma PartsValidate(body: seq<byte>, r: Regions, fields: seq<Field>, withdrawn: seq<Prefix>,
                      announced: seq<Prefix>, four: bool, s: Summary, seen: set<byte>)
    requires |body| <= MAX_BODY && |r.withdrawn| <= U16_MAX && |r.attributes| <= U16_MAX
    requires body == U16Bytes(|r.withdrawn|) + r.withdrawn + U16Bytes(|r.attributes|) + r.attributes + r.nlri
    requires SplitFields(r.attributes) == Ok(fields)
    requires ReadPrefixes(r.withdrawn, false) == Ok(withdrawn)
    requires ReadPrefixes(r.nlri, false) == Ok(announced)
    requires CheckFields(fields, {}, Summary(withdrawn, announced, [], [], []), four) == Ok((s, seen))
    requires CheckMandatory(s, seen) == Ok(s)
    ensures Validate(body, four) == Ok(s)
  {
    RegionsOf(r.withdrawn, r.attributes, r.nlri);
  }

  lemma RegionsRebuild(body: seq<byte>)
    requires SplitRegions(body).Ok?
    ensures var r := SplitRegions(body).value;
            && |r.withdrawn| <= U16_MAX && |r.attributes| <= U16_MAX
            && body == U16Bytes(|r.withdrawn|) + r.withdrawn + U16Bytes(|r.attributes|) + r.attributes + r.nlri
  {
    var a := 2 + U16Of(body[..2]) as int;
    var b := a + 2 + U16Of(body[a..a + 2]) as int;
    assert U16Bytes(U16Of(body[..2])) == body[..2];
    assert U16Bytes(U16Of(body[a..a + 2])) == body[a..a + 2];
    assert body == body[..2] + body[2..a] + body[a..a + 2] + body[a + 2..b] + body[b..];
  }

  predicate IsStructural(r: Result<Summary, Failure>)
  {
    r.Err? && r.error.error.scope == AttributeStructure
  }

  lemma StructureParses(body: seq<byte>)
    ensures Structured(body) <==>
            SplitRegions(body).Ok? && SplitFields(SplitRegions(body).value.attributes).Ok?
  {
    if Structured(body) {
      var withdrawn, raws, nlri :| StructuredAs(body, withdrawn, raws, nlri);
      RegionsOf(withdrawn, Concat(raws), nlri);
      SplitConcat(raws);
    }
    if SplitRegions(body).Ok? && SplitFields(SplitRegions(body).value.attributes).Ok? {
      var r := SplitRegions(body).value;
      RegionsRebuild(body);
      SplitGivesAttributes(r.attributes);
      assert StructuredAs(body, r.withdrawn, Raws(SplitFields(r.attributes).value), r.nlri);
    }
  }

  lemma {:induction false} SplitFailureStructural(attrs: seq<byte>)
    requires SplitFields(attrs).Err?
    ensures SplitFields(attrs).error.error.scope == AttributeStructure && SplitFields(attrs).error.error.code == 3
    decreases |attrs|
  {
    if |attrs| >= 2 && |attrs| >= HeaderSize(attrs[0]) {
      var end := HeaderSize(attrs[0]) + DeclaredLength(attrs);
      if |attrs| >= end { SplitFailureStructural(attrs[end..]); }
    }
  }

  lemma {:induction false} ReadFailureContent(bytes: seq<byte>, v6: bool)
    requires ReadPrefixes(bytes, v6).Err?
    ensures ReadPrefixes(bytes, v6).error.scope == UpdateContent && ReadPrefixes(bytes, v6).error.code == 3
    decreases |bytes|
  {
    var bits := bytes[0];
    if bits <= Width(v6) && |bytes| >= 1 + CeilBytes(bits) {
      ReadFailureContent(bytes[1 + CeilBytes(bits)..], v6);
    }
  }

  lemma MultiprotocolFailureContent(value: seq<byte>, reach: bool)
    requires Multiprotocol(value, reach).Err?
    ensures Multiprotocol(value, reach).error.scope == UpdateContent && Multiprotocol(value, reach).error.code == 3
  {
    if |value| >= 3 {
      var afi := U16Of(value[..2]);
      if !reach {
        if ReadPrefixes(value[3..], afi == 2).Err? { ReadFailureContent(value[3..], afi == 2); }
      } else if |value| >= 4 && |value| >= 4 + value[3] as int + 1 {
        var rest := value[4 + value[3] as int + 1..];
        if ReadPrefixes(rest, afi == 2).Err? { ReadFailureContent(rest, afi == 2); }
      }
    }
  }

  lemma {:induction false} FieldsFailureContent(fields: seq<Field>, seen: set<byte>, s: Summary, four: bool)
    requires CheckFields(fields, seen, s, four).Err?
    ensures CheckFields(fields, seen, s, four).error.error.scope == UpdateContent
    ensures CheckFields(fields, seen, s, four).error.error.code == 3
    decreases |fields|
  {
    match CheckField(fields[0], seen, s, four)
    case Ok(next) => FieldsFailureContent(fields[1..], seen + {fields[0].code}, next, four);
    case Err(e) =>
      if Multiprotocol(fields[0].value, true).Err? { MultiprotocolFailureContent(fields[0].value, true); }
      if Multiprotocol(fields[0].value, false).Err? { MultiprotocolFailureContent(fields[0].value, false); }
  }

  lemma ContentFailureContent(r: Regions, fields: seq<Field>, four: bool)
    requires CheckContent(r, fields, four).Err?
    ensures CheckContent(r, fields, four).error.error.scope == UpdateContent
    ensures CheckContent(r, fields, four).error.error.code == 3
  {
    if ReadPrefixes(r.withdrawn, false).Err? {
      ReadFailureContent(r.withdrawn, false);
    } else if ReadPrefixes(r.nlri, false).Err? {
      ReadFailureContent(r.nlri, false);
    } else {
      var s := Summary(ReadPrefixes(r.withdrawn, false).value, ReadPrefixes(r.nlri, false).value, [], [], []);
      if CheckFields(fields, {}, s, four).Err? { FieldsFailureContent(fields, {}, s, four); }
    }
  }

  /** For a body within the size limit the structural error means exactly that
      the lengths or some attribute do not fit, whatever earlier content says. */
  lemma StructuralExactly(body: seq<byte>, four: bool)
    requires |body| <= MAX_BODY
    ensures IsStructural(Validate(body, four)) <==> !Structured(body)
  {
    StructureParses(body);
    if SplitRegions(body).Ok? {
      var r := SplitRegions(body).value;
      if SplitFields(r.attributes).Err? {
        SplitFailureStructural(r.attributes);
      } else if CheckContent(r, SplitFields(r.attributes).value, four).Err? {
        ContentFailureContent(r, SplitFields(r.attributes).value, four);
      }
    }
  }

  /** A refused UPDATE is reported as a header or an UPDATE error. */
  lemma ErrorCodes(body: seq<byte>, four: bool)
    requires Validate(body, four).Err?
    ensures Validate(body, four).error.error.code == (if |body| > MAX_BODY then 1 else 3)
  {
    if |body| <= MAX_BODY && SplitRegions(body).Ok? {
      var r := SplitRegions(body).value;
      if SplitFields(r.attributes).Err? {
        SplitFailureStructural(r.attributes);
      } else {
        ContentFailureContent(r, SplitFields(r.attributes).value, four);
      }
    }
  }

  /** A refused body within the limit failed in its structure or in its content. */
  lemma ErrorScopes(body: seq<byte>, four: bool)
    requires Validate(body, four).Err?
    ensures Validate(body, four).error.error.scope ==
            if |body| > MAX_BODY then InFraming else if Structured(body) then UpdateContent else AttributeStructure
  {
    if |body| <= MAX_BODY {
      StructureParses(body);
      if SplitRegions(body).Ok? {
        var r := SplitRegions(body).value;
        if SplitFields(r.attributes).Err? {
          SplitFailureStructural(r.attributes);
        } else {
          ContentFailureContent(r, SplitFields(r.attributes).value, four);
        }
      }
    }
  }

  /** The lenient policy discards only structurally sound messages, and every
      failure's data fits the NOTIFICATION that reports it. */
  lemma LenientDiscardsOnlyStructured(body: seq<byte>, four: bool)
    requires Validate(body, four).Err?
    ensures ErrorActionOf(Validate(body, four).error.error, false) == CountLogAndDiscard ==>
              Structured(body) && |body| <= MAX_BODY
    ensures |Validate(body, four).error.data| <= Messages.MAX_DATA
    ensures ErrorActionOf(Validate(body, four).error.error, true) == NotifyAndClose
  {
    if |body| <= MAX_BODY { StructuralExactly(body, four); }
  }
}
