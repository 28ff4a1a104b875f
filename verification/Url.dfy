/** Percent-encoded paths and queries, from the client that builds them to the
    agent that takes them apart (crates/flowsdn-api-client/src/lib.rs:196-266,
    crates/flowsdn-agent/src/api.rs:453-459, 545-580, 937-984; section 2.1 of
    RFC 3986). Text is its UTF-8 bytes. */
module Url {
  import opened Bytes

  type Text = seq<byte>

  const PERCENT: byte := 0x25
  const AMPERSAND: byte := 0x26
  const EQUALS: byte := 0x3D
  const QUESTION: byte := 0x3F
  const SLASH: byte := 0x2F

  // ---------- UTF-8 ----------

  predicate Continues(b: byte) { 0x80 <= b <= 0xBF }

  /** Well-formed UTF-8 (section 4 of RFC 3629). */
  predicate Utf8(b: Text)
  {
    if b == [] then true
    else if b[0] < 0x80 then Utf8(b[1..])
    else if 0xC2 <= b[0] <= 0xDF then |b| >= 2 && Continues(b[1]) && Utf8(b[2..])
    else if 0xE0 <= b[0] <= 0xEF then
      && |b| >= 3 && Continues(b[1]) && Continues(b[2])
      && (b[0] == 0xE0 ==> b[1] >= 0xA0) && (b[0] == 0xED ==> b[1] <= 0x9F)
      && Utf8(b[3..])
    else if 0xF0 <= b[0] <= 0xF4 then
      && |b| >= 4 && Continues(b[1]) && Continues(b[2]) && Continues(b[3])
      && (b[0] == 0xF0 ==> b[1] >= 0x90) && (b[0] == 0xF4 ==> b[1] <= 0x8F)
      && Utf8(b[4..])
    else false
  }

  /** A character: a code point that is no surrogate. */
  predicate Scalar(c: nat) { c < 0xD800 || 0xE000 <= c < 0x110000 }

  /** The octets of a character (section 3 of RFC 3629). */
  function CharBytes(c: nat): Text
    requires Scalar(c)
  {
    if c < 0x80 then [c]
    else if c < 0x800 then [0xC0 + c / 0x40, 0x80 + c % 0x40]
    else if c < 0x10000 then [0xE0 + c / 0x1000, 0x80 + c / 0x40 % 0x40, 0x80 + c % 0x40]
    else [0xF0 + c / 0x40000, 0x80 + c / 0x1000 % 0x40, 0x80 + c / 0x40 % 0x40, 0x80 + c % 0x40]
  }

  ghost predicate SpellsChars(parts: seq<Text>, chars: seq<nat>)
  {
    |parts| == |chars| && forall i :: 0 <= i < |chars| ==> Scalar(chars[i]) && parts[i] == CharBytes(chars[i])
  }

  /** Bytes that are the octets of characters, one after the other. */
  ghost predicate IsText(b: Text)
  {
    exists parts: seq<Text>, chars: seq<nat> :: Concat(parts) == b && SpellsChars(parts, chars)
  }

  lemma TwoOctets(a: byte, b: byte) returns (c: nat)
    requires 0xC2 <= a <= 0xDF && Continues(b)
    ensures Scalar(c) && CharBytes(c) == [a, b]
  {
    var x: int, y: int := a as int - 0xC0, b as int - 0x80;
    c := x * 0x40 + y;
    DivModUnique(c, 0x40, x, y);
  }

  lemma ThreeOctets(a: byte, b: byte, d: byte) returns (c: nat)
    requires 0xE0 <= a <= 0xEF && Continues(b) && Continues(d)
    requires (a == 0xE0 ==> b >= 0xA0) && (a == 0xED ==> b <= 0x9F)
    ensures Scalar(c) && CharBytes(c) == [a, b, d]
  {
    var x: int, y: int, z: int := a as int - 0xE0, b as int - 0x80, d as int - 0x80;
    var high := x * 0x40 + y;
    c := high * 0x40 + z;
    DivModUnique(c, 0x40, high, z);
    DivModUnique(high, 0x40, x, y);
    DivModUnique(c, 0x1000, x, y * 0x40 + z);
  }

  lemma FourOctets(a: byte, b: byte, d: byte, e: byte) returns (c: nat)
    requires 0xF0 <= a <= 0xF4 && Continues(b) && Continues(d) && Continues(e)
    requires (a == 0xF0 ==> b >= 0x90) && (a == 0xF4 ==> b <= 0x8F)
    ensures Scalar(c) && CharBytes(c) == [a, b, d, e]
  {
    var w: int, x: int, y: int, z: int := a as int - 0xF0, b as int - 0x80, d as int - 0x80, e as int - 0x80;
    var top := w * 0x40 + x;
    var high := top * 0x40 + y;
    c := high * 0x40 + z;
    DivModUnique(c, 0x40, high, z);
    DivModUnique(high, 0x40, top, y);
    DivModUnique(top, 0x40, w, x);
    DivModUnique(c, 0x1000, top, y * 0x40 + z);
    DivModUnique(c, 0x40000, w, (x * 0x40 + y) * 0x40 + z);
  }

  /** The first character of well-formed bytes. */
  lemma FirstChar(b: Text) returns (c: nat)
    requires b != [] && Utf8(b)
    ensures Scalar(c) && 1 <= |CharBytes(c)| <= |b|
    ensures b[..|CharBytes(c)|] == CharBytes(c) && Utf8(b[|CharBytes(c)|..])
  {
    hide CharBytes, Scalar;
    if b[0] < 0x80 {
      c := b[0];
      OneOctet(b[0]);
      assert b[..1] == [b[0]];
    } else if b[0] <= 0xDF {
      c := TwoOctets(b[0], b[1]);
      assert b[..2] == [b[0], b[1]];
    } else if b[0] <= 0xEF {
      c := ThreeOctets(b[0], b[1], b[2]);
      assert b[..3] == [b[0], b[1], b[2]];
    } else {
      c := FourOctets(b[0], b[1], b[2], b[3]);
      assert b[..4] == [b[0], b[1], b[2], b[3]];
    }
  }

  lemma OneOctet(a: byte)
    requires a < 0x80
    ensures Scalar(a) && CharBytes(a) == [a]
  {
  }

  /** One character's bytes, by their number. */
  predicate Shaped(p: Text)
  {
    match |p|
    case 1 => p[0] < 0x80
    case 2 => 0xC2 <= p[0] <= 0xDF && Continues(p[1])
    case 3 =>
      && 0xE0 <= p[0] <= 0xEF && Continues(p[1]) && Continues(p[2])
      && (p[0] == 0xE0 ==> p[1] >= 0xA0) && (p[0] == 0xED ==> p[1] <= 0x9F)
    case 4 =>
      && 0xF0 <= p[0] <= 0xF4 && Continues(p[1]) && Continues(p[2]) && Continues(p[3])
      && (p[0] == 0xF0 ==> p[1] >= 0x90) && (p[0] == 0xF4 ==> p[1] <= 0x8F)
    case _ => false
  }

  lemma CharShaped(c: nat)
    requires Scalar(c)
    ensures Shaped(CharBytes(c))
  {
  }

  lemma ShapedText(p: Text, rest: Text)
    requires Shaped(p) && Utf8(rest)
    ensures Utf8(p + rest)
  {
    var b := p + rest;
    assert b[|p|..] == rest;
  }

  lemma CharIsText(c: nat, rest: Text)
    requires Scalar(c) && Utf8(rest)
    ensures Utf8(CharBytes(c) + rest)
  {
    hide *;
    CharShaped(c);
    ShapedText(CharBytes(c), rest);
  }

  lemma {:induction false} TextOf(b: Text)
    requires Utf8(b)
    ensures IsText(b)
    decreases |b|
  {
    hide Utf8, CharBytes;
    if b == [] {
      var none: seq<Text>, no: seq<nat> := [], [];
      assert Concat(none) == [] && SpellsChars(none, no);
    } else {
      var c := FirstChar(b);
      var first, rest := CharBytes(c), b[|CharBytes(c)|..];
      TextOf(rest);
      var parts: seq<Text>, chars: seq<nat> :| Concat(parts) == rest && SpellsChars(parts, chars);
      assert ([first] + parts)[1..] == parts && Concat([first] + parts) == b;
      assert SpellsChars([first] + parts, [c] + chars);
    }
  }

  lemma {:induction false} CharsAreText(parts: seq<Text>, chars: seq<nat>)
    requires SpellsChars(parts, chars)
    ensures Utf8(Concat(parts))
  {
    hide Utf8, CharBytes;
    if parts == [] {
      NothingIsText();
    } else {
      forall i | 0 <= i < |chars[1..]| ensures Scalar(chars[1..][i]) && parts[1..][i] == CharBytes(chars[1..][i]) {
        assert chars[1..][i] == chars[i + 1] && parts[1..][i] == parts[i + 1];
      }
      CharsAreText(parts[1..], chars[1..]);
      CharIsText(chars[0], Concat(parts[1..]));
    }
  }

  lemma NothingIsText()
    ensures Utf8([])
  {
  }

  /** Exactly the encodings of characters are well formed. */
  lemma Utf8Exactly(b: Text)
    ensures Utf8(b) <==> IsText(b)
  {
    if Utf8(b) { TextOf(b); }
    if IsText(b) {
      var parts: seq<Text>, chars: seq<nat> :| Concat(parts) == b && SpellsChars(parts, chars);
      CharsAreText(parts, chars);
    }
  }

  // ---------- percent encoding ----------

  predicate Unreserved(b: byte)
  {
    || 0x30 <= b <= 0x39 || 0x41 <= b <= 0x5A || 0x61 <= b <= 0x7A
    || b == 0x2D || b == 0x2E || b == 0x5F || b == 0x7E
  }

  function HexDigit(n: nat): (r: byte)
    requires n < 16
    ensures Unreserved(r)
  {
    if n < 10 then 0x30 + n else 0x41 + n - 10
  }

  function EncodeByte(b: byte): (r: Text)
    ensures 1 <= |r|
  {
    if Unreserved(b) then [b] else [PERCENT, HexDigit(b / 16), HexDigit(b % 16)]
  }

  /** The characters that stand for themselves. */
  predicate Plain(c: char)
  {
    'A' <= c <= 'Z' || 'a' <= c <= 'z' || '0' <= c <= '9' || c in {'-', '.', '_', '~'}
  }

  /** Letters, digits and four marks stay as they are; anything else becomes a
      percent sign and two digits of upper case. */
  lemma EscapesExactly(b: byte)
    ensures if Plain(b as char) then EncodeByte(b) == [b]
            else
              && |EncodeByte(b)| == 3 && EncodeByte(b)[0] == 0x25
              && EncodeByte(b)[1] == "0123456789ABCDEF"[b / 16] as int
              && EncodeByte(b)[2] == "0123456789ABCDEF"[b % 16] as int
  {
    DigitExactly(b / 16);
    DigitExactly(b % 16);
  }

  lemma DigitExactly(n: nat)
    requires n < 16
    ensures HexDigit(n) == "0123456789ABCDEF"[n] as int
  {
  }

  function Encode(value: Text): Text
  {
    if value == [] then [] else EncodeByte(value[0]) + Encode(value[1..])
  }

  lemma {:induction false} EncodeSnoc(value: Text, b: byte)
    ensures Encode(value + [b]) == Encode(value) + EncodeByte(b)
  {
    hide EncodeByte;
    if value == [] {
      assert [b][1..] == [] && [] + [b] == [b];
      assert EncodeByte(b) + [] == EncodeByte(b) == [] + EncodeByte(b);
    } else {
      assert (value + [b])[1..] == value[1..] + [b];
      EncodeSnoc(value[1..], b);
      assert EncodeByte(value[0]) + (Encode(value[1..]) + EncodeByte(b)) == Encode(value) + EncodeByte(b);
    }
  }

  method EncodeComponent(value: Text) returns (encoded: Text)
    ensures encoded == Encode(value)
  {
    encoded := [];
    for i := 0 to |value|
      invariant encoded == Encode(value[..i])
    {
      assert value[..i + 1] == value[..i] + [value[i]];
      EncodeSnoc(value[..i], value[i]);
      if Unreserved(value[i]) {
        encoded := encoded + [value[i]];
      } else {
        encoded := encoded + [PERCENT, HexDigit(value[i] / 16), HexDigit(value[i] % 16)];
      }
    }
    assert value[..|value|] == value;
  }

  /** Encoded text is unreserved bytes and percent signs: no separator. */
  lemma {:induction false} EncodeClean(value: Text)
    ensures forall b :: b in Encode(value) ==> Unreserved(b) || b == PERCENT
  {
    if value != [] {
      EncodeClean(value[1..]);
      assert forall b :: b in Encode(value) ==> b in EncodeByte(value[0]) || b in Encode(value[1..]);
    }
  }

  lemma {:induction false} EncodePlain(value: Text)
    requires forall i :: 0 <= i < |value| ==> Unreserved(value[i])
    ensures Encode(value) == value
  {
    if value != [] {
      EncodePlain(value[1..]);
      assert value == [value[0]] + value[1..];
    }
  }

  function HexValue(b: byte): Option<nat>
  {
    if 0x30 <= b <= 0x39 then Some(b - 0x30)
    else if 0x41 <= b <= 0x46 then Some(b - 0x41 + 10)
    else if 0x61 <= b <= 0x66 then Some(b - 0x61 + 10)
    else None
  }

  function Unescape(text: Text): Option<Text>
  {
    if text == [] then Some([])
    else if text[0] != PERCENT then
      (match Unescape(text[1..]) case Some(rest) => Some([text[0]] + rest) case None => None)
    else if |text| < 3 || HexValue(text[1]).None? || HexValue(text[2]).None? then None
    else
      (match Unescape(text[3..])
       case Some(rest) => Some([HexValue(text[1]).value * 16 + HexValue(text[2]).value] + rest)
       case None => None)
  }

  function Decode(text: Text): Option<Text>
  {
    match Unescape(text)
    case Some(bytes) => if Utf8(bytes) then Some(bytes) else None
    case None => None
  }

  /** What is left of the input gives what is left of the output. */
  ghost predicate Left(whole: Option<Text>, done: Text, rest: Option<Text>)
  {
    match rest
    case Some(r) => whole == Some(done + r)
    case None => whole == None
  }

  method DecodeLoop(text: Text) returns (r: Option<Text>)
    ensures r == Decode(text)
  {
    hide Utf8;
    var bytes: Text := [];
    var i := 0;
    assert text[0..] == text;
    assert Unescape(text).Some? ==> [] + Unescape(text).value == Unescape(text).value;
    while i < |text|
      invariant 0 <= i <= |text|
      invariant Left(Unescape(text), bytes, Unescape(text[i..]))
    {
      var here := text[i..];
      if text[i] == PERCENT {
        if i + 1 >= |text| || HexValue(text[i + 1]).None? { return None; }
        if i + 2 >= |text| || HexValue(text[i + 2]).None? { return None; }
        assert here[3..] == text[i + 3..] && here[0] == text[i] && here[1] == text[i + 1] && here[2] == text[i + 2];
        var b := HexValue(text[i + 1]).value * 16 + HexValue(text[i + 2]).value;
        LeftStep(Unescape(text), bytes, b, Unescape(text[i + 3..]));
        bytes := bytes + [b];
        i := i + 3;
      } else {
        assert here[1..] == text[i + 1..] && here[0] == text[i];
        LeftStep(Unescape(text), bytes, text[i], Unescape(text[i + 1..]));
        bytes := bytes + [text[i]];
        i := i + 1;
      }
    }
    assert bytes + [] == bytes;
    r := if Utf8(bytes) then Some(bytes) else None;
  }

  lemma LeftStep(whole: Option<Text>, done: Text, b: byte, rest: Option<Text>)
    requires Left(whole, done, if rest.Some? then Some([b] + rest.value) else None)
    ensures Left(whole, done + [b], rest)
  {
    if rest.Some? { assert done + ([b] + rest.value) == (done + [b]) + rest.value; }
  }

  lemma {:induction false} UnescapeEncode(value: Text)
    ensures Unescape(Encode(value)) == Some(value)
  {
    if value != [] {
      UnescapeEncode(value[1..]);
      var rest := Encode(value[1..]);
      var text := Encode(value);
      assert value == [value[0]] + value[1..];
      if Unreserved(value[0]) {
        assert text[1..] == rest;
      } else {
        assert text[0] == PERCENT && text[1] == HexDigit(value[0] / 16) && text[2] == HexDigit(value[0] % 16);
        assert text[3..] == rest;
      }
    }
  }

  /** A hexadecimal digit of either case. */
  predicate Hex(c: byte, n: nat)
  {
    (n < 10 && c as int == 0x30 + n) || (10 <= n < 16 && c as int in {0x41 + n - 10, 0x61 + n - 10})
  }

  /** A byte as it is, or escaped. */
  predicate SpellsByte(part: Text, b: byte)
  {
    || (part == [b] && b != PERCENT)
    || (|part| == 3 && part[0] == PERCENT && Hex(part[1], b / 16) && Hex(part[2], b % 16))
  }

  ghost predicate SpellsBytes(parts: seq<Text>, bytes: Text)
  {
    |parts| == |bytes| && forall i :: 0 <= i < |bytes| ==> SpellsByte(parts[i], bytes[i])
  }

  lemma HexExactly(c: byte, n: nat)
    ensures HexValue(c) == Some(n) <==> Hex(c, n)
  {
  }

  lemma UnescapeFirst(part: Text, b: byte, rest: Text)
    requires SpellsByte(part, b) && Unescape(rest).Some?
    ensures Unescape(part + rest) == Some([b] + Unescape(rest).value)
  {
    hide Hex, HexValue;
    var text := part + rest;
    if |part| == 3 {
      assert text[0] == part[0] && text[1] == part[1] && text[2] == part[2] && text[3..] == rest;
      HexExactly(text[1], b / 16);
      HexExactly(text[2], b % 16);
    } else {
      assert text[0] == b && text[1..] == rest;
    }
  }

  lemma {:induction false} SpelledUnescapes(parts: seq<Text>, bytes: Text)
    requires SpellsBytes(parts, bytes)
    ensures Unescape(Concat(parts)) == Some(bytes)
  {
    hide SpellsByte;
    if parts != [] {
      assert SpellsByte(parts[0], bytes[0]);
      forall i | 0 <= i < |bytes[1..]| ensures SpellsByte(parts[1..][i], bytes[1..][i]) {
        assert SpellsByte(parts[i + 1], bytes[i + 1]);
      }
      SpelledUnescapes(parts[1..], bytes[1..]);
      assert bytes == [bytes[0]] + bytes[1..];
      UnescapeFirst(parts[0], bytes[0], Concat(parts[1..]));
    }
  }

  lemma {:induction false} UnescapedSpells(text: Text) returns (parts: seq<Text>)
    requires Unescape(text).Some?
    ensures Concat(parts) == text && SpellsBytes(parts, Unescape(text).value)
    decreases |text|
  {
    if text == [] {
      parts := [];
    } else {
      var n := if text[0] == PERCENT then 3 else 1;
      var tail := UnescapedSpells(text[n..]);
      parts := [text[..n]] + tail;
      assert parts[1..] == tail && text == text[..n] + text[n..];
      var bytes := Unescape(text).value;
      assert bytes[1..] == Unescape(text[n..]).value;
      if n == 3 {
        HexExactly(text[1], HexValue(text[1]).value);
        HexExactly(text[2], HexValue(text[2]).value);
        DivModUnique(bytes[0], 16, HexValue(text[1]).value, HexValue(text[2]).value);
      }
      assert SpellsByte(parts[0], bytes[0]);
      forall i | 0 <= i < |bytes| ensures SpellsByte(parts[i], bytes[i]) {
        if i > 0 { assert SpellsByte(tail[i - 1], bytes[1..][i - 1]); }
      }
    }
  }

  /** Exactly the texts made of plain bytes and escapes, in either case of the
      digits, that spell characters are decoded, to what they spell. */
  lemma DecodeExactly(text: Text, bytes: Text)
    ensures Decode(text) == Some(bytes) <==>
            IsText(bytes) && exists parts: seq<Text> :: Concat(parts) == text && SpellsBytes(parts, bytes)
  {
    hide Utf8, IsText;
    Utf8Exactly(bytes);
    if Decode(text) == Some(bytes) { var parts := UnescapedSpells(text); }
    if parts: seq<Text> :| Concat(parts) == text && SpellsBytes(parts, bytes) { SpelledUnescapes(parts, bytes); }
  }

  /** Every string survives the trip. */
  lemma RoundTrip(value: Text)
    requires Utf8(value)
    ensures Decode(Encode(value)) == Some(value)
  {
    UnescapeEncode(value);
  }

  // ---------- queries ----------

  function Split(text: Text, sep: byte): (r: seq<Text>)
    ensures |r| >= 1
  {
    if text == [] then [[]]
    else if text[0] == sep then [[]] + Split(text[1..], sep)
    else
      var rest := Split(text[1..], sep);
      [[text[0]] + rest[0]] + rest[1..]
  }

  function SplitOnce(text: Text, sep: byte): Option<(Text, Text)>
  {
    if text == [] then None
    else if text[0] == sep then Some(([], text[1..]))
    else match SplitOnce(text[1..], sep)
      case Some((a, b)) => Some(([text[0]] + a, b))
      case None => None
  }

  lemma {:induction false} SplitOnceAt(a: Text, sep: byte, b: Text)
    requires sep !in a
    ensures SplitOnce(a + [sep] + b, sep) == Some((a, b))
  {
    var text := a + [sep] + b;
    if a == [] {
      assert text[1..] == b;
    } else {
      assert text[1..] == a[1..] + [sep] + b;
      SplitOnceAt(a[1..], sep, b);
      assert a == [a[0]] + a[1..];
    }
  }

  lemma {:induction false} SplitOnceNone(a: Text, sep: byte)
    requires sep !in a
    ensures SplitOnce(a, sep) == None
  {
    if a != [] { SplitOnceNone(a[1..], sep); }
  }

  lemma {:induction false} SplitWhole(a: Text, sep: byte)
    requires sep !in a
    ensures Split(a, sep) == [a]
  {
    if a != [] {
      SplitWhole(a[1..], sep);
      assert a == [a[0]] + a[1..];
    }
  }

  lemma {:induction false} SplitAt(a: Text, sep: byte, b: Text)
    requires sep !in a
    ensures Split(a + [sep] + b, sep) == [a] + Split(b, sep)
  {
    var text := a + [sep] + b;
    if a == [] {
      assert text[1..] == b;
    } else {
      assert text[1..] == a[1..] + [sep] + b;
      SplitAt(a[1..], sep, b);
      assert a == [a[0]] + a[1..];
      assert ([a[1..]] + Split(b, sep))[1..] == Split(b, sep);
    }
  }

  type Values = map<Text, Text>

  function AddPair(values: Values, pair: Text): Option<Values>
  {
    match SplitOnce(pair, EQUALS)
    case None => None
    case Some((k, v)) =>
      match (Decode(k), Decode(v))
      case (Some(key), Some(value)) => if key in values then None else Some(values[key := value])
      case _ => None
  }

  function AddPairs(values: Values, pairs: seq<Text>): Option<Values>
    decreases |pairs|
  {
    if pairs == [] then Some(values)
    else if pairs[0] == [] then AddPairs(values, pairs[1..])
    else match AddPair(values, pairs[0])
      case None => None
      case Some(more) => AddPairs(more, pairs[1..])
  }

  function QueryValues(query: Text): Option<Values> { AddPairs(map[], Split(query, AMPERSAND)) }

  method QueryValuesLoop(query: Text) returns (r: Option<Values>)
    ensures r == QueryValues(query)
  {
    hide Decode, SplitOnce;
    var pairs := Split(query, AMPERSAND);
    var values: Values := map[];
    assert pairs[0..] == pairs;
    for i := 0 to |pairs|
      invariant AddPairs(map[], pairs) == AddPairs(values, pairs[i..])
    {
      TakeNext(pairs, i);
      if pairs[i] == [] { continue; }
      var parts := SplitOnce(pairs[i], EQUALS);
      if parts.None? { return None; }
      var (k, v) := parts.value;
      var key := DecodeLoop(k);
      if key.None? { return None; }
      var value := DecodeLoop(v);
      if value.None? { return None; }
      if key.value in values { return None; }
      values := values[key.value := value.value];
    }
    r := Some(values);
  }

  // ---------- which queries are read ----------

  function Joined(pieces: seq<Text>, sep: byte): Text
  {
    if pieces == [] then []
    else if |pieces| == 1 then pieces[0]
    else pieces[0] + [sep] + Joined(pieces[1..], sep)
  }

  predicate Apart(pieces: seq<Text>, sep: byte)
  {
    pieces != [] && forall i :: 0 <= i < |pieces| ==> sep !in pieces[i]
  }

  lemma {:induction false} SplitJoins(text: Text, sep: byte)
    ensures Apart(Split(text, sep), sep) && Joined(Split(text, sep), sep) == text
  {
    if text != [] {
      var rest := Split(text[1..], sep);
      SplitJoins(text[1..], sep);
      var all := Split(text, sep);
      if text[0] == sep {
        assert all[1..] == rest && Joined(all, sep) == [] + [sep] + Joined(rest, sep);
      } else {
        assert all[1..] == rest[1..];
        assert Joined(all, sep) == [text[0]] + Joined(rest, sep);
      }
      assert text == [text[0]] + text[1..];
    }
  }

  lemma {:induction false} JoinedSplits(pieces: seq<Text>, sep: byte)
    requires Apart(pieces, sep)
    ensures Split(Joined(pieces, sep), sep) == pieces
  {
    hide Split;
    if |pieces| == 1 {
      SplitWhole(pieces[0], sep);
      assert [pieces[0]] == pieces;
    } else {
      assert pieces == [pieces[0]] + pieces[1..];
      assert forall i :: 0 <= i < |pieces[1..]| ==> pieces[1..][i] == pieces[i + 1];
      JoinedSplits(pieces[1..], sep);
      SplitAt(pieces[0], sep, Joined(pieces[1..], sep));
    }
  }

  /** Splitting finds the one way to cut the text at every separator. */
  lemma SplitExactly(text: Text, sep: byte, pieces: seq<Text>)
    ensures Split(text, sep) == pieces <==> Apart(pieces, sep) && Joined(pieces, sep) == text
  {
    SplitJoins(text, sep);
    if Apart(pieces, sep) && Joined(pieces, sep) == text { JoinedSplits(pieces, sep); }
  }

  lemma {:induction false} SplitOnceExactly(text: Text, sep: byte, a: Text, b: Text)
    ensures SplitOnce(text, sep) == Some((a, b)) <==> text == a + [sep] + b && sep !in a
    ensures SplitOnce(text, sep).None? <==> sep !in text
  {
    if text == a + [sep] + b && sep !in a { SplitOnceAt(a, sep, b); }
    SplitOnceCuts(text, sep);
  }

  lemma {:induction false} SplitOnceCuts(text: Text, sep: byte)
    ensures SplitOnce(text, sep).None? <==> sep !in text
    ensures SplitOnce(text, sep).Some? ==>
              var (a, b) := SplitOnce(text, sep).value; text == a + [sep] + b && sep !in a
  {
    if text != [] {
      SplitOnceCuts(text[1..], sep);
      assert text == [text[0]] + text[1..];
    }
  }

  /** A piece of a query: a key and a value around its first equals sign. */
  ghost predicate SaysPair(piece: Text, key: Text, value: Text)
  {
    exists k: Text, v: Text ::
      piece == k + [EQUALS] + v && EQUALS !in k && Decode(k) == Some(key) && Decode(v) == Some(value)
  }

  /** The pairs of the pieces, empty pieces passed over, no key twice. */
  ghost predicate SayPairs(pieces: seq<Text>, named: seq<Option<(Text, Text)>>)
  {
    && |named| == |pieces|
    && (forall i :: 0 <= i < |pieces| ==>
          if pieces[i] == [] then named[i].None?
          else named[i].Some? && SaysPair(pieces[i], named[i].value.0, named[i].value.1))
    && (forall i, j :: 0 <= i < j < |named| && named[i].Some? && named[j].Some? ==>
          named[i].value.0 != named[j].value.0)
  }

  /** The table holds exactly what it held and the pairs. */
  ghost predicate Tabled(before: Values, named: seq<Option<(Text, Text)>>, after: Values)
  {
    && (forall i :: 0 <= i < |named| && named[i].Some? ==> named[i].value.0 !in before)
    && (forall k, v :: Maps(after, k, v) <==> Maps(before, k, v) || Lists(named, k, v))
  }

  ghost predicate Maps(values: Values, k: Text, v: Text) { k in values && values[k] == v }

  ghost predicate Lists(named: seq<Option<(Text, Text)>>, k: Text, v: Text)
  {
    exists i :: 0 <= i < |named| && named[i] == Some((k, v))
  }

  lemma PairExactly(values: Values, piece: Text, key: Text, value: Text)
    requires SaysPair(piece, key, value)
    ensures AddPair(values, piece) == if key in values then None else Some(values[key := value])
  {
    hide Decode, SplitOnce;
    var k: Text, v: Text :|
      piece == k + [EQUALS] + v && EQUALS !in k && Decode(k) == Some(key) && Decode(v) == Some(value);
    SplitOnceExactly(piece, EQUALS, k, v);
  }

  lemma PairSaid(values: Values, piece: Text) returns (key: Text, value: Text)
    requires AddPair(values, piece).Some?
    ensures SaysPair(piece, key, value) && key !in values && AddPair(values, piece) == Some(values[key := value])
  {
    hide Decode, SplitOnce;
    var (k, v) := SplitOnce(piece, EQUALS).value;
    SplitOnceExactly(piece, EQUALS, k, v);
    key, value := Decode(k).value, Decode(v).value;
  }

  lemma {:induction false} PairsAdd(before: Values, pieces: seq<Text>, named: seq<Option<(Text, Text)>>, after: Values)
    requires SayPairs(pieces, named) && Tabled(before, named, after)
    ensures AddPairs(before, pieces) == Some(after)
    decreases |pieces|
  {
    hide AddPair, SaysPair;
    if pieces == [] {
      SameTable(before, after);
    } else {
      var rest, others := pieces[1..], named[1..];
      assert forall i :: 0 <= i < |rest| ==> rest[i] == pieces[i + 1] && others[i] == named[i + 1];
      assert SayPairs(rest, others);
      if pieces[0] == [] {
        TableSkips(before, named, after);
        PairsAdd(before, rest, others, after);
      } else {
        var (key, value) := named[0].value;
        PairExactly(before, pieces[0], key, value);
        TableTakes(before, named, after);
        PairsAdd(before[key := value], rest, others, after);
      }
    }
  }

  lemma SameTable(before: Values, after: Values)
    requires Tabled(before, [], after)
    ensures after == before
  {
    assert forall k, v :: !Lists([], k, v);
    forall k ensures k in before <==> k in after {
      if k in before { assert Maps(before, k, before[k]) && Maps(after, k, before[k]); }
      if k in after { assert Maps(after, k, after[k]) && Maps(before, k, after[k]); }
    }
    forall k | k in before ensures after[k] == before[k] {
      assert Maps(before, k, before[k]) && Maps(after, k, before[k]);
    }
  }

  lemma ListsHead(named: seq<Option<(Text, Text)>>, k: Text, v: Text)
    requires named != []
    ensures Lists(named, k, v) <==> named[0] == Some((k, v)) || Lists(named[1..], k, v)
  {
    if Lists(named, k, v) {
      var i :| 0 <= i < |named| && named[i] == Some((k, v));
      if i > 0 { assert named[1..][i - 1] == Some((k, v)); }
    }
    if Lists(named[1..], k, v) {
      var i :| 0 <= i < |named[1..]| && named[1..][i] == Some((k, v));
      assert named[i + 1] == Some((k, v));
    }
  }

  lemma TableSkips(before: Values, named: seq<Option<(Text, Text)>>, after: Values)
    requires named != [] && named[0].None?
    ensures Tabled(before, named, after) <==> Tabled(before, named[1..], after)
  {
    hide Maps, Lists;
    forall k, v ensures Lists(named, k, v) <==> Lists(named[1..], k, v) { ListsHead(named, k, v); }
    assert forall i :: 0 <= i < |named[1..]| ==> named[1..][i] == named[i + 1];
    assert forall i :: 1 <= i < |named| ==> named[i] == named[1..][i - 1];
  }

  lemma TableTakes(before: Values, named: seq<Option<(Text, Text)>>, after: Values)
    requires named != [] && named[0].Some?
    requires forall i, j :: 0 <= i < j < |named| && named[i].Some? && named[j].Some? ==>
               named[i].value.0 != named[j].value.0
    ensures Tabled(before, named, after) <==>
            && named[0].value.0 !in before
            && Tabled(before[named[0].value.0 := named[0].value.1], named[1..], after)
  {
    hide Lists;
    var (key, value) := named[0].value;
    var mid := before[key := value];
    var rest := named[1..];
    forall k, v ensures Lists(named, k, v) <==> named[0] == Some((k, v)) || Lists(rest, k, v)
    { ListsHead(named, k, v); }
    assert forall i :: 0 <= i < |rest| ==> rest[i] == named[i + 1];
    assert forall i :: 1 <= i < |named| ==> named[i] == rest[i - 1];
    if key !in before {
      forall k, v ensures Maps(mid, k, v) <==> Maps(before, k, v) || named[0] == Some((k, v)) {}
      assert forall k, v :: (Maps(before, k, v) || Lists(named, k, v)) <==> (Maps(mid, k, v) || Lists(rest, k, v));
    }
  }

  lemma {:induction false} PairsSaid(before: Values, pieces: seq<Text>) returns (named: seq<Option<(Text, Text)>>)
    requires AddPairs(before, pieces).Some?
    ensures SayPairs(pieces, named) && Tabled(before, named, AddPairs(before, pieces).value)
    decreases |pieces|
  {
    hide AddPair, SaysPair;
    var after := AddPairs(before, pieces).value;
    if pieces == [] {
      named := [];
    } else if pieces[0] == [] {
      var others := PairsSaid(before, pieces[1..]);
      named := [None] + others;
      assert named[1..] == others;
      TableSkips(before, named, after);
      assert forall i :: 1 <= i < |pieces| ==> pieces[i] == pieces[1..][i - 1] && named[i] == others[i - 1];
    } else {
      var key, value := PairSaid(before, pieces[0]);
      var others := PairsSaid(before[key := value], pieces[1..]);
      named := [Some((key, value))] + others;
      assert named[1..] == others;
      assert forall i :: 1 <= i < |pieces| ==> pieces[i] == pieces[1..][i - 1] && named[i] == others[i - 1];
      TableTakes(before, named, after);
    }
  }

  /** Exactly the queries whose pieces between ampersands are pairs that decode, no
      key twice, are read, and as the table of those pairs. */
  lemma QueryExactly(query: Text, values: Values)
    ensures QueryValues(query) == Some(values) <==>
            exists pieces: seq<Text>, named: seq<Option<(Text, Text)>> ::
              && Apart(pieces, AMPERSAND) && Joined(pieces, AMPERSAND) == query
              && SayPairs(pieces, named) && Tabled(map[], named, values)
  {
    hide AddPairs, SayPairs, Tabled, Split, Apart, Joined;
    SplitExactly(query, AMPERSAND, Split(query, AMPERSAND));
    if QueryValues(query) == Some(values) { var named := PairsSaid(map[], Split(query, AMPERSAND)); }
    if pieces: seq<Text>, named: seq<Option<(Text, Text)>> :|
         && Apart(pieces, AMPERSAND) && Joined(pieces, AMPERSAND) == query
         && SayPairs(pieces, named) && Tabled(map[], named, values)
    {
      SplitExactly(query, AMPERSAND, pieces);
      PairsAdd(map[], pieces, named, values);
    }
  }

  /** A query as a client writes it. */
  function PairText(pair: (Text, Text)): Text { Encode(pair.0) + [EQUALS] + Encode(pair.1) }

  function BuildQuery(pairs: seq<(Text, Text)>): Text
  {
    if pairs == [] then []
    else if |pairs| == 1 then PairText(pairs[0])
    else PairText(pairs[0]) + [AMPERSAND] + BuildQuery(pairs[1..])
  }

  lemma PairClean(pair: (Text, Text))
    ensures AMPERSAND !in PairText(pair) && PairText(pair) != []
    ensures EQUALS !in Encode(pair.0)
  {
    EncodeClean(pair.0);
    EncodeClean(pair.1);
  }

  lemma AddPairText(values: Values, pair: (Text, Text))
    requires Utf8(pair.0) && Utf8(pair.1) && pair.0 !in values
    ensures AddPair(values, PairText(pair)) == Some(values[pair.0 := pair.1])
  {
    hide Utf8, Decode, Encode;
    PairClean(pair);
    SplitOnceAt(Encode(pair.0), EQUALS, Encode(pair.1));
    RoundTrip(pair.0);
    RoundTrip(pair.1);
  }

  ghost predicate Sendable(pairs: seq<(Text, Text)>)
  {
    && (forall i :: 0 <= i < |pairs| ==> Utf8(pairs[i].0) && Utf8(pairs[i].1))
    && (forall i, j :: 0 <= i < j < |pairs| ==> pairs[i].0 != pairs[j].0)
  }

  /** The pairs as a table. */
  function Extend(values: Values, pairs: seq<(Text, Text)>): Values
    decreases |pairs|
  {
    if pairs == [] then values else Extend(values[pairs[0].0 := pairs[0].1], pairs[1..])
  }

  lemma {:induction false} QueryBuilt(values: Values, pairs: seq<(Text, Text)>)
    requires Sendable(pairs) && forall i :: 0 <= i < |pairs| ==> pairs[i].0 !in values
    ensures AddPairs(values, Split(BuildQuery(pairs), AMPERSAND)) == Some(Extend(values, pairs))
    decreases |pairs|
  {
    hide Utf8, AddPair, PairText;
    if pairs == [] {
      assert AddPairs(values, [[]]) == AddPairs(values, [[]][1..]);
    } else {
      var text := PairText(pairs[0]);
      PairClean(pairs[0]);
      AddPairText(values, pairs[0]);
      var more := values[pairs[0].0 := pairs[0].1];
      if |pairs| == 1 {
        SplitWhole(text, AMPERSAND);
        assert Split(BuildQuery(pairs), AMPERSAND)[1..] == [];
        assert pairs[1..] == [];
      } else {
        SplitAt(text, AMPERSAND, BuildQuery(pairs[1..]));
        var rest := Split(BuildQuery(pairs[1..]), AMPERSAND);
        assert ([text] + rest)[1..] == rest;
        assert forall i :: 0 <= i < |pairs[1..]| ==> pairs[1..][i] == pairs[i + 1];
        QueryBuilt(more, pairs[1..]);
      }
    }
  }

  /** The agent reads back exactly the pairs of any query, whatever bytes they hold. */
  lemma QueryRoundTrip(pairs: seq<(Text, Text)>)
    requires Sendable(pairs)
    ensures QueryValues(BuildQuery(pairs)) == Some(Extend(map[], pairs))
  {
    QueryBuilt(map[], pairs);
  }

  // ---------- targets ----------

  /** An ASCII word. */
  function Word(s: string): (r: Text)
    requires forall i :: 0 <= i < |s| ==> s[i] < 128 as char
    ensures |r| == |s| && forall i :: 0 <= i < |s| ==> r[i] == s[i] as int
  {
    if s == "" then [] else [s[0] as int] + Word(s[1..])
  }

  /** The agent's split of a request target. */
  function SplitTarget(target: Text): (Text, Text)
  {
    match SplitOnce(target, QUESTION)
    case Some(parts) => parts
    case None => (target, [])
  }

  predicate IsWord(s: string)
  {
    forall i :: 0 <= i < |s| ==> 'a' <= s[i] <= 'z'
  }

  lemma WordPlain(s: string)
    requires IsWord(s)
    ensures Encode(Word(s)) == Word(s) && Utf8(Word(s))
  {
    EncodePlain(Word(s));
    AsciiUtf8(Word(s));
  }

  lemma {:induction false} AsciiUtf8(b: Text)
    requires forall i :: 0 <= i < |b| ==> b[i] < 0x80
    ensures Utf8(b)
  {
    if b != [] { AsciiUtf8(b[1..]); }
  }

  function Ipam(): Text { Word("/v1/ipam") }

  function Owner(): Text { Word("owner") }

  function Family(): Text { Word("family") }

  function Pool(): Text { Word("pool") }

  /** The parameter names need no escapes and differ. */
  lemma Names()
    ensures Encode(Owner()) == Owner() && Encode(Family()) == Family() && Encode(Pool()) == Pool()
    ensures Utf8(Owner()) && Utf8(Family()) && Utf8(Pool())
    ensures |Owner()| == 5 && |Family()| == 6 && |Pool()| == 4
  {
    hide Encode, Utf8, Word;
    OwnerName();
    FamilyName();
    PoolName();
  }

  lemma OwnerName()
    ensures Encode(Owner()) == Owner() && Utf8(Owner()) && |Owner()| == 5
  {
    hide Encode, Utf8, Word;
    WordPlain("owner");
  }

  lemma FamilyName()
    ensures Encode(Family()) == Family() && Utf8(Family()) && |Family()| == 6
  {
    hide Encode, Utf8, Word;
    WordPlain("family");
  }

  lemma PoolName()
    ensures Encode(Pool()) == Pool() && Utf8(Pool()) && |Pool()| == 4
  {
    hide Encode, Utf8, Word;
    WordPlain("pool");
  }

  /** The query of the client's allocation target. */
  function AllocateQuery(owner: Text, family: Text, pool: Text): Text
  {
    (Owner() + [EQUALS] + Encode(owner))
    + (if family == [] then [] else [AMPERSAND] + (Family() + [EQUALS] + Encode(family)))
    + (if pool == [] then [] else [AMPERSAND] + (Pool() + [EQUALS] + Encode(pool)))
  }

  function AllocateTarget(owner: Text, family: Text, pool: Text): Text
  {
    Ipam() + [QUESTION] + AllocateQuery(owner, family, pool)
  }

  function AllocatePairs(owner: Text, family: Text, pool: Text): seq<(Text, Text)>
  {
    [(Owner(), owner)]
    + (if family == [] then [] else [(Family(), family)])
    + (if pool == [] then [] else [(Pool(), pool)])
  }

  /** The query is that of its pairs. */
  lemma AllocateIsQuery(owner: Text, family: Text, pool: Text)
    ensures AllocateQuery(owner, family, pool) == BuildQuery(AllocatePairs(owner, family, pool))
  {
    hide Encode, Utf8, Owner, Family, Pool, BuildQuery;
    Names();
    var o, f, p := (Owner(), owner), (Family(), family), (Pool(), pool);
    var pairs := AllocatePairs(owner, family, pool);
    BuildFew(o, f, p);
    BuildFew(o, p, f);
    if family == [] && pool == [] {
      assert pairs == [o];
    } else if pool == [] {
      assert pairs == [o, f];
    } else if family == [] {
      assert pairs == [o, p];
    } else {
      assert pairs == [o, f, p];
    }
  }

  lemma BuildFew(a: (Text, Text), b: (Text, Text), c: (Text, Text))
    ensures BuildQuery([a]) == PairText(a)
    ensures BuildQuery([a, b]) == PairText(a) + [AMPERSAND] + PairText(b)
    ensures BuildQuery([a, b, c]) == PairText(a) + [AMPERSAND] + (PairText(b) + [AMPERSAND] + PairText(c))
  {
    hide PairText;
    assert [b, c][1..] == [c] && [a, b][1..] == [b] && [a, b, c][1..] == [b, c];
    assert BuildQuery([b, c]) == PairText(b) + [AMPERSAND] + BuildQuery([c]);
  }

  lemma ExtendOne(v: Values, a: (Text, Text))
    ensures Extend(v, [a]) == v[a.0 := a.1]
  {
    assert |[a][1..]| == 0;
  }

  lemma ExtendTwo(v: Values, a: (Text, Text), b: (Text, Text))
    ensures Extend(v, [a, b]) == v[a.0 := a.1][b.0 := b.1]
  {
    assert [a, b][1..] == [b];
    ExtendOne(v[a.0 := a.1], b);
  }

  lemma ExtendThree(v: Values, a: (Text, Text), b: (Text, Text), c: (Text, Text))
    ensures Extend(v, [a, b, c]) == v[a.0 := a.1][b.0 := b.1][c.0 := c.1]
  {
    assert [a, b, c][1..] == [b, c];
    ExtendTwo(v[a.0 := a.1], b, c);
  }

  lemma IpamPath()
    ensures QUESTION !in Ipam()
  {
    var p := "/v1/ipam";
    assert forall i :: 0 <= i < |p| ==> p[i] != '?';
  }

  /** Owner, family and pool arrive exactly as given, absent when empty. */
  lemma AllocateArrives(owner: Text, family: Text, pool: Text)
    requires Utf8(owner) && Utf8(family) && Utf8(pool)
    ensures var (path, query) := SplitTarget(AllocateTarget(owner, family, pool));
            path == Ipam() && QueryValues(query) == Some(Extend(map[], AllocatePairs(owner, family, pool)))
  {
    hide Encode, Owner, Family, Pool, Utf8, QueryValues, SplitOnce, BuildQuery, AllocateQuery;
    AllocateIsQuery(owner, family, pool);
    IpamPath();
    SplitOnceAt(Ipam(), QUESTION, AllocateQuery(owner, family, pool));
    Names();
    QueryRoundTrip(AllocatePairs(owner, family, pool));
  }

  /** What the three keys then read. */
  lemma AllocateReads(owner: Text, family: Text, pool: Text)
    ensures var values := Extend(map[], AllocatePairs(owner, family, pool));
            && Owner() in values && values[Owner()] == owner
            && (Family() in values <==> family != []) && (family != [] ==> values[Family()] == family)
            && (Pool() in values <==> pool != []) && (pool != [] ==> values[Pool()] == pool)
  {
    hide Owner, Family, Pool, Extend, Word, Encode, Utf8;
    Names();
    var o, f, p := (Owner(), owner), (Family(), family), (Pool(), pool);
    var pairs := AllocatePairs(owner, family, pool);
    if family == [] && pool == [] {
      assert pairs == [o];
      ExtendOne(map[], o);
    } else if pool == [] {
      assert pairs == [o, f];
      ExtendTwo(map[], o, f);
    } else if family == [] {
      assert pairs == [o, p];
      ExtendTwo(map[], o, p);
    } else {
      assert pairs == [o, f, p];
      ExtendThree(map[], o, f, p);
    }
  }

  // ---------- endpoints ----------

  function EndpointPrefix(): Text { Word("/v1/endpoint/") }

  function HealthSuffix(): Text { Word("/healthz") }

  function EndpointPath(id: Text): Text { EndpointPrefix() + Encode(id) }

  datatype Route = Endpoint(id: Option<Text>) | Health(id: Option<Text>) | Elsewhere

  /** Where the agent sends a path. */
  function RouteOf(path: Text): Route
  {
    if !(EndpointPrefix() <= path) then Elsewhere else
    var id := path[|EndpointPrefix()|..];
    if |HealthSuffix()| <= |id| && id[|id| - |HealthSuffix()|..] == HealthSuffix()
    then Health(Decode(id[..|id| - |HealthSuffix()|]))
    else Endpoint(Decode(id))
  }

  lemma HealthStarts()
    ensures |HealthSuffix()| == 8 && HealthSuffix()[0] == SLASH
  {
    assert "/healthz"[0] == '/';
  }

  /** Without a question mark, in text and in bytes. */
  lemma NoQuestion(s: string)
    requires forall i :: 0 <= i < |s| ==> s[i] < 128 as char && s[i] != '?'
    ensures QUESTION !in Word(s)
  {
    hide Word;
  }

  lemma PrefixWord()
    ensures QUESTION !in EndpointPrefix()
  {
    hide Word;
    NoQuestion("/v1/endpoint/");
  }

  lemma SuffixWord()
    ensures QUESTION !in HealthSuffix()
  {
    hide Word;
    NoQuestion("/healthz");
  }

  /** An endpoint target has no query: nothing in it is a question mark. */
  lemma EndpointTargets(id: Text)
    ensures SplitTarget(EndpointPath(id)) == (EndpointPath(id), [])
    ensures SplitTarget(EndpointPath(id) + HealthSuffix()) == (EndpointPath(id) + HealthSuffix(), [])
  {
    hide Encode, SplitOnce, EndpointPrefix, HealthSuffix;
    EncodeClean(id);
    PrefixWord();
    SuffixWord();
    SplitOnceNone(EndpointPath(id), QUESTION);
    SplitOnceNone(EndpointPath(id) + HealthSuffix(), QUESTION);
  }

  /** The agent recovers the endpoint, and never takes its identifier for the
      health sub-route or the other way round. */
  lemma EndpointArrives(id: Text)
    requires Utf8(id)
    ensures SplitTarget(EndpointPath(id)).1 == [] && SplitTarget(EndpointPath(id) + HealthSuffix()).1 == []
    ensures RouteOf(SplitTarget(EndpointPath(id)).0) == Endpoint(Some(id))
    ensures RouteOf(SplitTarget(EndpointPath(id) + HealthSuffix()).0) == Health(Some(id))
  {
    hide *;
    EndpointTargets(id);
    PlainRoute(id);
    HealthRoute(id);
  }

  lemma PlainRoute(id: Text)
    requires Utf8(id)
    ensures RouteOf(EndpointPath(id)) == Endpoint(Some(id))
  {
    hide Word, Decode, Encode, Utf8, EndpointPrefix, HealthSuffix;
    HealthStarts();
    RoundTrip(id);
    EncodeClean(id);
    var prefix, text, suffix := EndpointPrefix(), Encode(id), HealthSuffix();
    assert EndpointPath(id)[|prefix|..] == text;
    assert |suffix| <= |text| ==> text[|text| - |suffix|..][0] in text;
  }

  lemma HealthRoute(id: Text)
    requires Utf8(id)
    ensures RouteOf(EndpointPath(id) + HealthSuffix()) == Health(Some(id))
  {
    hide Word, Decode, Encode, Utf8, EndpointPrefix, HealthSuffix;
    RoundTrip(id);
    var prefix, text, suffix := EndpointPrefix(), Encode(id), HealthSuffix();
    var rest := (EndpointPath(id) + suffix)[|prefix|..];
    assert rest == text + suffix;
    assert rest[|rest| - |suffix|..] == suffix && rest[..|rest| - |suffix|] == text;
  }

  /** Releasing: the address and the pool arrive as given. */
  lemma ReleaseArrives(ip: Text, pool: Text)
    requires Utf8(ip) && Utf8(pool)
    ensures var path := Ipam() + [SLASH] + Encode(ip);
            var query := Pool() + [EQUALS] + Encode(pool);
            && SplitTarget(path + [QUESTION] + query) == (path, query)
            && Decode(path[|Ipam()| + 1..]) == Some(ip)
            && QueryValues(query) == Some(map[Pool() := pool])
  {
    hide Encode, Pool, Utf8, QueryValues, SplitOnce, Decode, BuildQuery, Ipam, Word, Extend;
    var path := Ipam() + [SLASH] + Encode(ip);
    var query := Pool() + [EQUALS] + Encode(pool);
    IpamPath();
    EncodeClean(ip);
    Names();
    var pair := (Pool(), pool);
    BuildFew(pair, pair, pair);
    QueryRoundTrip([pair]);
    ExtendOne(map[], pair);
    SplitOnceAt(path, QUESTION, query);
    assert path[|Ipam()| + 1..] == Encode(ip);
    RoundTrip(ip);
  }
}
