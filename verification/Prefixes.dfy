/** Address prefixes and their NLRI encoding
    (crates/flowsdn-bgp-proto/src/update.rs; section 4.3 of RFC 4271). */
module Prefixes {
  import opened Bytes
  import opened Arith
  import opened Framing

  /** An address block: `address` is the big-endian value of its octets. */
  datatype Prefix = Prefix(v6: bool, address: nat, bits: nat)

  type UpdateResult<T> = Result<T, ProtocolError>

  function UpdateError(subcode: byte, structural: bool): ProtocolError
  {
    ProtocolError(3, subcode, if structural then AttributeStructure else UpdateContent)
  }

  function Octets(v6: bool): nat { if v6 then 16 else 4 }

  function Width(v6: bool): nat { 8 * Octets(v6) }

  function CeilBytes(bits: nat): nat { (bits + 7) / 8 }

  /** Clear the host bits (shift right, then left). */
  function Mask(v6: bool, address: nat, bits: nat): nat
    requires bits <= Width(v6)
  {
    MultipleBelow(address, Pow2(Width(v6) - bits));
    address / Pow2(Width(v6) - bits) * Pow2(Width(v6) - bits)
  }

  function NewPrefix(v6: bool, address: nat, bits: nat): UpdateResult<Prefix>
  {
    if bits > Width(v6) then Err(UpdateError(10, false))
    else Ok(Prefix(v6, Mask(v6, address, bits), bits))
  }

  /** What `NewPrefix` returns: in range and with no host bit set. */
  ghost predicate Canonical(p: Prefix)
  {
    && p.bits <= Width(p.v6)
    && p.address < Pow2(Width(p.v6))
    && p.address % Pow2(Width(p.v6) - p.bits) == 0
  }

  lemma NewPrefixCanonical(v6: bool, address: nat, bits: nat)
    requires address < Pow2(Width(v6)) && bits <= Width(v6)
    ensures Canonical(NewPrefix(v6, address, bits).value)
    ensures Canonical(Prefix(v6, address, bits)) ==>
              NewPrefix(v6, address, bits) == Ok(Prefix(v6, address, bits))
  {
    var m := Pow2(Width(v6) - bits);
    DivMod(address, m);
    MultipleMod(m, address / m);
  }

  function EncodePrefix(p: Prefix): (r: seq<byte>)
    requires Canonical(p)
    ensures |r| == 1 + CeilBytes(p.bits) <= 17
  {
    [p.bits] + BeBytes(p.address, Octets(p.v6))[..CeilBytes(p.bits)]
  }

  /** The NLRI of a list of prefixes. */
  function Nlri(ps: seq<Prefix>): seq<byte>
    requires forall p :: p in ps ==> Canonical(p)
  {
    if ps == [] then [] else EncodePrefix(ps[0]) + Nlri(ps[1..])
  }

  lemma {:induction false} NlriSplit(a: seq<Prefix>, b: seq<Prefix>)
    requires forall p :: p in a ==> Canonical(p)
    requires forall p :: p in b ==> Canonical(p)
    ensures Nlri(a + b) == Nlri(a) + Nlri(b)
  {
    if a == [] {
      assert a + b == b;
    } else {
      assert (a + b)[1..] == a[1..] + b;
      NlriSplit(a[1..], b);
    }
  }

  function Zeros(n: nat): (r: seq<byte>)
    ensures |r| == n
  {
    if n == 0 then [] else Zeros(n - 1) + [0]
  }

  /** Read prefixes until the bytes end. */
  function ReadPrefixes(bytes: seq<byte>, v6: bool): UpdateResult<seq<Prefix>>
    decreases |bytes|
  {
    if bytes == [] then Ok([]) else
    var bits := bytes[0];
    if bits > Width(v6) then Err(UpdateError(10, false)) else
    var end := 1 + CeilBytes(bits);
    if |bytes| < end then Err(UpdateError(10, false)) else
    var first :- NewPrefix(v6, BeValue(bytes[1..end] + Zeros(Octets(v6) - CeilBytes(bits))), bits);
    var rest :- ReadPrefixes(bytes[end..], v6);
    Ok([first] + rest)
  }

  method ReadPrefixesLoop(input: seq<byte>, v6: bool) returns (r: UpdateResult<seq<Prefix>>)
    ensures r == ReadPrefixes(input, v6)
  {
    var bytes, result := input, [];
    ExtendsStart(ReadPrefixes(bytes, v6));
    while bytes != []
      invariant Extends(ReadPrefixes(input, v6), result, ReadPrefixes(bytes, v6))
      decreases |bytes|
    {
      var bits := bytes[0];
      if bits > Width(v6) { return Err(UpdateError(10, false)); }
      var end := 1 + CeilBytes(bits);
      if |bytes| < end { return Err(UpdateError(10, false)); }
      var ip := bytes[1..end] + Zeros(Octets(v6) - CeilBytes(bits));
      var prefix := NewPrefix(v6, BeValue(ip), bits);
      ExtendsStep(ReadPrefixes(input, v6), result, [prefix.value], ReadPrefixes(bytes[end..], v6));
      result := result + [prefix.value];
      bytes := bytes[end..];
    }
    assert result + [] == result;
    r := Ok(result);
  }

  lemma ShiftByte(n: nat, m: nat)
    requires m > 0 && n % (0x100 * m) == 0
    ensures n % 0x100 == 0 && (n / 0x100) % m == 0
  {
    var q := n / (0x100 * m);
    assert n == (0x100 * m) * q + 0;
    assert (0x100 * m) * q == (m * q) * 0x100;
    DivModUnique(n, 0x100, m * q, 0);
    MultipleMod(m, q);
  }

  lemma {:induction false} BeTrailingZeros(n: nat, len: nat, zeros: nat)
    requires zeros <= len && n % Pow2(8 * zeros) == 0
    ensures BeBytes(n, len) == BeBytes(n, len)[..len - zeros] + Zeros(zeros)
  {
    if zeros > 0 {
      assert Pow2(8 * zeros) == 0x100 * Pow2(8 * (zeros - 1)) by { Pow2Byte(8 * (zeros - 1)); }
      ShiftByte(n, Pow2(8 * (zeros - 1)));
      BeTrailingZeros(n / 0x100, len - 1, zeros - 1);
      var head := BeBytes(n / 0x100, len - 1);
      assert BeBytes(n, len) == head + [0];
      assert BeBytes(n, len)[..len - zeros] == head[..len - zeros];
    }
  }

  /** The octets that are not sent are zero. */
  lemma UnsentOctets(p: Prefix)
    requires Canonical(p)
    ensures BeBytes(p.address, Octets(p.v6)) ==
            BeBytes(p.address, Octets(p.v6))[..CeilBytes(p.bits)] + Zeros(Octets(p.v6) - CeilBytes(p.bits))
  {
    hide Pow2, BeBytes;
    var zeros := Octets(p.v6) - CeilBytes(p.bits);
    DividesDown(p.address, 8 * zeros, Width(p.v6) - p.bits);
    BeTrailingZeros(p.address, Octets(p.v6), zeros);
  }

  lemma ReadStep(bytes: seq<byte>, v6: bool, k: nat, p: Prefix)
    requires bytes != [] && bytes[0] <= Width(v6) && k == CeilBytes(bytes[0]) && |bytes| >= 1 + k
    requires NewPrefix(v6, BeValue(bytes[1..1 + k] + Zeros(Octets(v6) - k)), bytes[0]) == Ok(p)
    ensures ReadPrefixes(bytes, v6) ==
            match ReadPrefixes(bytes[1 + k..], v6) { case Ok(ps) => Ok([p] + ps) case Err(e) => Err(e) }
  {
  }

  lemma EncodedOctets(p: Prefix, rest: seq<byte>)
    requires Canonical(p)
    ensures var k, bytes := CeilBytes(p.bits), EncodePrefix(p) + rest;
            && bytes[0] == p.bits && bytes[1 + k..] == rest
            && BeValue(bytes[1..1 + k] + Zeros(Octets(p.v6) - k)) == p.address
  {
    var len, k := Octets(p.v6), CeilBytes(p.bits);
    var full := BeBytes(p.address, len);
    assert (EncodePrefix(p) + rest)[1..1 + k] == full[..k];
    UnsentOctets(p);
    BeRoundTrip(p.address, len);
  }

  /** One canonical prefix is read back whatever follows it. */
  lemma ReadEncodedPrefix(p: Prefix, rest: seq<byte>)
    requires Canonical(p)
    ensures ReadPrefixes(EncodePrefix(p) + rest, p.v6) ==
            match ReadPrefixes(rest, p.v6) { case Ok(ps) => Ok([p] + ps) case Err(e) => Err(e) }
  {
    EncodedOctets(p, rest);
    NewPrefixCanonical(p.v6, p.address, p.bits);
    ReadStep(EncodePrefix(p) + rest, p.v6, CeilBytes(p.bits), p);
  }

  lemma NothingRead(v6: bool)
    ensures ReadPrefixes([], v6) == Ok([])
  {
  }

  /** NLRI conservation: what is written is what is read, in order. */
  lemma {:induction false} ReadNlri(ps: seq<Prefix>, v6: bool)
    requires forall p :: p in ps ==> Canonical(p) && p.v6 == v6
    ensures ReadPrefixes(Nlri(ps), v6) == Ok(ps)
  {
    hide Canonical, EncodePrefix, ReadPrefixes;
    if ps == [] {
      assert ReadPrefixes([], v6) == Ok([]) by { NothingRead(v6); }
    } else {
      ReadNlri(ps[1..], v6);
      ReadEncodedPrefix(ps[0], Nlri(ps[1..]));
      assert [ps[0]] + ps[1..] == ps;
    }
  }

  /** Everything the reader returns is canonical and of the right family. */
  lemma {:induction false} ReadCanonical(bytes: seq<byte>, v6: bool)
    requires ReadPrefixes(bytes, v6).Ok?
    ensures forall p :: p in ReadPrefixes(bytes, v6).value ==> Canonical(p) && p.v6 == v6
    decreases |bytes|
  {
    hide BeValue, Zeros, Pow2, Canonical;
    if bytes != [] {
      var bits := bytes[0];
      var end := 1 + CeilBytes(bits);
      ReadCanonical(bytes[end..], v6);
      var ip := bytes[1..end] + Zeros(Octets(v6) - CeilBytes(bits));
      BeValueBound(ip);
      NewPrefixCanonical(v6, BeValue(ip), bits);
    }
  }

  // ---------- what the reader accepts ----------

  /** One prefix on the wire: its length in bits, then as many octets as that takes.
      It is the prefix whose leading bits those are and whose other bits are zero. */
  ghost predicate SpellsOne(part: seq<byte>, v6: bool, p: Prefix)
  {
    && part != [] && part[0] as int == p.bits && p.bits <= (if v6 then 128 else 32)
    && |part| == 1 + (p.bits + 7) / 8 && p.v6 == v6 && Canonical(p)
    && p.address / Pow2(Width(v6) - p.bits)
       == BeValue(part[1..] + Zeros(Octets(v6) - (|part| - 1))) / Pow2(Width(v6) - p.bits)
  }

  ghost predicate SpellsAll(parts: seq<seq<byte>>, v6: bool, ps: seq<Prefix>)
  {
    |parts| == |ps| && forall i :: 0 <= i < |ps| ==> SpellsOne(parts[i], v6, ps[i])
  }

  /** The bytes are these prefixes, one after the other. */
  ghost predicate Spells(bytes: seq<byte>, v6: bool, ps: seq<Prefix>)
  {
    exists parts: seq<seq<byte>> :: Concat(parts) == bytes && SpellsAll(parts, v6, ps)
  }

  /** A canonical prefix is its leading bits. */
  lemma LeadingBits(v6: bool, address: nat, bits: nat, p: Prefix)
    requires bits <= Width(v6) && address < Pow2(Width(v6))
    ensures NewPrefix(v6, address, bits) == Ok(p) <==>
            && p.v6 == v6 && p.bits == bits && Canonical(p)
            && p.address / Pow2(Width(v6) - bits) == address / Pow2(Width(v6) - bits)
  {
    hide Pow2;
    var m := Pow2(Width(v6) - bits);
    NewPrefixCanonical(v6, address, bits);
    if p.v6 == v6 && p.bits == bits && Canonical(p) { SameQuotient(address, p.address, m); }
  }

  lemma ReadOne(bytes: seq<byte>, v6: bool, p: Prefix)
    requires bytes != [] && bytes[0] <= Width(v6) && |bytes| >= 1 + CeilBytes(bytes[0])
    ensures var k := CeilBytes(bytes[0]);
            NewPrefix(v6, BeValue(bytes[1..1 + k] + Zeros(Octets(v6) - k)), bytes[0]) == Ok(p) <==>
            SpellsOne(bytes[..1 + k], v6, p)
  {
    hide Pow2, BeValue, Zeros;
    var k := CeilBytes(bytes[0]);
    var part := bytes[..1 + k];
    assert part[1..] == bytes[1..1 + k];
    BeValueBound(bytes[1..1 + k] + Zeros(Octets(v6) - k));
    LeadingBits(v6, BeValue(bytes[1..1 + k] + Zeros(Octets(v6) - k)), bytes[0], p);
  }

  lemma {:induction false} ReadSpells(bytes: seq<byte>, v6: bool)
    ensures ReadPrefixes(bytes, v6).Ok? ==> Spells(bytes, v6, ReadPrefixes(bytes, v6).value)
    ensures ReadPrefixes(bytes, v6).Err? ==> ReadPrefixes(bytes, v6).error == UpdateError(10, false)
    decreases |bytes|
  {
    hide Pow2, BeValue, Zeros, SpellsOne;
    if bytes == [] {
      var none: seq<seq<byte>> := [];
      assert Concat(none) == [] && SpellsAll(none, v6, []);
    } else if bytes[0] <= Width(v6) && |bytes| >= 1 + CeilBytes(bytes[0]) {
      var end := 1 + CeilBytes(bytes[0]);
      ReadSpells(bytes[end..], v6);
      if ReadPrefixes(bytes, v6).Ok? {
        var ps := ReadPrefixes(bytes, v6).value;
        ReadOne(bytes, v6, ps[0]);
        assert ps[1..] == ReadPrefixes(bytes[end..], v6).value;
        var rest: seq<seq<byte>> :| Concat(rest) == bytes[end..] && SpellsAll(rest, v6, ps[1..]);
        var parts := [bytes[..end]] + rest;
        assert parts[1..] == rest && Concat(parts) == bytes;
        forall i | 0 <= i < |ps| ensures SpellsOne(parts[i], v6, ps[i]) {
          if i > 0 { assert SpellsOne(rest[i - 1], v6, ps[1..][i - 1]); }
        }
        assert SpellsAll(parts, v6, ps);
      }
    }
  }

  lemma {:induction false} SpellsRead(parts: seq<seq<byte>>, v6: bool, ps: seq<Prefix>)
    requires SpellsAll(parts, v6, ps)
    ensures ReadPrefixes(Concat(parts), v6) == Ok(ps)
  {
    hide Pow2, BeValue, Zeros, ReadPrefixes;
    if parts == [] {
      NothingRead(v6);
    } else {
      var bytes, rest := Concat(parts), Concat(parts[1..]);
      assert SpellsOne(parts[0], v6, ps[0]);
      var k := CeilBytes(ps[0].bits);
      assert bytes[..1 + k] == parts[0] && bytes[1 + k..] == rest && bytes[0] == parts[0][0];
      ReadOne(bytes, v6, ps[0]);
      ReadStep(bytes, v6, k, ps[0]);
      forall i | 0 <= i < |ps[1..]| ensures SpellsOne(parts[1..][i], v6, ps[1..][i]) {
        assert SpellsOne(parts[i + 1], v6, ps[i + 1]);
      }
      SpellsRead(parts[1..], v6, ps[1..]);
      assert [ps[0]] + ps[1..] == ps;
    }
  }

  /** The reader accepts exactly the bytes that are prefixes one after the other,
      and gives those prefixes; every refusal is an invalid network field. */
  lemma ReadExactly(bytes: seq<byte>, v6: bool, ps: seq<Prefix>)
    ensures ReadPrefixes(bytes, v6) == Ok(ps) <==> Spells(bytes, v6, ps)
    ensures ReadPrefixes(bytes, v6).Err? ==> ReadPrefixes(bytes, v6).error == UpdateError(10, false)
  {
    hide ReadPrefixes, SpellsAll;
    ReadSpells(bytes, v6);
    if Spells(bytes, v6, ps) {
      var parts: seq<seq<byte>> :| Concat(parts) == bytes && SpellsAll(parts, v6, ps);
      SpellsRead(parts, v6, ps);
    }
  }
}
