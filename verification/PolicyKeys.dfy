/** Policy map keys and when a longest-prefix map holds a packet's fields
    (crates/flowsdn-bpf-abi/src/policy.rs:5-60, 190-236). */
module PolicyKeys {
  import opened Bytes
  import opened Arith
  import opened Ports
  import opened PolicyLowering

  datatype PolicyKey = PolicyKey(prefixlen: u32, identity: u32, egress: byte, protocol: byte, dport: u16)

  datatype EndpointKey =
    EndpointKey(prefixlen: u32, endpoint: u32, identity: u32, egress: byte, protocol: byte, dport: u16)

  function Flag(b: bool): byte { if b then 1 else 0 }

  function NewPolicyKey(identity: u32, egress: bool, protocol: byte, port: u16, prefix: byte): (r: Option<PolicyKey>)
    ensures r.Some? <==> WellFormed(Key(identity, protocol, port, prefix))
  {
    if prefix > 16 || (protocol == 0 && (prefix != 0 || port != 0)) then None
    else
      var prefixlen := if protocol == 0 then 40 else 48 + prefix;
      Some(PolicyKey(prefixlen, identity, Flag(egress), protocol, Masked(port, prefix)))
  }

  /** A key is made exactly for the well-formed rules, and two rules get one key
      exactly when they are of one identity and direction and match the same
      packets. */
  lemma SameKeyExactly(a: Key, x: bool, b: Key, y: bool)
    ensures var k := NewPolicyKey(a.identity, x, a.protocol, a.port, a.prefix);
            var l := NewPolicyKey(b.identity, y, b.protocol, b.port, b.prefix);
            && (k.Some? <==> WellFormed(a))
            && (k.Some? && l.Some? ==>
                  (k == l <==> a.identity == b.identity && x == y && forall p :: L4Matches(a, p) <==> L4Matches(b, p)))
  {
    hide Masked;
    if WellFormed(a) && WellFormed(b) && forall p :: L4Matches(a, p) <==> L4Matches(b, p) {
      SubsetHolds(a, b);
      SubsetHolds(b, a);
    }
  }

  function ForEndpoint(endpoint: u32, key: PolicyKey): EndpointKey
    requires key.prefixlen + 32 <= U32_MAX
  {
    EndpointKey(key.prefixlen + 32, endpoint, key.identity, key.egress, key.protocol, key.dport)
  }

  /** The map key of a rule key. */
  function Encoded(endpoint: u32, egress: bool, k: Key): EndpointKey
    requires WellFormed(k)
  {
    ForEndpoint(endpoint, NewPolicyKey(k.identity, egress, k.protocol, k.port, k.prefix).value)
  }

  function LittleEndian(x: u32): (r: seq<byte>)
    ensures |r| == 4
  {
    var y := x / 0x100;
    var z := y / 0x100;
    [x % 0x100, y % 0x100, z % 0x100, z / 0x100]
  }

  /** The twelve bytes the trie compares, in order. */
  function TrieBytes(k: EndpointKey): (r: seq<byte>)
    ensures |r| == 12
  {
    LittleEndian(k.endpoint) + LittleEndian(k.identity) + [k.egress, k.protocol] + U16Bytes(k.dport)
  }

  function LittleValue(b: seq<byte>): nat
    requires |b| == 4
  {
    b[0] as int + 0x100 * (b[1] as int + 0x100 * (b[2] as int + 0x100 * (b[3] as int)))
  }

  /** Where the kernel finds each field: endpoint and identity in little-endian
      order, the direction, the protocol, and the port in network order. */
  lemma TrieLayout(k: EndpointKey)
    ensures var b := TrieBytes(k);
            && LittleValue(b[0..4]) == k.endpoint && LittleValue(b[4..8]) == k.identity
            && b[8] == k.egress && b[9] == k.protocol && 0x100 * b[10] as int + b[11] as int == k.dport
  {
    hide LittleEndian;
    var b := TrieBytes(k);
    assert b[0..4] == LittleEndian(k.endpoint) && b[4..8] == LittleEndian(k.identity);
    LittleEndianValue(k.endpoint);
    LittleEndianValue(k.identity);
  }

  /** Agreement on the first `n` bits of two byte strings. */
  predicate SamePrefix(a: seq<byte>, b: seq<byte>, n: nat)
    requires |a| == |b| == 12 && n <= 96
  {
    && a[..n / 8] == b[..n / 8]
    && (n % 8 != 0 ==> a[n / 8] / Pow2(8 - n % 8) == b[n / 8] / Pow2(8 - n % 8))
  }

  /** Key `k` holds the looked-up fields. */
  predicate Hits(k: EndpointKey, sought: EndpointKey)
  {
    k.prefixlen <= 96 && SamePrefix(TrieBytes(k), TrieBytes(sought), k.prefixlen)
  }

  function Sought(endpoint: u32, identity: u32, egress: bool, p: Packet): EndpointKey
  {
    EndpointKey(96, endpoint, identity, Flag(egress), p.protocol, p.port)
  }

  // ---------- when an encoded key is hit ----------

  lemma LittleEndianValue(x: u32)
    ensures var b := LittleEndian(x);
            x == b[0] as int + 0x100 * (b[1] as int + 0x100 * (b[2] as int + 0x100 * (b[3] as int)))
  {
    var y := x / 0x100;
    var z := y / 0x100;
    assert x == 0x100 * y + x % 0x100 && y == 0x100 * z + y % 0x100 && z == 0x100 * (z / 0x100) + z % 0x100;
  }

  lemma LittleEndianInjective(x: u32, y: u32)
    ensures LittleEndian(x) == LittleEndian(y) <==> x == y
  {
    hide LittleEndian;
    LittleEndianValue(x);
    LittleEndianValue(y);
  }

  /** The high bits of a two-byte number, high byte first. */
  lemma SplitQuotient(x: u16, s: nat, t: nat)
    requires s > 0 && t > 0 && s * t == 0x100
    ensures x / s == t * (x / 0x100) + (x % 0x100) / s && (x % 0x100) / s < t
  {
    var hi, lo := x / 0x100, x % 0x100;
    DivMod(lo, s);
    MulAssoc(s, t, hi);
    Distribute(s, t * hi, lo / s);
    DivModUnique(x, s, t * hi + lo / s, lo % s);
    MulCancel(s, lo / s, t);
  }

  lemma QuotientPairs(t: nat, a: int, b: int, c: int, d: int)
    requires t > 0 && 0 <= b < t && 0 <= d < t
    ensures t * a + b == t * c + d <==> a == c && b == d
  {
    DivModUnique(t * a + b, t, a, b);
    DivModUnique(t * c + d, t, c, d);
  }

  predicate PortBitsEqual(x: u16, y: u16, prefix: nat)
    requires prefix <= 16
  {
    && U16Bytes(x)[..prefix / 8] == U16Bytes(y)[..prefix / 8]
    && (prefix % 8 != 0 ==>
          U16Bytes(x)[prefix / 8] / Pow2(8 - prefix % 8) == U16Bytes(y)[prefix / 8] / Pow2(8 - prefix % 8))
  }

  lemma PortBitsShort(x: u16, y: u16, prefix: nat)
    requires 0 < prefix < 8
    ensures PortBitsEqual(x, y, prefix) <==> x / Size(prefix) == y / Size(prefix)
  {
    hide Pow2;
    Pow2Eight();
    Pow2Factor(8, 16 - prefix);
    DivTwice(x, 0x100, Pow2(8 - prefix));
    DivTwice(y, 0x100, Pow2(8 - prefix));
    assert U16Bytes(x)[..0] == U16Bytes(y)[..0] == [];
  }

  lemma PortBitsLong(x: u16, y: u16, prefix: nat)
    requires 8 < prefix < 16
    ensures PortBitsEqual(x, y, prefix) <==> x / Size(prefix) == y / Size(prefix)
  {
    hide Pow2;
    Pow2Eight();
    var s, t := Pow2(16 - prefix), Pow2(prefix - 8);
    Pow2Factor(16 - prefix, 8);
    SplitQuotient(x, s, t);
    SplitQuotient(y, s, t);
    DivMod(x % 0x100, s);
    DivMod(y % 0x100, s);
    QuotientPairs(t, x / 0x100, (x % 0x100) / s, y / 0x100, (y % 0x100) / s);
    assert U16Bytes(x)[..1] == [x / 0x100] && U16Bytes(y)[..1] == [y / 0x100];
    assert prefix / 8 == 1 && prefix % 8 == prefix - 8;
  }

  lemma PortBitsWhole(x: u16, y: u16, prefix: nat)
    requires prefix in {0, 8, 16}
    ensures PortBitsEqual(x, y, prefix) <==> x / Size(prefix) == y / Size(prefix)
  {
    Pow2Eight();
    Pow2Sixteen();
    var a, b := U16Bytes(x), U16Bytes(y);
    assert a[..0] == b[..0];
    assert a[..1] == [x / 0x100] && b[..1] == [y / 0x100];
    assert a[..2] == [x / 0x100, x % 0x100] && b[..2] == [y / 0x100, y % 0x100];
    if prefix == 8 { assert a[..1] == b[..1] <==> a[0] == b[0]; }
    if prefix == 16 { assert a[..2] == b[..2] <==> a[0] == b[0] && a[1] == b[1]; }
  }

  /** Comparing the first bits of the port bytes is comparing masked ports. */
  lemma PortBits(x: u16, y: u16, prefix: nat)
    requires prefix <= 16
    ensures PortBitsEqual(x, y, prefix) <==> Masked(x, prefix) == Masked(y, prefix)
  {
    hide PortBitsEqual, Size, RoundDown;
    RoundDownEqual(x, y, Size(prefix));
    if 0 < prefix < 8 { PortBitsShort(x, y, prefix); }
    else if 8 < prefix < 16 { PortBitsLong(x, y, prefix); }
    else { PortBitsWhole(x, y, prefix); }
  }

  lemma Pow2Eight()
    ensures Pow2(8) == 0x100 && Pow2(0) == 1
  {
  }

  lemma MaskedTwice(port: u16, prefix: nat)
    requires prefix <= 16
    ensures Masked(Masked(port, prefix), prefix) == Masked(port, prefix)
  {
    hide Pow2;
    DivMod(port, Size(prefix));
    MultipleMod(Size(prefix), port / Size(prefix));
  }

  lemma HeadFields(a: EndpointKey)
    ensures TrieBytes(a)[..9] == LittleEndian(a.endpoint) + LittleEndian(a.identity) + [a.egress]
    ensures TrieBytes(a)[9] == a.protocol && TrieBytes(a)[10..] == U16Bytes(a.dport)
  {
    hide LittleEndian, U16Bytes;
  }

  lemma HeadsEqual(a: EndpointKey, b: EndpointKey)
    ensures TrieBytes(a)[..9] == TrieBytes(b)[..9] <==>
            a.endpoint == b.endpoint && a.identity == b.identity && a.egress == b.egress
  {
    hide LittleEndian, U16Bytes;
    HeadFields(a);
    HeadFields(b);
    LittleEndianInjective(a.endpoint, b.endpoint);
    LittleEndianInjective(a.identity, b.identity);
    var x, y := TrieBytes(a)[..9], TrieBytes(b)[..9];
    assert x[..4] == LittleEndian(a.endpoint) && x[4..8] == LittleEndian(a.identity) && x[8] == a.egress;
    assert y[..4] == LittleEndian(b.endpoint) && y[4..8] == LittleEndian(b.identity) && y[8] == b.egress;
  }

  lemma TailsEqual(h: seq<byte>, k: seq<byte>, p: byte, q: byte, u: seq<byte>, v: seq<byte>)
    requires |h| == |k| && |u| == |v|
    ensures h + [p] + u == k + [q] + v <==> h == k && p == q && u == v
  {
    var x, y := h + [p] + u, k + [q] + v;
    assert x[..|h|] == h && x[|h|] == p && x[|h| + 1..] == u;
    assert y[..|h|] == k && y[|h|] == q && y[|h| + 1..] == v;
  }

  /** Prefix agreement, field by field. */
  lemma FieldsAgree(a: EndpointKey, b: EndpointKey, n: nat)
    requires n == 72 || 80 <= n <= 96
    ensures SamePrefix(TrieBytes(a), TrieBytes(b), n) <==>
            && a.endpoint == b.endpoint && a.identity == b.identity && a.egress == b.egress
            && (n != 72 ==> a.protocol == b.protocol && PortBitsEqual(a.dport, b.dport, n - 80))
  {
    hide LittleEndian, U16Bytes, Pow2;
    var x, y := TrieBytes(a), TrieBytes(b);
    LittleEndianInjective(a.endpoint, b.endpoint);
    LittleEndianInjective(a.identity, b.identity);
    HeadFields(a);
    HeadFields(b);
    HeadsEqual(a, b);
    if n != 72 {
      var m := (n - 80) / 8;
      var u, v := U16Bytes(a.dport), U16Bytes(b.dport);
      assert n / 8 == 10 + m && n % 8 == (n - 80) % 8;
      assert x[..10 + m] == x[..9] + [a.protocol] + u[..m];
      assert y[..10 + m] == y[..9] + [b.protocol] + v[..m];
      TailsEqual(x[..9], y[..9], a.protocol, b.protocol, u[..m], v[..m]);
    }
  }

  /** A rule's map key is hit exactly by its endpoint, direction and identity
      with a packet the rule matches. */
  lemma EncodedHits(endpoint: u32, egress: bool, k: Key, e: u32, identity: u32, g: bool, p: Packet)
    requires WellFormed(k)
    ensures Hits(Encoded(endpoint, egress, k), Sought(e, identity, g, p)) <==>
            endpoint == e && k.identity == identity && egress == g && L4Matches(k, p)
  {
    hide TrieBytes, SamePrefix, PortBitsEqual, Masked;
    var key := Encoded(endpoint, egress, k);
    FieldsAgree(key, Sought(e, identity, g, p), key.prefixlen);
    PortBits(key.dport, p.port, k.prefix);
    MaskedTwice(k.port, k.prefix);
  }

  /** A key with at least the static bits agrees on endpoint and direction. */
  lemma LongHit(at: EndpointKey, sought: EndpointKey)
    requires at.prefixlen >= 72 && Hits(at, sought)
    ensures at.endpoint == sought.endpoint && at.egress == sought.egress
  {
    hide TrieBytes;
    var x, y := TrieBytes(at), TrieBytes(sought);
    var n := at.prefixlen;
    assert x[..n / 8][..9] == x[..9] && y[..n / 8][..9] == y[..9];
    HeadsEqual(at, sought);
  }

  lemma HitLength(k: EndpointKey, sought: EndpointKey)
    requires Hits(k, sought)
    ensures k.prefixlen <= 96
  {
  }

  lemma SamePrefixlen(endpoint: u32, egress: bool, k: Key)
    requires WellFormed(k)
    ensures Encoded(endpoint, egress, k).prefixlen == Encoded(0, false, k).prefixlen
  {
  }

  // ---------- keys as rules write them ----------

  predicate CanonicalKey(at: EndpointKey)
  {
    && at.egress <= 1
    && if at.protocol == 0 then at.prefixlen == 72 && at.dport == 0
       else 80 <= at.prefixlen <= 96 && Masked(at.dport, at.prefixlen - 80) == at.dport
  }

  lemma EncodedCanonical(endpoint: u32, egress: bool, k: Key)
    requires WellFormed(k)
    ensures CanonicalKey(Encoded(endpoint, egress, k))
  {
    hide Masked;
    MaskedTwice(k.port, k.prefix);
    assert Masked(0, 0) == 0 by { MaskedZero(); }
  }

  lemma MaskedZero()
    ensures Masked(0, 0) == 0
  {
  }

  /** Two rule keys of one length that both hold the fields are one key. */
  lemma LongestUnique(a: EndpointKey, b: EndpointKey, sought: EndpointKey)
    requires CanonicalKey(a) && CanonicalKey(b) && a.prefixlen == b.prefixlen
    requires Hits(a, sought) && Hits(b, sought)
    ensures a == b
  {
    hide TrieBytes, SamePrefix, PortBitsEqual, Masked;
    FieldsAgree(a, sought, a.prefixlen);
    FieldsAgree(b, sought, b.prefixlen);
    if a.protocol != 0 {
      PortBits(a.dport, sought.dport, a.prefixlen - 80);
      PortBits(b.dport, sought.dport, a.prefixlen - 80);
    }
  }
}
