/** Direct routes between nodes: bit-level CIDR overlap and plans computed on
    each node from the same list (crates/flowsdn-agent/src/kubernetes.rs:347-526). */
module Routes {
  import opened Bytes
  import opened Arith

  datatype Ip = Ip(v6: bool, value: nat)

  function Width(v6: bool): nat { if v6 then 128 else 32 }

  predicate IpOk(ip: Ip) { ip.value < Pow2(Width(ip.v6)) }

  datatype Cidr = Cidr(ip: Ip, bits: byte)

  /** A prefix length within the family's width. */
  function Length(c: Cidr): (r: nat)
    ensures r <= Width(c.ip.v6)
  {
    Min(c.bits, Width(c.ip.v6))
  }

  /** The size of the address block a prefix length leaves. */
  function Block(v6: bool, length: nat): (r: nat)
    requires length <= Width(v6)
    ensures r > 0
  {
    Pow2(Width(v6) - length)
  }

  /** `address & mask`. */
  function Masked(ip: Ip, length: nat): nat
    requires length <= Width(ip.v6)
  {
    RoundDown(ip.value, Block(ip.v6, length))
  }

  /** The addresses of a CIDR: those equal to it under its mask. */
  predicate Holds(c: Cidr, ip: Ip)
  {
    c.ip.v6 == ip.v6 && Masked(ip, Length(c)) == Masked(c.ip, Length(c))
  }

  predicate Overlaps(a: Cidr, b: Cidr)
  {
    a.ip.v6 == b.ip.v6 &&
    var shorter := Min(Length(a), Length(b));
    Masked(a.ip, shorter) == Masked(b.ip, shorter)
  }

  /** A number lies in block `k` of a size. */
  predicate InBlock(x: nat, k: nat, size: nat) { k * size <= x < k * size + size }

  lemma InBlockExactly(x: nat, k: nat, size: nat)
    requires size > 0
    ensures InBlock(x, k, size) <==> x / size == k
  {
    hide Pow2;
    DivMod(x, size);
    assert k * size == size * k;
    if InBlock(x, k, size) { DivModUnique(x, size, k, x - k * size); }
  }

  /** A CIDR holds the addresses of the aligned block of its size that it lies in; one
      as long as an address, or longer, holds its own alone. */
  lemma HoldsExactly(c: Cidr, ip: Ip)
    ensures var size := if c.bits >= Width(c.ip.v6) then 1 else Pow2(Width(c.ip.v6) - c.bits);
            Holds(c, ip) <==>
            c.ip.v6 == ip.v6 && exists k: nat :: InBlock(c.ip.value, k, size) && InBlock(ip.value, k, size)
  {
    hide RoundDown, InBlock;
    var size := if c.bits >= Width(c.ip.v6) then 1 else Pow2(Width(c.ip.v6) - c.bits);
    assert size == Block(c.ip.v6, Length(c));
    hide Pow2;
    RoundDownEqual(ip.value, c.ip.value, size);
    DivMod(c.ip.value, size);
    InBlockExactly(c.ip.value, c.ip.value / size, size);
    InBlockExactly(ip.value, c.ip.value / size, size);
    if k: nat :| InBlock(c.ip.value, k, size) && InBlock(ip.value, k, size) {
      InBlockExactly(c.ip.value, k, size);
      InBlockExactly(ip.value, k, size);
    }
  }

  /** Addresses equal under a longer mask are equal under a shorter one. */
  lemma ShorterAgrees(a: Ip, b: Ip, short: nat, long: nat)
    requires a.v6 == b.v6 && short <= long <= Width(a.v6) && Masked(a, long) == Masked(b, long)
    ensures Masked(a, short) == Masked(b, short)
  {
    hide Pow2, RoundDown;
    var w := Width(a.v6);
    Pow2Factor(w - long, w - short);
    RoundDownCoarser(a.value, b.value, Pow2(w - long), Pow2(long - short));
  }

  /** Some address lies in both. */
  ghost predicate Share(a: Cidr, b: Cidr)
  {
    exists ip :: IpOk(ip) && Holds(a, ip) && Holds(b, ip)
  }

  lemma HoldsOverlap(a: Cidr, b: Cidr, ip: Ip)
    requires Holds(a, ip) && Holds(b, ip)
    ensures Overlaps(a, b)
  {
    hide Masked;
    var shorter := Min(Length(a), Length(b));
    ShorterAgrees(ip, a.ip, shorter, Length(a));
    ShorterAgrees(ip, b.ip, shorter, Length(b));
  }

  /** Overlap is sharing an address. */
  lemma OverlapsExactly(a: Cidr, b: Cidr)
    requires IpOk(a.ip) && IpOk(b.ip)
    ensures Overlaps(a, b) <==> Share(a, b)
  {
    hide Masked, IpOk;
    if Overlaps(a, b) {
      var ip := if Length(a) <= Length(b) then b.ip else a.ip;
      assert IpOk(ip) && Holds(a, ip) && Holds(b, ip);
    }
    if ip :| IpOk(ip) && Holds(a, ip) && Holds(b, ip) { HoldsOverlap(a, b, ip); }
  }

  lemma OverlapsSymmetric(a: Cidr, b: Cidr)
    ensures Overlaps(a, b) <==> Overlaps(b, a)
  {
  }

  // ---------- nodes and their CIDRs ----------

  datatype Node = Node(name: string, podCidrs: seq<Cidr>, internalIps: seq<Ip>)

  datatype Derive = Derive(v4: bool, v6: bool)

  const ALLOC_BASE: nat := 0xf00d_0000_0000_0000

  function FirstCidr(cidrs: seq<Cidr>, v6: bool): Option<Cidr>
  {
    if cidrs == [] then None else if cidrs[0].ip.v6 == v6 then Some(cidrs[0]) else FirstCidr(cidrs[1..], v6)
  }

  function FirstIp(ips: seq<Ip>, v6: bool): Option<Ip>
  {
    if ips == [] then None else if ips[0].v6 == v6 then Some(ips[0]) else FirstIp(ips[1..], v6)
  }

  function AllocV4(node: Node): Option<Cidr>
  {
    match FirstCidr(node.podCidrs, false)
    case Some(c) => Some(c)
    case None =>
      match FirstIp(node.internalIps, false)
      case None => None
      case Some(ip) => Some(Cidr(Ip(false, 10 * 0x1000000 + (ip.value % 0x100) * 0x10000), 16))
  }

  function AllocV6(node: Node): Option<Cidr>
  {
    match FirstCidr(node.podCidrs, true)
    case Some(c) => Some(c)
    case None =>
      var tail := match AllocV4(node)
        case Some(c) => Some(c.ip.value)
        case None =>
          (match FirstIp(node.internalIps, true)
           case None => None
           case Some(ip) => Some(ip.value % 0x1_0000_0000));
      if tail.None? then None
      else Some(Cidr(Ip(true, ALLOC_BASE * 0x1_0000_0000_0000_0000 + tail.value * 0x1_0000_0000), 96))
  }

  function AllocCidr(node: Node, v6: bool): Option<Cidr> { if v6 then AllocV6(node) else AllocV4(node) }

  /** A node's published CIDRs and, per derived family it has none of, the one
      its own agent uses. */
  function NodeCidrs(node: Node, derive: Derive): seq<Cidr>
  {
    var four := node.podCidrs + Derived(node, node.podCidrs, false, derive.v4);
    four + Derived(node, four, true, derive.v6)
  }

  function Derived(node: Node, cidrs: seq<Cidr>, v6: bool, on: bool): seq<Cidr>
  {
    if !on || FirstCidr(cidrs, v6).Some? || AllocCidr(node, v6).None? then [] else [AllocCidr(node, v6).value]
  }

  // ---------- which CIDRs a node has ----------

  /** Element `i` is the first of its family. */
  predicate IpFirst(ips: seq<Ip>, v6: bool, i: nat)
  {
    i < |ips| && ips[i].v6 == v6 && forall j :: 0 <= j < i ==> ips[j].v6 != v6
  }

  lemma {:induction false} FirstIpExactly(ips: seq<Ip>, v6: bool)
    ensures FirstIp(ips, v6).None? <==> forall ip :: ip in ips ==> ip.v6 != v6
    ensures forall i: nat :: IpFirst(ips, v6, i) ==> FirstIp(ips, v6) == Some(ips[i])
    ensures FirstIp(ips, v6).Some? ==> exists i: nat :: IpFirst(ips, v6, i) && FirstIp(ips, v6) == Some(ips[i])
  {
    if ips != [] {
      var rest := ips[1..];
      FirstIpExactly(rest, v6);
      if ips[0].v6 == v6 {
        assert IpFirst(ips, v6, 0);
      } else {
        assert forall ip :: ip in ips <==> ip == ips[0] || ip in rest;
        forall i: nat | IpFirst(ips, v6, i) ensures FirstIp(ips, v6) == Some(ips[i]) {
          assert forall j :: 0 <= j < i - 1 ==> rest[j] == ips[j + 1];
          assert IpFirst(rest, v6, i - 1);
        }
        if FirstIp(ips, v6).Some? {
          var i: nat :| IpFirst(rest, v6, i) && FirstIp(rest, v6) == Some(rest[i]);
          assert forall j :: 1 <= j <= i ==> ips[j] == rest[j - 1];
          assert IpFirst(ips, v6, i + 1);
        }
      }
    }
  }

  predicate CidrFirst(cidrs: seq<Cidr>, v6: bool, i: nat)
  {
    i < |cidrs| && cidrs[i].ip.v6 == v6 && forall j :: 0 <= j < i ==> cidrs[j].ip.v6 != v6
  }

  lemma LaterCidr(cidrs: seq<Cidr>, v6: bool, i: nat)
    requires cidrs != [] && cidrs[0].ip.v6 != v6
    ensures CidrFirst(cidrs, v6, i) <==> i > 0 && CidrFirst(cidrs[1..], v6, i - 1)
  {
    var rest := cidrs[1..];
    assert forall j :: 0 <= j < |rest| ==> rest[j] == cidrs[j + 1];
    if i > 0 && CidrFirst(rest, v6, i - 1) {
      forall j | 0 <= j < i ensures cidrs[j].ip.v6 != v6 {
        if j > 0 { assert rest[j - 1] == cidrs[j]; }
      }
    }
  }

  lemma {:induction false} FirstCidrExactly(cidrs: seq<Cidr>, v6: bool)
    ensures FirstCidr(cidrs, v6).None? <==> forall c :: c in cidrs ==> c.ip.v6 != v6
    ensures forall i: nat :: CidrFirst(cidrs, v6, i) ==> FirstCidr(cidrs, v6) == Some(cidrs[i])
    ensures FirstCidr(cidrs, v6).Some? ==>
              exists i: nat :: CidrFirst(cidrs, v6, i) && FirstCidr(cidrs, v6) == Some(cidrs[i])
  {
    if cidrs != [] {
      var rest := cidrs[1..];
      FirstCidrExactly(rest, v6);
      if cidrs[0].ip.v6 == v6 {
        assert CidrFirst(cidrs, v6, 0);
      } else {
        assert forall c :: c in cidrs <==> c == cidrs[0] || c in rest;
        forall i: nat | CidrFirst(cidrs, v6, i) ensures FirstCidr(cidrs, v6) == Some(cidrs[i]) {
          LaterCidr(cidrs, v6, i);
        }
        if FirstCidr(cidrs, v6).Some? {
          var i: nat :| CidrFirst(rest, v6, i) && FirstCidr(rest, v6) == Some(rest[i]);
          LaterCidr(cidrs, v6, i + 1);
        }
      }
    }
  }

  predicate Lacks(node: Node, v6: bool) { forall c :: c in node.podCidrs ==> c.ip.v6 != v6 }

  /** 10.x.0.0/16, x being the last octet of the node's first IPv4 address. */
  ghost predicate DerivedV4(node: Node, c: Cidr)
  {
    && !c.ip.v6 && c.bits == 16
    && exists i: nat :: IpFirst(node.internalIps, false, i)
                        && c.ip.value == ((10 * 256 + node.internalIps[i].value % 256) * 256 + 0) * 256 + 0
  }

  /** The four octets an IPv6 CIDR is derived from: those of the node's first IPv4
      CIDR, else of the one derived for it, else the last four of its first IPv6
      address. */
  ghost predicate Tail(node: Node, tail: nat)
  {
    if !Lacks(node, false) then
      exists i: nat :: CidrFirst(node.podCidrs, false, i) && tail == node.podCidrs[i].ip.value
    else if exists ip :: ip in node.internalIps && !ip.v6 then
      exists c :: DerivedV4(node, c) && tail == c.ip.value
    else
      exists i: nat :: IpFirst(node.internalIps, true, i) && tail == node.internalIps[i].value % 0x1_0000_0000
  }

  /** f00d:0:0:0:t:t:0:0/96 around those octets. */
  ghost predicate DerivedV6(node: Node, c: Cidr)
  {
    && c.ip.v6 && c.bits == 96
    && exists tail: nat :: Tail(node, tail)
                           && c.ip.value == 0xf00d_0000_0000_0000_0000_0000_0000_0000 + tail * 0x1_0000_0000
  }

  lemma AllocV4Exactly(node: Node, c: Cidr)
    requires Lacks(node, false)
    ensures AllocV4(node) == Some(c) <==> DerivedV4(node, c)
    ensures AllocV4(node).None? <==> forall ip :: ip in node.internalIps ==> ip.v6
  {
    hide FirstCidr, FirstIp;
    FirstCidrExactly(node.podCidrs, false);
    FirstIpExactly(node.internalIps, false);
  }

  /** The octets as the code finds them. */
  function TailOf(node: Node): Option<nat>
  {
    match AllocV4(node)
    case Some(c) => Some(c.ip.value)
    case None =>
      match FirstIp(node.internalIps, true)
      case None => None
      case Some(ip) => Some(ip.value % 0x1_0000_0000)
  }

  lemma AllocFromTail(node: Node)
    requires Lacks(node, true)
    ensures AllocV6(node) ==
            if TailOf(node).None? then None
            else Some(Cidr(Ip(true, 0xf00d_0000_0000_0000_0000_0000_0000_0000
                                   + TailOf(node).value * 0x1_0000_0000), 96))
  {
    hide FirstIp, AllocV4;
    FirstCidrExactly(node.podCidrs, true);
  }

  lemma TailExactly(node: Node, tail: nat)
    ensures Tail(node, tail) <==> TailOf(node) == Some(tail)
  {
    hide FirstCidr, FirstIp, AllocV4, DerivedV4;
    FirstCidrExactly(node.podCidrs, false);
    FirstIpExactly(node.internalIps, true);
    if !Lacks(node, false) {
      Published(node);
    } else {
      forall d ensures AllocV4(node) == Some(d) <==> DerivedV4(node, d) { AllocV4Exactly(node, d); }
      AllocV4Exactly(node, Cidr(Ip(false, 0), 0));
    }
  }

  lemma AllocV6Exactly(node: Node, c: Cidr)
    requires Lacks(node, true)
    ensures AllocV6(node) == Some(c) <==> DerivedV6(node, c)
  {
    hide AllocV6, Tail, TailOf;
    AllocFromTail(node);
    forall tail: nat ensures Tail(node, tail) <==> TailOf(node) == Some(tail) { TailExactly(node, tail); }
  }

  lemma Published(node: Node)
    requires !Lacks(node, false)
    ensures AllocV4(node) == FirstCidr(node.podCidrs, false) && AllocV4(node).Some?
  {
    FirstCidrExactly(node.podCidrs, false);
  }

  /** A node's CIDRs are those it publishes and, for each family that is derived and
      that it publishes none of, the one its addresses give. */
  lemma NodeCidrsExactly(node: Node, derive: Derive, c: Cidr)
    ensures c in NodeCidrs(node, derive) <==>
            || c in node.podCidrs
            || (derive.v4 && Lacks(node, false) && DerivedV4(node, c))
            || (derive.v6 && Lacks(node, true) && DerivedV6(node, c))
  {
    hide FirstCidr, FirstIp, AllocV4, AllocV6, DerivedV4, DerivedV6;
    FirstCidrExactly(node.podCidrs, false);
    var four := node.podCidrs + Derived(node, node.podCidrs, false, derive.v4);
    FirstCidrExactly(four, true);
    if Lacks(node, false) {
      AllocV4Exactly(node, c);
      if AllocV4(node).Some? { DerivedFamily(node); }
    }
    if Lacks(node, true) { AllocV6Exactly(node, c); }
    assert forall d :: d in four <==> d in node.podCidrs || d in Derived(node, node.podCidrs, false, derive.v4);
  }

  lemma DerivedFamily(node: Node)
    requires Lacks(node, false) && AllocV4(node).Some?
    ensures !AllocV4(node).value.ip.v6
  {
    FirstCidrExactly(node.podCidrs, false);
  }

  /** Every address of the node is one of its family. */
  predicate NodeOk(node: Node)
  {
    (forall c :: c in node.podCidrs ==> IpOk(c.ip)) && (forall ip :: ip in node.internalIps ==> IpOk(ip))
  }

  lemma {:induction false} FirstCidrIs(cidrs: seq<Cidr>, v6: bool)
    ensures FirstCidr(cidrs, v6).Some? ==> FirstCidr(cidrs, v6).value in cidrs && FirstCidr(cidrs, v6).value.ip.v6 == v6
  {
    if cidrs != [] { FirstCidrIs(cidrs[1..], v6); }
  }

  lemma Blocks()
    ensures Block(false, 16) == 0x10000 && Block(true, 96) == 0x1_0000_0000
  {
    assert Pow2(8) == 0x100;
    Pow2Sum(8, 8);
    Pow2Sum(16, 16);
  }

  lemma Widths()
    ensures Pow2(32) == 0x1_0000_0000
    ensures Pow2(128) == 0x1_0000_0000_0000_0000 * 0x1_0000_0000_0000_0000
  {
    hide Pow2;
    Blocks();
    Pow2Sum(32, 32);
    Pow2Sum(64, 64);
  }

  /** The CIDRs a node is given and those derived for it are of addresses. */
  lemma CidrsOk(node: Node, derive: Derive)
    requires NodeOk(node)
    ensures forall c :: c in NodeCidrs(node, derive) ==> IpOk(c.ip)
  {
    hide Pow2, FirstCidr, FirstIp;
    AllocOk(node);
  }

  lemma AllocOk(node: Node)
    requires NodeOk(node)
    ensures forall v6 :: AllocCidr(node, v6).Some? ==> IpOk(AllocCidr(node, v6).value.ip)
  {
    hide Pow2, FirstCidr, FirstIp;
    Widths();
    FirstCidrIs(node.podCidrs, false);
    FirstCidrIs(node.podCidrs, true);
    assert AllocV4(node).Some? ==> AllocV4(node).value.ip.value < 0x1_0000_0000;
  }

  /** A node with no pod CIDR and this first IPv4 address. */
  predicate Underived(node: Node, ip: Ip)
  {
    FirstCidr(node.podCidrs, false).None? && FirstCidr(node.podCidrs, true).None?
    && FirstIp(node.internalIps, false) == Some(ip)
  }

  lemma {:induction false} FirstIpFamily(ips: seq<Ip>, v6: bool)
    ensures FirstIp(ips, v6).Some? ==> FirstIp(ips, v6).value.v6 == v6 && FirstIp(ips, v6).value in ips
    ensures FirstIp(ips, v6).None? ==> forall ip :: ip in ips ==> ip.v6 != v6
  {
    if ips != [] { FirstIpFamily(ips[1..], v6); }
  }

  /** Derived CIDRs of two nodes collide exactly when their IPv4 addresses end in
      the same byte, in both families. */
  lemma DerivedCollide(a: Node, b: Node, x: Ip, y: Ip)
    requires Underived(a, x) && Underived(b, y)
    ensures AllocV4(a).Some? && AllocV4(b).Some? && AllocV6(a).Some? && AllocV6(b).Some?
    ensures Overlaps(AllocV4(a).value, AllocV4(b).value) <==> x.value % 0x100 == y.value % 0x100
    ensures Overlaps(AllocV6(a).value, AllocV6(b).value) <==> x.value % 0x100 == y.value % 0x100
  {
    hide Pow2, FirstCidr, FirstIp, RoundDown;
    Blocks();
    var m, n := 10 * 0x100 + x.value % 0x100, 10 * 0x100 + y.value % 0x100;
    Aligned(0x10000, m);
    Aligned(0x10000, n);
    var t := ALLOC_BASE * 0x1_0000_0000;
    Aligned(0x1_0000_0000, t + m * 0x10000);
    Aligned(0x1_0000_0000, t + n * 0x10000);
  }

  lemma Aligned(m: nat, k: nat)
    requires m > 0
    ensures RoundDown(m * k, m) == m * k
  {
    MultipleMod(m, k);
  }

  /** The first host address of a CIDR. */
  function RouterIp(c: Cidr): (r: Option<Ip>)
    requires IpOk(c.ip)
    ensures r.Some? <==> c.bits <= Width(c.ip.v6) - 2
  {
    if c.bits > Width(c.ip.v6) - 2 then None else Some(Ip(c.ip.v6, Masked(c.ip, Length(c)) + 1))
  }

  /** The router address lies in its CIDR, after the network address. */
  lemma RouterInside(c: Cidr)
    requires IpOk(c.ip) && RouterIp(c).Some?
    ensures Holds(c, RouterIp(c).value) && IpOk(RouterIp(c).value)
    ensures RouterIp(c).value.value == Masked(c.ip, Length(c)) + 1
  {
    hide Pow2;
    var s := Block(c.ip.v6, Length(c));
    var w := Width(c.ip.v6);
    Pow2Factor(1, w - Length(c));
    assert Pow2(1) == 2 by { Two(); }
    DivMod(c.ip.value, s);
    var base := c.ip.value - c.ip.value % s;
    DivModUnique(base + 1, s, c.ip.value / s, 1);
    Pow2Factor(w - Length(c), w);
    MulCancel(s, c.ip.value / s, Pow2(Length(c)));
    MulStrict(s, c.ip.value / s, Pow2(Length(c)));
  }

  lemma Two()
    ensures Pow2(1) == 2
  {
  }

  // ---------- the plan ----------

  datatype Route = Route(destination: Ip, prefix: byte, gateway: Ip, node: string)

  datatype Collision = Collision(a: string, x: Cidr, b: string, y: Cidr)

  function Dest(r: Route): Cidr { Cidr(r.destination, r.prefix) }

  /** Two different nodes of the list have overlapping CIDRs. */
  ghost predicate Clash(nodes: seq<Node>, derive: Derive, i: nat, x: Cidr, j: nat, y: Cidr)
  {
    && i < |nodes| && j < |nodes| && i != j
    && x in NodeCidrs(nodes[i], derive) && y in NodeCidrs(nodes[j], derive) && Overlaps(x, y)
  }

  ghost predicate Refused(nodes: seq<Node>, derive: Derive, name: string, x: Cidr)
  {
    exists i: nat, j: nat, y :: Clash(nodes, derive, i, x, j, y) && nodes[i].name == name
  }

  ghost predicate Planned(local: string, nodes: seq<Node>, derive: Derive, r: Route)
  {
    exists i :: PlannedFor(local, nodes, derive, r, i)
  }

  ghost predicate PlannedFor(local: string, nodes: seq<Node>, derive: Derive, r: Route, i: nat)
  {
    && i < |nodes| && nodes[i].name == r.node && r.node != local
    && Dest(r) in NodeCidrs(nodes[i], derive)
    && !Refused(nodes, derive, r.node, Dest(r))
    && FirstIp(nodes[i].internalIps, r.destination.v6) == Some(r.gateway)
  }

  ghost predicate DistinctNames(nodes: seq<Node>)
  {
    forall i, j :: 0 <= i < j < |nodes| ==> nodes[i].name != nodes[j].name
  }

  /** A CIDR is refused exactly when it shares an address with another node's. */
  lemma RefusedExactly(nodes: seq<Node>, derive: Derive, i: nat, x: Cidr)
    requires DistinctNames(nodes) && i < |nodes| && x in NodeCidrs(nodes[i], derive)
    requires forall n :: n in nodes ==> NodeOk(n)
    ensures Refused(nodes, derive, nodes[i].name, x) <==>
            exists j, y :: 0 <= j < |nodes| && j != i && y in NodeCidrs(nodes[j], derive) && Share(x, y)
  {
    hide NodeCidrs, Overlaps, Share, NodeOk, IpOk;
    CidrsOk(nodes[i], derive);
    if Refused(nodes, derive, nodes[i].name, x) {
      var k: nat, j: nat, y :| Clash(nodes, derive, k, x, j, y) && nodes[k].name == nodes[i].name;
      assert k == i by { if k < i {} else if i < k {} }
      CidrsOk(nodes[j], derive);
      OverlapsExactly(x, y);
    }
    if j, y :| 0 <= j < |nodes| && j != i && y in NodeCidrs(nodes[j], derive) && Share(x, y) {
      CidrsOk(nodes[j], derive);
      OverlapsExactly(x, y);
      assert Clash(nodes, derive, i, x, j, y);
    }
  }

  /** No address lies under routes to two nodes. */
  lemma OneNodePerAddress(local: string, nodes: seq<Node>, derive: Derive, r: Route, s: Route, ip: Ip)
    requires DistinctNames(nodes) && Planned(local, nodes, derive, r) && Planned(local, nodes, derive, s)
    requires Holds(Dest(r), ip) && Holds(Dest(s), ip)
    ensures r.node == s.node
  {
    hide NodeCidrs, Overlaps, Holds;
    var i :| PlannedFor(local, nodes, derive, r, i);
    var j :| PlannedFor(local, nodes, derive, s, j);
    HoldsOverlap(Dest(r), Dest(s), ip);
    assert i != j ==> Clash(nodes, derive, i, Dest(r), j, Dest(s));
  }

  /** No address lies under a route and a pod CIDR of the local node. */
  lemma LocalStaysLocal(local: string, nodes: seq<Node>, derive: Derive, r: Route, l: nat, c: Cidr, ip: Ip)
    requires DistinctNames(nodes) && Planned(local, nodes, derive, r)
    requires l < |nodes| && nodes[l].name == local && c in NodeCidrs(nodes[l], derive) && Holds(c, ip)
    ensures !Holds(Dest(r), ip)
  {
    hide NodeCidrs, Overlaps, Holds;
    var i :| PlannedFor(local, nodes, derive, r, i);
    if Holds(Dest(r), ip) { HoldsOverlap(Dest(r), c, ip); }
    assert Overlaps(Dest(r), c) ==> Clash(nodes, derive, i, Dest(r), l, c);
  }

  /** A CIDR with a gateway is routed exactly when no other node's shares an
      address with it. */
  lemma WithheldExactly(local: string, nodes: seq<Node>, derive: Derive, i: nat, c: Cidr, gateway: Ip)
    requires DistinctNames(nodes) && i < |nodes| && nodes[i].name != local && c in NodeCidrs(nodes[i], derive)
    requires FirstIp(nodes[i].internalIps, c.ip.v6) == Some(gateway) && forall n :: n in nodes ==> NodeOk(n)
    ensures Planned(local, nodes, derive, Route(c.ip, c.bits, gateway, nodes[i].name)) <==>
            !exists j, y :: 0 <= j < |nodes| && j != i && y in NodeCidrs(nodes[j], derive) && Share(c, y)
  {
    hide NodeCidrs, Overlaps, Share, Refused, NodeOk;
    var r := Route(c.ip, c.bits, gateway, nodes[i].name);
    assert Dest(r) == c;
    RefusedExactly(nodes, derive, i, c);
    if !Refused(nodes, derive, nodes[i].name, c) { assert PlannedFor(local, nodes, derive, r, i); }
  }

  /** Any two agents send a third node's CIDR to the same gateway, or neither does. */
  lemma AgentsAgree(one: string, other: string, nodes: seq<Node>, derive: Derive, r: Route)
    requires r.node != one && r.node != other
    ensures Planned(one, nodes, derive, r) <==> Planned(other, nodes, derive, r)
    ensures DistinctNames(nodes) && Planned(one, nodes, derive, r) ==>
              forall s :: Planned(other, nodes, derive, s) && s.node == r.node && Dest(s) == Dest(r) ==> s == r
  {
    hide NodeCidrs, Refused;
    if i :| PlannedFor(one, nodes, derive, r, i) { assert PlannedFor(other, nodes, derive, r, i); }
    if i :| PlannedFor(other, nodes, derive, r, i) { assert PlannedFor(one, nodes, derive, r, i); }
  }

  // ---------- computing the plan ----------

  /** The collision a pair of nodes reports. */
  ghost predicate Reports(nodes: seq<Node>, derive: Derive, c: Collision, i: nat, j: nat)
  {
    Clash(nodes, derive, i, c.x, j, c.y) && c.a == nodes[i].name && c.b == nodes[j].name
  }

  /** The pairs walked before row `at`, column `to`. */
  predicate Walked(i: nat, j: nat, at: nat, to: nat) { i < j && (i < at || (i == at && j < to)) }

  ghost predicate Collected(nodes: seq<Node>, derive: Derive, collisions: seq<Collision>, at: nat, to: nat)
  {
    forall c :: c in collisions <==> exists i: nat, j: nat :: Walked(i, j, at, to) && Reports(nodes, derive, c, i, j)
  }

  function RefusedBy(collisions: seq<Collision>): set<(string, Cidr)>
  {
    (set c | c in collisions :: (c.a, c.x)) + (set c | c in collisions :: (c.b, c.y))
  }

  /** The overlapping CIDRs of two nodes. */
  method PairCollisions(a: Node, xs: seq<Cidr>, b: Node, ys: seq<Cidr>) returns (found: seq<Collision>)
    ensures forall c :: c in found <==> c.a == a.name && c.b == b.name && c.x in xs && c.y in ys && Overlaps(c.x, c.y)
  {
    hide Overlaps;
    found := [];
    for i := 0 to |xs|
      invariant forall c :: c in found <==>
                  c.a == a.name && c.b == b.name && c.x in xs[..i] && c.y in ys && Overlaps(c.x, c.y)
    {
      ghost var before := found;
      for j := 0 to |ys|
        invariant forall c :: c in found <==>
                    || c in before
                    || (c.a == a.name && c.b == b.name && c.x == xs[i] && c.y in ys[..j] && Overlaps(c.x, c.y))
      {
        assert ys[..j + 1] == ys[..j] + [ys[j]];
        if Overlaps(xs[i], ys[j]) {
          found := found + [Collision(a.name, xs[i], b.name, ys[j])];
        }
      }
      assert ys[..|ys|] == ys;
      assert xs[..i + 1] == xs[..i] + [xs[i]];
    }
    assert xs[..|xs|] == xs;
  }

  lemma CollectMore(nodes: seq<Node>, derive: Derive, collisions: seq<Collision>, at: nat, to: nat,
                    found: seq<Collision>)
    requires Collected(nodes, derive, collisions, at, to) && at < to < |nodes|
    requires forall c :: c in found <==> Reports(nodes, derive, c, at, to)
    ensures Collected(nodes, derive, collisions + found, at, to + 1)
  {
    hide Reports;
    forall c ensures c in collisions + found <==>
                     exists i: nat, j: nat :: Walked(i, j, at, to + 1) && Reports(nodes, derive, c, i, j)
    {
      if c in collisions {
        var i: nat, j: nat :| Walked(i, j, at, to) && Reports(nodes, derive, c, i, j);
        assert Walked(i, j, at, to + 1);
      }
      if c in found { assert Walked(at, to, at, to + 1); }
      if i: nat, j: nat :| Walked(i, j, at, to + 1) && Reports(nodes, derive, c, i, j) {
        if !(i == at && j == to) { assert Walked(i, j, at, to); }
      }
    }
  }

  lemma NextRow(nodes: seq<Node>, derive: Derive, collisions: seq<Collision>, at: nat)
    requires Collected(nodes, derive, collisions, at, |nodes|)
    ensures Collected(nodes, derive, collisions, at + 1, at + 2)
  {
    forall c ensures c in collisions <==>
                     exists i: nat, j: nat :: Walked(i, j, at + 1, at + 2) && Reports(nodes, derive, c, i, j)
    {
      if i: nat, j: nat :| Walked(i, j, at, |nodes|) && Reports(nodes, derive, c, i, j) {
        assert Walked(i, j, at + 1, at + 2);
      }
      if i: nat, j: nat :| Walked(i, j, at + 1, at + 2) && Reports(nodes, derive, c, i, j) {
        assert Walked(i, j, at, |nodes|);
      }
    }
  }

  method FindCollisions(nodes: seq<Node>, derive: Derive) returns (collisions: seq<Collision>)
    ensures forall c :: c in collisions <==> exists i: nat, j: nat :: i < j && Reports(nodes, derive, c, i, j)
  {
    hide NodeCidrs, Overlaps, Collected;
    collisions := [];
    NothingCollected(nodes, derive);
    for at := 0 to |nodes|
      invariant Collected(nodes, derive, collisions, at, at + 1)
    {
      var xs := NodeCidrs(nodes[at], derive);
      for to := at + 1 to |nodes|
        invariant Collected(nodes, derive, collisions, at, to)
      {
        var found := PairCollisions(nodes[at], xs, nodes[to], NodeCidrs(nodes[to], derive));
        CollectMore(nodes, derive, collisions, at, to, found);
        collisions := collisions + found;
      }
      NextRow(nodes, derive, collisions, at);
    }
    AllCollected(nodes, derive, collisions);
  }

  lemma NothingCollected(nodes: seq<Node>, derive: Derive)
    ensures Collected(nodes, derive, [], 0, 1)
  {
    hide Reports;
  }

  lemma AllCollected(nodes: seq<Node>, derive: Derive, collisions: seq<Collision>)
    requires Collected(nodes, derive, collisions, |nodes|, |nodes| + 1)
    ensures forall c :: c in collisions <==> exists i: nat, j: nat :: i < j && Reports(nodes, derive, c, i, j)
  {
    forall c ensures c in collisions <==> exists i: nat, j: nat :: i < j && Reports(nodes, derive, c, i, j) {
      if i: nat, j: nat :| i < j && Reports(nodes, derive, c, i, j) { assert Walked(i, j, |nodes|, |nodes| + 1); }
      if c in collisions {
        var i: nat, j: nat :| Walked(i, j, |nodes|, |nodes| + 1) && Reports(nodes, derive, c, i, j);
      }
    }
  }

  /** Refusal by the collision list is refusal by the rule. */
  lemma RefusedByCollisions(nodes: seq<Node>, derive: Derive, collisions: seq<Collision>, name: string, x: Cidr)
    requires forall c :: c in collisions <==> exists i: nat, j: nat :: i < j && Reports(nodes, derive, c, i, j)
    ensures (name, x) in RefusedBy(collisions) <==> Refused(nodes, derive, name, x)
  {
    hide NodeCidrs, Overlaps;
    if i: nat, j: nat, y :| Clash(nodes, derive, i, x, j, y) && nodes[i].name == name {
      OverlapsSymmetric(x, y);
      if i < j {
        var c := Collision(name, x, nodes[j].name, y);
        assert Reports(nodes, derive, c, i, j);
        assert c in collisions;
      } else {
        var c := Collision(nodes[j].name, y, name, x);
        assert Reports(nodes, derive, c, j, i);
        assert c in collisions;
      }
    }
    if c :| c in collisions && ((c.a, c.x) == (name, x) || (c.b, c.y) == (name, x)) {
      var i: nat, j: nat :| i < j && Reports(nodes, derive, c, i, j);
      OverlapsSymmetric(c.x, c.y);
      assert Clash(nodes, derive, i, c.x, j, c.y) && Clash(nodes, derive, j, c.y, i, c.x);
    }
  }

  /** The plan of one agent. */
  method DesiredRoutes(local: string, nodes: seq<Node>, derive: Derive)
    returns (routes: set<Route>, collisions: seq<Collision>)
    ensures forall r :: r in routes <==> Planned(local, nodes, derive, r)
    ensures forall c :: c in collisions <==> exists i: nat, j: nat :: i < j && Reports(nodes, derive, c, i, j)
  {
    hide NodeCidrs, Overlaps, Refused, Reports, RefusedBy, FirstIp;
    collisions := FindCollisions(nodes, derive);
    var refused := RefusedBy(collisions);
    forall name, x ensures (name, x) in refused <==> Refused(nodes, derive, name, x) {
      RefusedByCollisions(nodes, derive, collisions, name, x);
    }
    routes := {};
    for i := 0 to |nodes|
      invariant forall r :: r in routes <==> exists k :: 0 <= k < i && PlannedFor(local, nodes, derive, r, k)
    {
      var more := NodeRoutes(local, nodes, derive, i, refused);
      routes := routes + more;
    }
  }

  method NodeRoutes(local: string, nodes: seq<Node>, derive: Derive, i: nat, refused: set<(string, Cidr)>)
    returns (routes: set<Route>)
    requires i < |nodes|
    requires forall name, x :: (name, x) in refused <==> Refused(nodes, derive, name, x)
    ensures forall r :: r in routes <==> PlannedFor(local, nodes, derive, r, i)
  {
    hide NodeCidrs, Refused, FirstIp;
    routes := {};
    if nodes[i].name == local { return; }
    var cidrs := NodeCidrs(nodes[i], derive);
    for k := 0 to |cidrs|
      invariant forall r :: r in routes <==> Dest(r) in cidrs[..k] && PlannedFor(local, nodes, derive, r, i)
    {
      assert cidrs[..k + 1] == cidrs[..k] + [cidrs[k]];
      var cidr := cidrs[k];
      if (nodes[i].name, cidr) in refused { continue; }
      var gateway := FirstIp(nodes[i].internalIps, cidr.ip.v6);
      if gateway.Some? {
        routes := routes + {Route(cidr.ip, cidr.bits, gateway.value, nodes[i].name)};
      }
    }
    assert cidrs[..|cidrs|] == cidrs;
  }
}
