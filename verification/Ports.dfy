/** Port ranges and their masked blocks (crates/flowsdn-policy/src/ports.rs:5-86). */
module Ports {
  import opened Bytes
  import opened Arith

  datatype PortRange = PortRange(start: u16, end: u16)

  datatype PortError = ZeroStartRange | InvalidPortRange

  const ANY := PortRange(0, 0xFFFF)

  function FromApi(port: u16, endPort: Option<u16>): (r: Result<PortRange, PortError>)
    ensures r.Ok? ==> r.value.start <= r.value.end
    ensures r.Ok? <==> endPort.None? || (port != 0 && port <= endPort.value)
    ensures r.Ok? ==>
              forall x: u16 :: Contains(r.value, x) <==>
                if endPort.Some? then port <= x <= endPort.value else port == 0 || x == port
    ensures r.Err? ==> r.error == if port == 0 then ZeroStartRange else InvalidPortRange
  {
    if endPort.Some? then
      if port == 0 then Err(ZeroStartRange)
      else if endPort.value < port then Err(InvalidPortRange)
      else Ok(PortRange(port, endPort.value))
    else if port == 0 then Ok(ANY)
    else Ok(PortRange(port, port))
  }

  predicate Contains(range: PortRange, port: u16) { range.start <= port <= range.end }

  /** `port` with the bits below the prefix cleared. */
  datatype PortBlock = PortBlock(port: u16, prefix: byte)

  function Size(prefix: nat): (r: nat)
    requires prefix <= 16
    ensures r > 0
  {
    Pow2(16 - prefix)
  }

  /** `port & mask` for the mask of a prefix length. */
  function Masked(port: u16, prefix: nat): (r: u16)
    requires prefix <= 16
    ensures r <= port
  {
    RoundDown(port, Size(prefix))
  }

  predicate Matches(block: PortBlock, port: u16)
  {
    block.prefix <= 16 && Masked(port, block.prefix) == Masked(block.port, block.prefix)
  }

  // ---------- blocks are nested or disjoint ----------

  /** A longer prefix that agrees makes every shorter one agree. */
  lemma ShorterAgrees(x: u16, y: u16, short: nat, long: nat)
    requires short <= long <= 16 && Masked(x, long) == Masked(y, long)
    ensures Masked(x, short) == Masked(y, short)
  {
    hide Pow2, RoundDown;
    Pow2Factor(16 - long, 16 - short);
    RoundDownCoarser(x, y, Size(long), Pow2(long - short));
  }

  // ---------- tilings ----------

  /** Blocks laid end to end from `from` to `to`, each aligned to its size. */
  ghost predicate Tiling(blocks: seq<PortBlock>, from: nat, to: nat)
  {
    if blocks == [] then from == to else
    && blocks[0].prefix <= 16 && blocks[0].port == from && from % Size(blocks[0].prefix) == 0
    && Tiling(blocks[1..], from + Size(blocks[0].prefix), to)
  }

  lemma {:induction false} TilingSnoc(blocks: seq<PortBlock>, from: nat, mid: nat, last: PortBlock)
    requires Tiling(blocks, from, mid)
    requires last.prefix <= 16 && last.port == mid && mid % Size(last.prefix) == 0
    ensures Tiling(blocks + [last], from, mid + Size(last.prefix))
  {
    if blocks == [] {
      assert ([] + [last])[1..] == [];
    } else {
      assert (blocks + [last])[1..] == blocks[1..] + [last];
      TilingSnoc(blocks[1..], from + Size(blocks[0].prefix), mid, last);
    }
  }

  lemma {:induction false} TilingSpan(blocks: seq<PortBlock>, from: nat, to: nat)
    requires Tiling(blocks, from, to)
    ensures from + |blocks| <= to
  {
    if blocks != [] { TilingSpan(blocks[1..], from + Size(blocks[0].prefix), to); }
  }

  /** An aligned block matches exactly the ports of its interval. */
  lemma BlockInterval(block: PortBlock, port: u16)
    requires block.prefix <= 16 && block.port % Size(block.prefix) == 0
    ensures Matches(block, port) <==> block.port <= port < block.port + Size(block.prefix)
  {
    hide Pow2, RoundDown;
    var s := Size(block.prefix);
    RoundDownEqual(port, block.port, s);
    DivMod(port, s);
    DivMod(block.port, s);
    if block.port <= port < block.port + s {
      DivModUnique(port, s, block.port / s, port - block.port);
    }
  }

  /** A tiling up to `to` matches every port of the span, once, and no other. */
  lemma {:induction false} TilingCovers(blocks: seq<PortBlock>, from: nat, to: nat, port: u16)
    requires Tiling(blocks, from, to)
    ensures (exists i :: 0 <= i < |blocks| && Matches(blocks[i], port)) <==> from <= port < to
    ensures forall i, j :: 0 <= i < j < |blocks| ==> !(Matches(blocks[i], port) && Matches(blocks[j], port))
  {
    if blocks != [] {
      var b, rest := blocks[0], blocks[1..];
      var mid := from + Size(b.prefix);
      BlockInterval(b, port);
      TilingCovers(rest, mid, to, port);
      TilingSpan(rest, mid, to);
      assert forall i :: 0 < i < |blocks| ==> blocks[i] == rest[i - 1];
      if from <= port < to {
        if port < mid {
          assert Matches(blocks[0], port);
        } else {
          var i :| 0 <= i < |rest| && Matches(rest[i], port);
          assert Matches(blocks[i + 1], port);
        }
      }
      forall i, j | 0 <= i < j < |blocks| ensures !(Matches(blocks[i], port) && Matches(blocks[j], port)) {
        assert blocks[j] == rest[j - 1];
        if i > 0 { assert blocks[i] == rest[i - 1]; }
      }
    }
  }

  // ---------- the greedy expansion ----------

  /** The number of zero bits below the lowest set bit. */
  function TrailingZeros(x: nat): (r: nat)
    requires x > 0
    ensures x % Pow2(r) == 0 && x % Pow2(r + 1) != 0
    decreases x
  {
    if x % 2 == 1 then 0 else
    var r := TrailingZeros(x / 2);
    EvenMod(x, Pow2(r));
    EvenMod(x, Pow2(r + 1));
    r + 1
  }

  lemma EvenMod(x: nat, m: nat)
    requires x % 2 == 0 && m > 0
    ensures x % (2 * m) == 2 * ((x / 2) % m)
  {
    DivMod(x / 2, m);
    MulAssoc(2, m, (x / 2) / m);
    DivModUnique(x, 2 * m, (x / 2) / m, 2 * ((x / 2) % m));
  }

  /** The position of the highest set bit. */
  function Log2(x: nat): (r: nat)
    requires x > 0
    ensures Pow2(r) <= x < Pow2(r + 1)
    decreases x
  {
    if x == 1 then 0 else 1 + Log2(x / 2)
  }

  /** No larger aligned block starts where this one does and ends by `to`. */
  ghost predicate Maximal(block: PortBlock, to: nat)
  {
    block.prefix <= 16 &&
    forall p :: 0 <= p < block.prefix && block.port % Size(p) == 0 ==> block.port + Size(p) > to
  }

  ghost predicate Greedy(blocks: seq<PortBlock>, to: nat)
  {
    forall i :: 0 <= i < |blocks| ==> Maximal(blocks[i], to)
  }

  /** The bits of the block the loop takes at `cursor`. */
  function Bits(cursor: nat, end: u16): (bits: nat)
    requires cursor <= end
    ensures bits <= 16
  {
    var alignment := if cursor == 0 then 16 else Min(TrailingZeros(cursor), 16);
    Min(alignment, Log2(end - cursor + 1))
  }

  lemma BitsFit(cursor: nat, end: u16)
    requires cursor <= end
    ensures cursor % Pow2(Bits(cursor, end)) == 0
    ensures cursor + Pow2(Bits(cursor, end)) <= end + 1
  {
    hide Pow2, TrailingZeros, Log2;
    var bits := Bits(cursor, end);
    Pow2Factor(bits, Log2(end - cursor + 1));
    if cursor == 0 {
      MultipleMod(Pow2(bits), 0);
    } else {
      DividesDown(cursor, bits, TrailingZeros(cursor));
    }
  }

  lemma BitsMaximal(cursor: nat, end: u16)
    requires cursor <= end
    ensures Maximal(PortBlock(cursor, 16 - Bits(cursor, end)), end + 1)
  {
    hide Pow2, TrailingZeros, Log2;
    var bits := Bits(cursor, end);
    forall p | 0 <= p < 16 - bits && cursor % Size(p) == 0 ensures cursor + Size(p) > end + 1 {
      if bits == Log2(end - cursor + 1) {
        Pow2Factor(bits + 1, 16 - p);
      } else {
        DividesDown(cursor, TrailingZeros(cursor) + 1, 16 - p);
      }
    }
  }

  /** The expansion of a range: its blocks tile the range greedily. */
  method Blocks(range: PortRange) returns (blocks: seq<PortBlock>)
    ensures range.start <= range.end ==> Tiling(blocks, range.start, range.end + 1)
    ensures range.start > range.end ==> blocks == []
    ensures Greedy(blocks, range.end + 1)
  {
    hide Pow2, Bits, Maximal;
    var cursor: nat := range.start;
    blocks := [];
    while cursor <= range.end
      invariant range.start <= cursor
      invariant if range.start <= range.end then cursor <= range.end + 1 else blocks == []
      invariant Tiling(blocks, range.start, cursor)
      invariant Greedy(blocks, range.end + 1)
      decreases range.end + 1 - cursor
    {
      var bits := Bits(cursor, range.end);
      BitsFit(cursor, range.end);
      BitsMaximal(cursor, range.end);
      var block := PortBlock(cursor, 16 - bits);
      TilingSnoc(blocks, range.start, cursor, block);
      blocks := blocks + [block];
      cursor := cursor + Pow2(bits);
    }
  }

  // ---------- the expansion is minimal ----------

  /** Inside an aligned block, an aligned block that starts later ends by its end. */
  lemma Nested(base: nat, k: nat, at: nat, j: nat)
    requires base % Pow2(k) == 0 && base <= at < base + Pow2(k) && at % Pow2(j) == 0
    requires j <= k || at > base
    ensures at + Pow2(j) <= base + Pow2(k)
  {
    hide Pow2;
    var i := Min(j, k);
    var s := Pow2(i);
    DividesDown(base, i, k);
    DividesDown(at, i, j);
    Pow2Factor(i, k);
    OneIsPow2();
    InSteps(s, base, at, Pow2(k - i));
  }

  lemma OneIsPow2()
    ensures Pow2(0) == 1
  {
  }

  /** Multiples of `s`: one that is below `base + s * w` is a whole step below. */
  lemma InSteps(s: nat, base: nat, at: nat, w: nat)
    requires s > 0 && base % s == 0 && at % s == 0 && base <= at < base + s * w
    ensures at + s <= base + s * w
    ensures w == 1 ==> at == base
  {
    DivMod(base, s);
    DivMod(at, s);
    Distribute(s, base / s, w);
    MulCancel(s, at / s, base / s + w);
    MulStrict(s, at / s, base / s + w);
    if w == 1 {
      MulMono(s, at / s, base / s);
    }
  }

  /** A tiling that enters an aligned block strictly inside leaves it exactly at
      its end. */
  lemma {:induction false} LeaveBlock(t: seq<PortBlock>, from: nat, to: nat, base: nat, k: nat) returns (n: nat)
    requires Tiling(t, from, to) && base % Pow2(k) == 0
    requires base < from <= base + Pow2(k) <= to
    ensures n <= |t| && Tiling(t[n..], base + Pow2(k), to)
  {
    if from == base + Pow2(k) {
      n := 0;
    } else {
      Nested(base, k, from, 16 - t[0].prefix);
      var m := LeaveBlock(t[1..], from + Size(t[0].prefix), to, base, k);
      n := m + 1;
      assert t[n..] == t[1..][m..];
    }
  }

  lemma NoLarger(g: PortBlock, o: PortBlock, to: nat)
    requires Maximal(g, to) && o.prefix <= 16 && o.port == g.port && o.port % Size(o.prefix) == 0
    requires o.port + Size(o.prefix) <= to
    ensures Size(o.prefix) <= Size(g.prefix)
  {
    hide Pow2;
    if g.prefix <= o.prefix { Pow2Factor(16 - o.prefix, 16 - g.prefix); }
  }

  /** No tiling of the same span by aligned blocks is shorter than a greedy one. */
  lemma {:induction false} GreedyIsMinimal(greedy: seq<PortBlock>, other: seq<PortBlock>, from: nat, to: nat)
    requires Tiling(greedy, from, to) && Greedy(greedy, to) && Tiling(other, from, to)
    ensures |greedy| <= |other|
    decreases |greedy|
  {
    hide Pow2, Maximal;
    if greedy != [] {
      var g := greedy[0];
      var k := 16 - g.prefix;
      var mid := from + Pow2(k);
      TilingSpan(greedy[1..], mid, to);
      assert other != [];
      var o := other[0];
      TilingSpan(other[1..], from + Size(o.prefix), to);
      assert Maximal(greedy[0], to);
      NoLarger(g, o, to);
      assert forall i :: 0 <= i < |greedy[1..]| ==> greedy[1..][i] == greedy[i + 1];
      var n := LeaveBlock(other[1..], from + Size(o.prefix), to, from, k);
      assert other[1..][n..] == other[n + 1..];
      GreedyIsMinimal(greedy[1..], other[n + 1..], mid, to);
    }
  }
}
