/** Bytes, fixed-width machine integers and their big-endian encodings, shared
    by every wire format of the model. */
module Bytes {

  datatype Option<+T> = None | Some(value: T)

  datatype Result<+T, +E> = Ok(value: T) | Err(error: E) {
    predicate IsFailure() { Err? }

    function PropagateFailure<U>(): (r: Result<U, E>)
      requires Err?
    {
      Err(error)
    }

    function Extract(): T
      requires Ok?
    {
      value
    }
  }

  const U16_MAX: nat := 0xFFFF
  const U32_MAX: nat := 0xFFFF_FFFF
  const U64_MAX: nat := 0xFFFF_FFFF_FFFF_FFFF

  type byte = x: int | 0 <= x < 0x100
  type u16 = x: int | 0 <= x <= U16_MAX
  type u32 = x: int | 0 <= x <= U32_MAX
  type u64 = x: int | 0 <= x <= U64_MAX

  function Min(a: int, b: int): int { if a <= b then a else b }

  /** Whether bit `k` of `x` is set (`x & (1 << k) != 0`), for `p == 1 << k`. */
  predicate BitSet(x: nat, p: nat)
    requires p > 0
  {
    (x / p) % 2 == 1
  }

  function Pow2(n: nat): (r: nat)
    ensures r > 0
  {
    if n == 0 then 1 else 2 * Pow2(n - 1)
  }

  lemma {:induction false} Pow2Sum(a: nat, b: nat)
    ensures Pow2(a + b) == Pow2(a) * Pow2(b)
  {
    if a > 0 {
      Pow2Sum(a - 1, b);
      var x, y := Pow2(a - 1), Pow2(b);
      Doubled(x, y);
      assert Pow2(a) == 2 * x && Pow2(a + b) == 2 * Pow2(a - 1 + b);
    }
  }

  lemma Doubled(x: int, y: int)
    ensures (2 * x) * y == 2 * (x * y)
  {
  }

  /** Quotient and remainder are determined by their defining equation. */
  lemma DivModUnique(n: int, m: int, q: int, r: int)
    requires m > 0 && n == q * m + r && 0 <= r < m
    ensures n / m == q && n % m == r
  {
    QuotientBounds(n, m, q, r, n / m, n % m);
  }

  lemma QuotientBounds(n: int, m: int, q: int, r: int, q': int, r': int)
    requires m > 0 && n == q * m + r && 0 <= r < m
    requires n == m * q' + r' && 0 <= r' < m
    ensures q' == q && r' == r
  {
    var d := q' - q;
    assert m * d == r - r' by {
      assert m * d == m * q' - m * q;
    }
  }

  function U16Bytes(n: u16): (r: seq<byte>)
    ensures |r| == 2
  {
    [n / 0x100, n % 0x100]
  }

  function U16Of(b: seq<byte>): (n: u16)
    requires |b| == 2
  {
    var hi: int, lo: int := b[0], b[1];
    hi * 0x100 + lo
  }

  lemma U16RoundTrip(n: u16)
    ensures U16Of(U16Bytes(n)) == n
  {
  }

  /** The `len` low-order bytes of `n`, most significant first (`to_be_bytes`). */
  function BeBytes(n: nat, len: nat): (r: seq<byte>)
    ensures |r| == len
  {
    if len == 0 then [] else BeBytes(n / 0x100, len - 1) + [n % 0x100]
  }

  /** The number whose big-endian bytes are `b` (`from_be_bytes`). */
  function BeValue(b: seq<byte>): nat
  {
    if b == [] then 0 else BeValue(b[..|b| - 1]) * 0x100 + b[|b| - 1]
  }

  lemma {:induction false} BeRoundTrip(n: nat, len: nat)
    requires n < Pow2(8 * len)
    ensures BeValue(BeBytes(n, len)) == n
  {
    if len > 0 {
      assert Pow2(8 * len) == 0x100 * Pow2(8 * (len - 1)) by { Pow2Byte(8 * (len - 1)); }
      BeRoundTrip(n / 0x100, len - 1);
      var b := BeBytes(n, len);
      assert b[..|b| - 1] == BeBytes(n / 0x100, len - 1);
    }
  }

  lemma Pow2Byte(k: nat)
    ensures Pow2(k + 8) == 0x100 * Pow2(k)
  {
    assert Pow2(k + 8) == 2 * Pow2(k + 7) == 4 * Pow2(k + 6) == 8 * Pow2(k + 5) == 16 * Pow2(k + 4);
    assert Pow2(k + 4) == 2 * Pow2(k + 3) == 4 * Pow2(k + 2) == 8 * Pow2(k + 1);
  }

  lemma {:induction false} BeValueBound(b: seq<byte>)
    ensures BeValue(b) < Pow2(8 * |b|)
  {
    if b != [] {
      BeValueBound(b[..|b| - 1]);
      Pow2Byte(8 * (|b| - 1));
    }
  }

  lemma {:induction false} BeBytesOfValue(b: seq<byte>)
    ensures BeBytes(BeValue(b), |b|) == b
  {
    if b != [] {
      BeBytesOfValue(b[..|b| - 1]);
      assert b == b[..|b| - 1] + [b[|b| - 1]];
    }
  }

  function U32Bytes(n: u32): (r: seq<byte>)
    ensures |r| == 4
  {
    BeBytes(n, 4)
  }

  function U32Of(b: seq<byte>): (n: u32)
    requires |b| == 4
  {
    BeValueBound(b);
    Pow2Values();
    BeValue(b)
  }

  lemma Pow2Values()
    ensures Pow2(8) == 0x100 && Pow2(16) == 0x1_0000
    ensures Pow2(24) == 0x100_0000 && Pow2(32) == 0x1_0000_0000
  {
    Pow2Byte(0);
    Pow2Byte(8);
    Pow2Byte(16);
    Pow2Byte(24);
  }

  lemma U32RoundTrip(n: u32)
    ensures U32Of(U32Bytes(n)) == n
  {
    Pow2Values();
    BeRoundTrip(n, 4);
  }

  lemma TakeNext<T>(s: seq<T>, i: nat)
    requires i < |s|
    ensures s[..i + 1] == s[..i] + [s[i]]
  {
  }

  /** Concatenation of a list of byte strings. */
  function Concat<T>(parts: seq<seq<T>>): seq<T>
  {
    if parts == [] then [] else parts[0] + Concat(parts[1..])
  }

  lemma {:induction false} ConcatSplit<T>(a: seq<seq<T>>, b: seq<seq<T>>)
    ensures Concat(a + b) == Concat(a) + Concat(b)
  {
    if a == [] {
      assert a + b == b;
    } else {
      ConcatSplit(a[1..], b);
      assert (a + b)[1..] == a[1..] + b;
      assert a[0] + (Concat(a[1..]) + Concat(b)) == (a[0] + Concat(a[1..])) + Concat(b);
    }
  }

  lemma ConcatSnoc<T>(a: seq<seq<T>>, x: seq<T>)
    ensures Concat(a + [x]) == Concat(a) + x
  {
    ConcatSplit(a, [x]);
    assert Concat([x]) == x + Concat<T>([]);
  }

  /** Loop bookkeeping: `whole` is `done` followed by what `rest` still gives. */
  ghost predicate Extends<T, E>(whole: Result<seq<T>, E>, done: seq<T>, rest: Result<seq<T>, E>)
  {
    match rest
    case Ok(r) => whole == Ok(done + r)
    case Err(e) => whole == Err(e)
  }

  lemma ExtendsStart<T, E>(whole: Result<seq<T>, E>)
    ensures Extends(whole, [], whole)
  {
    if whole.Ok? {
      assert [] + whole.value == whole.value;
    }
  }

  lemma ExtendsStep<T, E>(whole: Result<seq<T>, E>, done: seq<T>, next: seq<T>, rest: Result<seq<T>, E>)
    requires rest.Ok? ==> whole == Ok(done + (next + rest.value))
    requires rest.Err? ==> whole == Err(rest.error)
    ensures Extends(whole, done + next, rest)
  {
    if rest.Ok? {
      assert done + (next + rest.value) == (done + next) + rest.value;
    }
  }
}
