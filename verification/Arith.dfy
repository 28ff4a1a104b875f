/** Nonlinear facts about whole numbers, each small enough to stand alone. */
module Arith {
  import opened Bytes

  lemma Distribute(s: int, a: int, b: int)
    ensures s * (a + b) == s * a + s * b
    ensures s * (a - b) == s * a - s * b
  {
  }

  lemma MulMono(s: nat, a: int, b: int)
    requires a <= b
    ensures s * a <= s * b
  {
    Distribute(s, b, a);
    assert s * (b - a) >= 0;
  }

  lemma MulStrict(s: nat, a: int, b: int)
    requires s > 0 && a < b
    ensures s * a + s <= s * b
  {
    MulMono(s, a + 1, b);
    Distribute(s, a, 1);
  }

  lemma MulCancel(s: nat, a: int, b: int)
    requires s > 0
    ensures s * a == s * b ==> a == b
    ensures s * a < s * b ==> a < b
  {
    if b <= a { MulMono(s, b, a); }
    if a < b { MulStrict(s, a, b); }
    if b < a { MulStrict(s, b, a); }
  }

  lemma MulAssoc(a: int, b: int, c: int)
    ensures (a * b) * c == a * (b * c)
  {
  }

  lemma DivMod(x: int, m: nat)
    requires m > 0
    ensures x == m * (x / m) + x % m && 0 <= x % m < m
    ensures x >= 0 ==> x / m >= 0 && x % m <= x
  {
    if x >= 0 {
      if x / m < 0 { MulStrict(m, x / m, 0); }
      MulMono(m, 0, x / m);
    }
  }

  lemma DivTwice(x: nat, a: nat, b: nat)
    requires a > 0 && b > 0
    ensures a * b > 0 && x / (a * b) == (x / a) / b
  {
    MulStrict(a, 0, b);
    DivMod(x, a);
    DivMod(x / a, b);
    var q2, r2 := (x / a) / b, (x / a) % b;
    Distribute(a, b * q2, r2);
    MulAssoc(a, b, q2);
    MulStrict(a, r2, b);
    MulMono(a, 0, r2);
    DivModUnique(x, a * b, q2, a * r2 + x % a);
  }

  /** What a product divides, its factor divides. */
  lemma DividesFactor(x: nat, a: nat, b: nat)
    requires a > 0 && b > 0 && a * b > 0 && x % (a * b) == 0
    ensures x % a == 0
  {
    DivMod(x, a * b);
    MulAssoc(a, b, x / (a * b));
    DivModUnique(x, a, b * (x / (a * b)), 0);
  }

  lemma MultipleMod(m: nat, k: nat)
    requires m > 0
    ensures (m * k) % m == 0 && (m * k) / m == k
  {
    DivModUnique(m * k, m, k, 0);
  }

  lemma Pow2Factor(a: nat, b: nat)
    requires a <= b
    ensures Pow2(b) == Pow2(a) * Pow2(b - a)
    ensures Pow2(a) <= Pow2(b)
    ensures a < b ==> 2 * Pow2(a) <= Pow2(b)
  {
    Pow2Sum(a, b - a);
    MulMono(Pow2(a), 1, Pow2(b - a));
    if a < b { MulMono(Pow2(a), 2, Pow2(b - a)); }
  }

  lemma DividesDown(x: nat, a: nat, b: nat)
    requires a <= b && x % Pow2(b) == 0
    ensures x % Pow2(a) == 0
  {
    Pow2Factor(a, b);
    DividesFactor(x, Pow2(a), Pow2(b - a));
  }

  /** Products and whole multiples below a number are not negative. */
  lemma ProductNat(a: nat, b: nat)
    ensures a * b >= 0
  {
  }

  lemma MultipleBelow(x: nat, m: nat)
    requires m > 0
    ensures 0 <= x / m * m <= x
  {
    DivMod(x, m);
    assert x / m * m == m * (x / m);
  }

  /** A multiple has the quotient of a number exactly when it is that many units. */
  lemma SameQuotient(x: nat, p: nat, m: nat)
    requires m > 0 && p % m == 0
    ensures p / m == x / m <==> p == x / m * m
  {
    DivMod(p, m);
    DivMod(x, m);
    if p == x / m * m { DivModUnique(p, m, x / m, 0); }
  }

  /** A number less its remainder is a multiple. */
  lemma LessRemainder(x: nat, m: nat)
    requires m > 0
    ensures x % m <= x && (x - x % m) % m == 0
  {
    DivMod(x, m);
    MultipleMod(m, x / m);
  }

  /** `x & mask` for the mask that clears the bits below `m`, a power of two. */
  function RoundDown(x: nat, m: nat): (r: nat)
    requires m > 0
    ensures r <= x
  {
    DivMod(x, m);
    x - x % m
  }

  lemma RoundDownEqual(x: nat, y: nat, m: nat)
    requires m > 0
    ensures RoundDown(x, m) == RoundDown(y, m) <==> x / m == y / m
  {
    DivMod(x, m);
    DivMod(y, m);
    MulCancel(m, x / m, y / m);
  }

  /** Numbers that agree under a fine mask agree under a coarser one. */
  lemma RoundDownCoarser(x: nat, y: nat, a: nat, b: nat)
    requires a > 0 && b > 0 && RoundDown(x, a) == RoundDown(y, a)
    ensures a * b > 0 && RoundDown(x, a * b) == RoundDown(y, a * b)
  {
    hide RoundDown;
    DivTwice(x, a, b);
    DivTwice(y, a, b);
    RoundDownEqual(x, y, a);
    RoundDownEqual(x, y, a * b);
  }
}
