/**
 * `CPrng`: the 64-bit linear congruential state of PCG-XSH-RR, and its period. Reductions
 * modulo 2^64 are written out; the proof works with the unreduced recurrence.
 */
module PrngPeriod {
  import opened Bytes
  import opened Division

  // ----- divisibility by powers of two, one factor at a time

  predicate DividedBy(k: nat, x: int) {
    k == 0 || (x % 2 == 0 && DividedBy(k - 1, x / 2))
  }

  lemma OddTimesParity(s: int, q: int)
    requires q % 2 == 1
    ensures s * q % 2 == s % 2
  {
    var h := q / 2;
    assert q == 2 * h + 1;
    assert s * q == 2 * (s * h) + s;
  }

  lemma EvenTimes(t: int, q: int)
    ensures (2 * t) * q == 2 * (t * q)
  {
  }

  lemma OddTimes(s: int, q: int)
    requires q % 2 == 1
    ensures s * q % 2 == s % 2
    ensures s % 2 == 0 ==> s * q / 2 == s / 2 * q
  {
    OddTimesParity(s, q);
    if s % 2 == 0 {
      EvenTimes(s / 2, q);
      assert s == 2 * (s / 2);
    }
  }

  lemma {:induction false} OddFactor(k: nat, s: int, q: int)
    requires q % 2 == 1
    ensures DividedBy(k, s * q) <==> DividedBy(k, s)
    decreases k
  {
    if k > 0 {
      OddTimes(s, q);
      OddFactor(k - 1, s / 2, q);
    }
  }

  lemma {:induction false} DividedByIsModulo(k: nat, x: int)
    ensures DividedBy(k, x) <==> x % Pow2(k) == 0
    decreases k
  {
    if k > 0 {
      DividedByIsModulo(k - 1, x / 2);
      var p, h := Pow2(k - 1), x / 2;
      DivModOf(h, p);
      var d, r := h / p, h % p;
      assert x == 2 * h + x % 2;
      assert x == (2 * p) * d + (2 * r + x % 2) by { assert h == p * d + r; Distribute(p, d); }
      ModOf(x, 2 * p, d, 2 * r + x % 2);
    }
  }

  // ----- powers and geometric sums of the multiplier

  function Power(a: int, n: nat): int {
    if n == 0 then 1 else a * Power(a, n - 1)
  }

  /** 1 + a + ... + a^(n-1). */
  function Geometric(a: int, n: nat): int {
    if n == 0 then 0 else a * Geometric(a, n - 1) + 1
  }

  lemma SumStep(a: int, p: int, p': int, g: int, h: int, s: int)
    requires p' == a * p && s == p * g + h
    ensures a * s + 1 == p' * g + (a * h + 1)
  {
    assert a * (p * g + h) == (a * p) * g + a * h;
  }

  lemma {:induction false} GeometricSum(a: int, m: nat, n: nat)
    ensures Geometric(a, m + n) == Power(a, n) * Geometric(a, m) + Geometric(a, n)
    decreases n
  {
    if n > 0 {
      GeometricSum(a, m, n - 1);
      SumStep(a, Power(a, n - 1), Power(a, n), Geometric(a, m), Geometric(a, n - 1), Geometric(a, m + n - 1));
    }
  }

  lemma PowerStep(h: int, p: int, e: int)
    requires p == 1 + 4 * e
    ensures (4 * h + 1) * p == 1 + 4 * (h * p + e)
  {
    assert (4 * h + 1) * p == 4 * (h * p) + p;
  }

  lemma {:induction false} PowerMod4(a: int, h: int, n: nat) returns (e: int)
    requires a == 4 * h + 1
    ensures Power(a, n) == 1 + 4 * e
    decreases n
  {
    e := 0;
    if n > 0 {
      e := PowerMod4(a, h, n - 1);
      PowerStep(h, Power(a, n - 1), e);
      e := h * Power(a, n - 1) + e;
    }
  }

  lemma ParityStep(b: int, g: int, k: int, e: int)
    requires g == k + 2 * e
    ensures (2 * b + 1) * g + 1 == k + 1 + 2 * (b * g + e)
  {
    assert (2 * b + 1) * g == 2 * (b * g) + g;
  }

  lemma {:induction false} GeometricParity(a: int, b: int, n: nat) returns (e: int)
    requires a == 2 * b + 1
    ensures Geometric(a, n) == n + 2 * e
    decreases n
  {
    e := 0;
    if n > 0 {
      e := GeometricParity(a, b, n - 1);
      ParityStep(b, Geometric(a, n - 1), n - 1, e);
      e := b * Geometric(a, n - 1) + e;
    }
  }

  lemma OddHalf(p: int, e: int)
    requires p == 1 + 4 * e
    ensures p + 1 == 2 * ((p + 1) / 2) && (p + 1) / 2 % 2 == 1
  {
  }

  lemma TwoHalves(p: int, g: int, q: int)
    requires p + 1 == 2 * q
    ensures p * g + g == 2 * (g * q)
  {
    assert (p + 1) * g == p * g + g;
    assert (2 * q) * g == 2 * (g * q);
  }

  /** Twice as many powers: twice an odd multiple of the sum. */
  lemma Doubling(a: int, h: int, m: nat) returns (q: int)
    requires a == 4 * h + 1
    ensures q % 2 == 1 && Geometric(a, m + m) == 2 * (Geometric(a, m) * q)
  {
    var p := Power(a, m);
    GeometricSum(a, m, m);
    var e := PowerMod4(a, h, m);
    OddHalf(p, e);
    q := (p + 1) / 2;
    TwoHalves(p, Geometric(a, m), q);
  }

  lemma SameParity(x: int, y: int, e: int)
    requires x == y + 2 * e
    ensures x % 2 == y % 2
  {
  }

  lemma HalfDivided(k: nat, s: int, g: int, q: int)
    requires k > 0 && q % 2 == 1 && s == 2 * (g * q)
    ensures DividedBy(k, s) <==> DividedBy(k - 1, g)
  {
    OddFactor(k - 1, g, q);
    var half := g * q;
    assert s % 2 == 0 && s / 2 == half;
  }

  /** For a multiplier that is 1 modulo 4, the sum of n powers has as many factors 2 as n. */
  lemma {:induction false} GeometricDivided(a: int, h: int, k: nat, n: nat)
    requires a == 4 * h + 1
    ensures DividedBy(k, Geometric(a, n)) <==> DividedBy(k, n)
    decreases k
  {
    var e := GeometricParity(a, 2 * h, n);
    SameParity(Geometric(a, n), n, e);
    if k > 0 && n % 2 == 0 {
      var m := n / 2;
      var q := Doubling(a, h, m);
      HalfDivided(k, Geometric(a, n), Geometric(a, m), q);
      GeometricDivided(a, h, k - 1, m);
    }
  }

  // ----- the recurrence

  /** The state after `n` steps from `x`, before reduction. */
  function Unreduced(a: int, c: int, x: int, n: nat): int {
    if n == 0 then x else a * Unreduced(a, c, x, n - 1) + c
  }

  lemma DistanceStep(a: int, c: int, x: int, u: int, g: int, g': int, q: int)
    requires u - x == g * q && q == (a - 1) * x + c && g' == a * g + 1
    ensures a * u + c - x == g' * q
  {
    assert a * u == a * x + a * (g * q);
    assert (a * g + 1) * q == a * (g * q) + q;
    assert (a - 1) * x == a * x - x;
  }

  lemma {:induction false} UnreducedDistance(a: int, c: int, x: int, n: nat, q: int)
    requires q == (a - 1) * x + c
    ensures Unreduced(a, c, x, n) - x == Geometric(a, n) * q
    decreases n
  {
    if n > 0 {
      UnreducedDistance(a, c, x, n - 1, q);
      DistanceStep(a, c, x, Unreduced(a, c, x, n - 1), Geometric(a, n - 1), Geometric(a, n), q);
    }
  }

  lemma OddPlus(y: int, c: int)
    requires c % 2 == 1
    ensures (2 * y + c) % 2 == 1
  {
  }

  lemma OddSum(b: int, x: int, c: int)
    requires b % 2 == 0 && c % 2 == 1
    ensures (b * x + c) % 2 == 1
  {
    var h := b / 2;
    EvenTimes(h, x);
    assert 2 * h == b;
    OddPlus(h * x, c);
  }

  lemma DividedProduct(k: nat, d: int, g: int, q: int)
    requires d == g * q && q % 2 == 1
    ensures DividedBy(k, d) <==> DividedBy(k, g)
  {
    OddFactor(k, g, q);
  }

  lemma OddDistance(a: int, c: int, x: int, n: nat) returns (q: int)
    requires a % 4 == 1 && c % 2 == 1
    ensures q % 2 == 1 && Unreduced(a, c, x, n) - x == Geometric(a, n) * q
  {
    q := (a - 1) * x + c;
    UnreducedDistance(a, c, x, n, q);
    OddSum(a - 1, x, c);
  }

  lemma DistanceDivided(a: int, c: int, x: int, k: nat, n: nat)
    requires a % 4 == 1 && c % 2 == 1
    ensures DividedBy(k, Unreduced(a, c, x, n) - x) <==> DividedBy(k, Geometric(a, n))
  {
    var q := OddDistance(a, c, x, n);
    DividedProduct(k, Unreduced(a, c, x, n) - x, Geometric(a, n), q);
  }

  /** `n` unreduced steps come back to `x` modulo 2^k exactly when 2^k divides `n`. */
  lemma ReturnsIff(a: int, c: int, x: int, k: nat, n: nat)
    requires a % 4 == 1 && c % 2 == 1
    ensures DividedBy(k, Unreduced(a, c, x, n) - x) <==> DividedBy(k, n)
  {
    DistanceDivided(a, c, x, k, n);
    GeometricDivided(a, a / 4, k, n);
  }

  lemma ReturnsModulo(a: int, c: int, x: int, k: nat, n: nat)
    requires a % 4 == 1 && c % 2 == 1
    ensures (Unreduced(a, c, x, n) - x) % Pow2(k) == 0 <==> n % Pow2(k) == 0
  {
    ReturnsIff(a, c, x, k, n);
    DividedByIsModulo(k, Unreduced(a, c, x, n) - x);
    DividedByIsModulo(k, n);
  }
}
