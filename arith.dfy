/**
 Integer and real arithmetic that the model of the primality tests rests on:
 natural powers, the uniqueness of Euclidean division, modular arithmetic on
 sums and products, and powers of a positive real with an integer exponent.
 */
module Arith {

  /** x raised to the natural power e, by repeated multiplication. */
  function Pow(x: int, e: nat): int
    decreases e
  {
    if e == 0 then 1 else x * Pow(x, e - 1)
  }

  lemma {:induction false} PowAdd(x: int, a: nat, b: nat)
    ensures Pow(x, a + b) == Pow(x, a) * Pow(x, b)
    decreases a
  {
    if a != 0 {
      PowAdd(x, a - 1, b);
      calc {
        Pow(x, a + b);
        x * Pow(x, a - 1 + b);
        x * (Pow(x, a - 1) * Pow(x, b));
        (x * Pow(x, a - 1)) * Pow(x, b);
      }
    }
  }

  lemma MulAtLeast(a: int, p: int)
    requires a >= 1 && p > 0
    ensures a * p >= p
  {
    assert a * p == (a - 1) * p + p;
  }

  /** Quotient and remainder are determined by x == q * p + r with 0 <= r < p. */
  lemma DivModUnique(x: int, p: int, q: int, r: int)
    requires p > 0 && 0 <= r < p && x == q * p + r
    ensures x / p == q && x % p == r
  {
    var q0, r0 := x / p, x % p;
    assert q0 * p + r0 == x;
    assert (q - q0) * p == r0 - r;
    if q > q0 {
      MulAtLeast(q - q0, p);
    } else if q < q0 {
      MulAtLeast(q0 - q, p);
    }
  }

  lemma ModAddMultiple(x: int, m: int, p: int)
    requires p > 0
    ensures (x + m * p) % p == x % p
  {
    DivModUnique(x + m * p, p, x / p + m, x % p);
  }

  lemma ModOfMultiple(m: int, p: int)
    requires p > 0
    ensures (m * p) % p == 0
  {
    DivModUnique(m * p, p, m, 0);
  }

  lemma ModOfSmall(x: int, p: int)
    requires 0 <= x < p
    ensures x % p == x
  {
    DivModUnique(x, p, 0, x);
  }

  /** Numbers with equal remainders differ by a multiple of p. */
  lemma ModEqualDifference(x: int, y: int, p: int)
    requires p > 0
    ensures x % p == y % p <==> (x - y) % p == 0
  {
    ModAddMultiple(x - y, y / p - x / p, p);
    assert (x - y) + (y / p - x / p) * p == x % p - y % p;
    if x % p >= y % p {
      ModOfSmall(x % p - y % p, p);
    } else {
      ModAddMultiple(x % p - y % p, 1, p);
      ModOfSmall(x % p - y % p + p, p);
    }
  }

  lemma ModAddCongruent(x: int, y: int, c: int, p: int)
    requires p > 0 && x % p == y % p
    ensures (x + c) % p == (y + c) % p
  {
    ModEqualDifference(x, y, p);
    ModEqualDifference(x + c, y + c, p);
    assert (x + c) - (y + c) == x - y;
  }

  /** Reducing both factors modulo p does not change the product modulo p. */
  lemma MulMod(a: int, b: int, p: int)
    requires p > 0
    ensures (a * b) % p == ((a % p) * (b % p)) % p
  {
    var qa, ra := a / p, a % p;
    var qb, rb := b / p, b % p;
    calc {
      a * b;
      (qa * p + ra) * (qb * p + rb);
      ra * rb + (qa * qb * p + qa * rb + ra * qb) * p;
    }
    ModAddMultiple(ra * rb, qa * qb * p + qa * rb + ra * qb, p);
  }

  /** A positive real raised to a natural power, by repeated multiplication. */
  function RealPow(b: real, e: nat): (r: real)
    ensures 0.0 < b ==> 0.0 < r
    ensures 0.0 < b <= 1.0 ==> r <= 1.0
    decreases e
  {
    if e == 0 then 1.0
    else
      var t := RealPow(b, e - 1);
      assert 0.0 < b ==> 0.0 < b * t;
      assert 0.0 < b <= 1.0 ==> b * t <= t;
      b * t
  }

  lemma ShrinkBelowOne(b: real, x: real, y: real)
    requires 0.0 < b <= 1.0 && 0.0 < x && y == b * x
    ensures y <= x
  {
  }

  /** For a base in (0, 1], a larger exponent gives a power no larger. */
  lemma {:induction false} RealPowAntitone(b: real, j: nat, k: nat)
    requires 0.0 < b <= 1.0 && j <= k
    ensures RealPow(b, k) <= RealPow(b, j)
    decreases k - j
  {
    if j < k {
      RealPowAntitone(b, j, k - 1);
      var x := RealPow(b, k - 1);
      ShrinkBelowOne(b, x, RealPow(b, k));
    }
  }

  /** Squaring the base squares the power. */
  lemma {:induction false} RealPowSquareBase(b: real, e: nat)
    ensures RealPow(b * b, e) == RealPow(b, e) * RealPow(b, e)
    decreases e
  {
    if e != 0 {
      RealPowSquareBase(b, e - 1);
      var x := RealPow(b, e - 1);
      calc {
        RealPow(b * b, e);
        (b * b) * RealPow(b * b, e - 1);
        (b * b) * (x * x);
        (b * x) * (b * x);
      }
    }
  }
}
