/**
 Elementary number theory behind the two primality tests: primes, Euclid's
 lemma, the binomial theorem, Fermat's little theorem and the square roots of
 one modulo a prime.
 */
module Primes {
  import opened Arith

  /** n is prime: at least 2 and without a divisor strictly between 1 and n. */
  predicate IsPrime(n: int) {
    n >= 2 && forall d :: 2 <= d < n ==> n % d != 0
  }

  /**
   A prime p divides no product of two numbers from [1, p - 1]. The proof
   descends on b: if p divided a * b, it would divide a * (p mod b), and
   0 < p mod b < b because b does not divide the prime p.
   */
  lemma {:induction false} EuclidBounded(p: int, a: int, b: int)
    requires IsPrime(p) && 0 < a < p && 0 < b < p
    ensures (a * b) % p != 0
    decreases b
  {
    if b == 1 {
      ModOfSmall(a, p);
    } else {
      var q, r := p / b, p % b;
      assert p == q * b + r;
      assert 0 < r < b;
      assert (a * b) % p == 0 ==> (a * r) % p == 0 by {
        if (a * b) % p == 0 {
          var m := (a * b) / p;
          assert a * b == m * p;
          calc {
            a * r;
            a * (p - q * b);
            a * p - q * (a * b);
            a * p - q * (m * p);
            (a - q * m) * p;
          }
          ModOfMultiple(a - q * m, p);
        }
      }
      EuclidBounded(p, a, r);
    }
  }

  /** Euclid's lemma: a prime dividing a product divides one of the factors. */
  lemma Euclid(p: int, a: int, b: int)
    requires IsPrime(p) && (a * b) % p == 0
    ensures a % p == 0 || b % p == 0
  {
    MulMod(a, b, p);
    if a % p != 0 && b % p != 0 {
      EuclidBounded(p, a % p, b % p);
    }
  }

  /** Binomial coefficients by Pascal's rule. */
  function Binom(n: nat, k: nat): nat
    decreases n
  {
    if k == 0 then 1 else if n == 0 then 0 else Binom(n - 1, k - 1) + Binom(n - 1, k)
  }

  lemma {:induction false} BinomAbove(n: nat, k: nat)
    requires n < k
    ensures Binom(n, k) == 0
    decreases n
  {
    if n != 0 {
      BinomAbove(n - 1, k - 1);
      BinomAbove(n - 1, k);
    }
  }

  lemma {:induction false} BinomDiagonal(n: nat)
    ensures Binom(n, n) == 1
    decreases n
  {
    if n != 0 {
      BinomDiagonal(n - 1);
      BinomAbove(n - 1, n);
    }
  }

  lemma {:induction false} BinomOne(n: nat)
    ensures Binom(n, 1) == n
    decreases n
  {
    if n != 0 {
      BinomOne(n - 1);
    }
  }

  lemma AbsorptionStep(n: int, k: int, b: int, b0: int, b1: int, c1: int, c2: int)
    requires b == b1 + b0 && b1 == c2 + c1
    requires k * b0 == n * c1 && (k - 1) * b1 == n * c2
    ensures k * b == (n + 1) * b1
  {
    assert k * b == k * b1 + k * b0;
    assert k * b1 == (k - 1) * b1 + b1;
    assert n * b1 == n * c2 + n * c1;
  }

  /** The absorption identity k * C(n + 1, k) == (n + 1) * C(n, k - 1). */
  lemma {:induction false} Absorption(n: nat, k: nat)
    requires 1 <= k
    ensures k * Binom(n + 1, k) == (n + 1) * Binom(n, k - 1)
    decreases n
  {
    if k == 1 {
      BinomOne(n);
    } else if n == 0 {
      BinomAbove(0, k - 1);
      BinomAbove(0, k);
    } else {
      Absorption(n - 1, k);
      Absorption(n - 1, k - 1);
      AbsorptionStep(n, k, Binom(n + 1, k), Binom(n, k), Binom(n, k - 1),
                     Binom(n - 1, k - 1), Binom(n - 1, k - 2));
    }
  }

  lemma DividesProduct(k: int, c: int, d: int, p: int)
    requires p > 0 && k * c == p * d
    ensures (k * c) % p == 0
  {
    assert k * c == d * p;
    ModOfMultiple(d, p);
  }

  /** A prime p divides C(p, k) for 0 < k < p. */
  lemma BinomPrimeDivisible(p: int, k: nat)
    requires IsPrime(p) && 0 < k < p
    ensures Binom(p, k) % p == 0
  {
    var q: nat := p - 1;
    Absorption(q, k);
    var c, d := Binom(q + 1, k), Binom(q, k - 1);
    DividesProduct(k, c, d, p);
    Euclid(p, k, c);
    ModOfSmall(k, p);
  }

  /** The first j terms of the expansion of (x + 1)^n: the sum of C(n, i) * x^i for i < j. */
  function BinomSum(n: nat, x: int, j: nat): int
    decreases j
  {
    if j == 0 then 0 else BinomSum(n, x, j - 1) + Binom(n, j - 1) * Pow(x, j - 1)
  }

  lemma BinomSumStepAlgebra(x: int, y: int, s: int, s1: int, s2: int, t: int, t1: int, c1: int, c2: int)
    requires s == s1 + x * s2 + (c2 + c1) * (x * y)
    requires t == s1 + c1 * (x * y) && t1 == s2 + c2 * y
    ensures s == t + x * t1
  {
    assert (c2 + c1) * (x * y) == c1 * (x * y) + x * (c2 * y);
    assert x * t1 == x * s2 + x * (c2 * y);
  }

  /** Pascal's rule lifted to partial sums of the expansion. */
  lemma {:induction false} BinomSumStep(n: nat, x: int, j: nat)
    requires 1 <= j
    ensures BinomSum(n + 1, x, j) == BinomSum(n, x, j) + x * BinomSum(n, x, j - 1)
    decreases j
  {
    if j >= 2 {
      BinomSumStep(n, x, j - 1);
      var y := Pow(x, j - 2);
      assert Pow(x, j - 1) == x * y;
      BinomSumStepAlgebra(x, y, BinomSum(n + 1, x, j), BinomSum(n, x, j - 1), BinomSum(n, x, j - 2),
                          BinomSum(n, x, j), BinomSum(n, x, j - 1), Binom(n, j - 1), Binom(n, j - 2));
    }
  }

  /** The binomial theorem: the full expansion of (x + 1)^n sums to (x + 1)^n. */
  lemma {:induction false} BinomialTheorem(n: nat, x: int)
    ensures BinomSum(n, x, n + 1) == Pow(x + 1, n)
    decreases n
  {
    if n != 0 {
      BinomialTheorem(n - 1, x);
      BinomSumStep(n - 1, x, n + 1);
      BinomAbove(n - 1, n);
      var s := BinomSum(n - 1, x, n);
      calc {
        BinomSum(n, x, n + 1);
        BinomSum(n - 1, x, n + 1) + x * s;
        s + x * s;
        (x + 1) * s;
      }
    }
  }

  /** Modulo a prime p, the inner terms of the expansion of (x + 1)^p vanish. */
  lemma {:induction false} InnerTermsVanish(p: int, x: int, j: nat)
    requires IsPrime(p) && 1 <= j <= p
    ensures BinomSum(p, x, j) % p == 1
    decreases j
  {
    if j == 1 {
      ModOfSmall(1, p);
    } else {
      InnerTermsVanish(p, x, j - 1);
      BinomPrimeDivisible(p, j - 1);
      var m := Binom(p, j - 1) / p;
      assert Binom(p, j - 1) == m * p;
      assert Binom(p, j - 1) * Pow(x, j - 1) == (m * Pow(x, j - 1)) * p;
      ModAddMultiple(BinomSum(p, x, j - 1), m * Pow(x, j - 1), p);
    }
  }

  /** (x + 1)^p is congruent to x^p + 1 modulo a prime p. */
  lemma FreshmansDream(p: int, x: int)
    requires IsPrime(p)
    ensures Pow(x + 1, p) % p == (Pow(x, p) + 1) % p
  {
    BinomialTheorem(p, x);
    InnerTermsVanish(p, x, p);
    BinomDiagonal(p);
    var s := BinomSum(p, x, p);
    assert Pow(x + 1, p) == s + Pow(x, p);
    ModEqualDifference(s, 1, p);
    ModOfSmall(1, p);
    ModAddCongruent(s, 1, Pow(x, p), p);
  }

  /** a^p is congruent to a modulo a prime p, for every natural a. */
  lemma {:induction false} PowPrimeCongruent(p: int, a: nat)
    requires IsPrime(p)
    ensures Pow(a, p) % p == a % p
    decreases a
  {
    if a == 0 {
      PowAdd(0, 1, p - 1);
    } else {
      PowPrimeCongruent(p, a - 1);
      FreshmansDream(p, a - 1);
      ModAddCongruent(Pow(a - 1, p), a - 1, 1, p);
    }
  }

  /** Fermat's little theorem: a^(p - 1) mod p == 1 for a prime p and 1 <= a <= p - 1. */
  lemma FermatLittle(p: int, a: int)
    requires IsPrime(p) && 1 <= a <= p - 1
    ensures Pow(a, p - 1) % p == 1
  {
    PowPrimeCongruent(p, a);
    var t := Pow(a, p - 1);
    assert Pow(a, p) == a * t;
    ModEqualDifference(a * t, a, p);
    assert a * (t - 1) == a * t - a;
    Euclid(p, a, t - 1);
    ModOfSmall(a, p);
    ModOfSmall(1, p);
    ModEqualDifference(t, 1, p);
  }

  /** Modulo a prime, the only residues whose square is 1 are 1 and p - 1. */
  lemma SquareRootsOfOne(p: int, z: int)
    requires IsPrime(p) && 0 <= z < p && (z * z) % p == 1
    ensures z == 1 || z == p - 1
  {
    assert z != 0;
    ModOfSmall(1, p);
    ModEqualDifference(z * z, 1, p);
    assert (z - 1) * (z + 1) == z * z - 1;
    Euclid(p, z - 1, z + 1);
    ModOfSmall(z - 1, p);
    if z + 1 < p {
      ModOfSmall(z + 1, p);
    }
  }
}
