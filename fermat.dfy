/**
 The primality tests of fermat.py: modular exponentiation by repeated
 squaring, the Fermat test, the Miller-Rabin test with the exponent halved by
 Python 3's float division, the pair of verdicts that prime_test returns, and
 the two error-bound estimators.

 The random witnesses become a parameter: `draws` is the sequence of values
 that random.randint(1, N - 1) returns, in the order the program asks for
 them, so every value lies in [1, N - 1]. Each test takes its witnesses from
 the front of what it is given and reports how many it took where a later
 test goes on drawing from the same source.
 */
module Fermat {
  import opened Arith
  import opened Primes

  /** The strings 'prime' and 'composite' that the tests return. */
  datatype Verdict = Prime | Composite

  // ---------------------------------------------------------------------------
  // mod_exp
  // ---------------------------------------------------------------------------

  /**
   x^y mod N by recursion on floor(y / 2). The base case returns 1 whatever N
   is, so ModExp(x, 0, 1) is 1 rather than 0; every other result is a residue.
   A negative exponent is excluded by the type: the source keeps recursing on
   it until Python's recursion limit raises RecursionError.
   */
  function ModExp(x: int, y: nat, n: int): (r: int)
    requires n >= 1
    ensures y == 0 ==> r == 1
    ensures y > 0 ==> 0 <= r < n
    decreases y
  {
    if y == 0 then 1
    else
      var z := ModExp(x, y / 2, n);
      if y % 2 == 0 then (z * z) % n else (x * (z * z)) % n
  }

  lemma MulModSquares(x: int, z: int, s: int, t: int, n: int)
    requires n >= 1 && s == z * z && s % n == t % n
    ensures (x * s) % n == (x * t) % n
  {
    MulMod(x, s, n);
    MulMod(x, t, n);
  }

  /** For a positive exponent, mod_exp agrees with the naive x^y mod N. */
  lemma {:induction false} ModExpIsPow(x: int, y: nat, n: int)
    requires n >= 1 && y >= 1
    ensures ModExp(x, y, n) == Pow(x, y) % n
    decreases y
  {
    var h := y / 2;
    var z, ph := ModExp(x, h, n), Pow(x, h);
    PowAdd(x, h, h);
    var pp := Pow(x, h + h);
    assert pp == ph * ph;
    if h == 0 {
      assert y == 1 && z == 1 && Pow(x, y) == x;
    } else {
      ModExpIsPow(x, h, n);
      MulMod(ph, ph, n);
      assert (z * z) % n == pp % n;
      if y % 2 != 0 {
        assert Pow(x, y) == x * pp;
        MulModSquares(x, z, z * z, pp, n);
      }
    }
  }

  /** The exponents the recursion visits: y, floor(y / 2), floor(floor(y / 2) / 2), ... */
  function HalvedExponent(y: int, steps: nat): int
    decreases steps
  {
    if steps == 0 then y else HalvedExponent(y, steps - 1) / 2
  }

  /**
   From a negative exponent the halving never reaches the base case y == 0:
   floor division keeps every later exponent negative, so the source keeps
   recursing until Python's recursion limit raises RecursionError, and the
   model requires y >= 0.
   */
  lemma {:induction false} NegativeExponentNeverReachesBase(y: int, steps: nat)
    requires y < 0
    ensures HalvedExponent(y, steps) < 0
    decreases steps
  {
    if steps != 0 {
      NegativeExponentNeverReachesBase(y, steps - 1);
    }
  }

  lemma ModExpExample()
    ensures ModExp(2, 10, 1000) == 24
  {
  }

  // ---------------------------------------------------------------------------
  // The witness draws
  // ---------------------------------------------------------------------------

  /** What random.randint(1, N - 1) can return: every draw lies in [1, N - 1]. */
  predicate ValidDraws(n: int, draws: seq<int>) {
    forall i :: 0 <= i < |draws| ==> 1 <= draws[i] <= n - 1
  }

  /** The number of times `for i in range(k)` runs. */
  function Trials(k: int): nat {
    if k < 0 then 0 else k
  }

  // ---------------------------------------------------------------------------
  // fermat
  // ---------------------------------------------------------------------------

  /** A witness passes the Fermat check when a^(N-1) mod N is 1. */
  predicate FermatPasses(n: int, a: int)
    requires n >= 1
  {
    ModExp(a, n - 1, n) == 1
  }

  predicate AllPassFermat(n: int, ws: seq<int>)
    requires ValidDraws(n, ws)
  {
    forall i :: 0 <= i < |ws| ==> FermatPasses(n, ws[i])
  }

  /** How many of the witnesses ws the Fermat loop draws: up to and including the first that fails. */
  function FermatDraws(n: int, ws: seq<int>): (c: nat)
    requires ValidDraws(n, ws)
    ensures c <= |ws|
    decreases |ws|
  {
    if ws == [] then 0
    else if !FermatPasses(n, ws[0]) then 1
    else 1 + FermatDraws(n, ws[1..])
  }

  /**
   The loop draws every witness when all of them pass; otherwise it stops
   right after the first witness that fails, all earlier ones having passed.
   */
  lemma {:induction false} FermatDrawsStop(n: int, ws: seq<int>)
    requires ValidDraws(n, ws)
    ensures AllPassFermat(n, ws) ==> FermatDraws(n, ws) == |ws|
    ensures !AllPassFermat(n, ws) ==>
              var c := FermatDraws(n, ws);
              1 <= c && !FermatPasses(n, ws[c - 1]) && AllPassFermat(n, ws[..c - 1])
    decreases |ws|
  {
    if ws != [] && FermatPasses(n, ws[0]) {
      var tail := ws[1..];
      FermatDrawsStop(n, tail);
      assert AllPassFermat(n, ws) <==> AllPassFermat(n, tail) by {
        assert forall i :: 0 < i < |ws| ==> ws[i] == tail[i - 1];
      }
      if !AllPassFermat(n, tail) {
        var c := FermatDraws(n, tail);
        assert ws[..c] == [ws[0]] + tail[..c - 1];
      }
    }
  }

  /** Fermat's little theorem read backwards: a witness that fails proves N composite. */
  lemma FermatSound(n: int, a: int)
    requires 1 <= a <= n - 1
    ensures IsPrime(n) ==> FermatPasses(n, a)
  {
    if IsPrime(n) {
      FermatLittle(n, a);
      ModExpIsPow(a, n - 1, n);
    }
  }

  /**
   The Fermat test with k trials: 'composite' exactly when one of the first
   Trials(k) draws fails, returning at the first such draw; 'prime' when all
   pass, and so always 'prime' for k <= 0 and for a prime N.
   */
  method Fermat(n: int, k: int, draws: seq<int>) returns (v: Verdict, used: nat)
    requires ValidDraws(n, draws) && Trials(k) <= |draws|
    ensures v == Prime <==> AllPassFermat(n, draws[..Trials(k)])
    ensures used == FermatDraws(n, draws[..Trials(k)])
    ensures IsPrime(n) ==> v == Prime
  {
    ghost var ws := draws[..Trials(k)];
    FermatDrawsStop(n, ws);
    used := 0;
    for i := 0 to Trials(k)
      invariant used == i
      invariant AllPassFermat(n, draws[..i])
    {
      var a := draws[i];
      used := used + 1;
      if ModExp(a, n - 1, n) != 1 {
        FermatSound(n, a);
        assert ws[i] == a && ws[..i] == draws[..i];
        return Composite, used;
      }
    }
    assert draws[..Trials(k)] == ws;
    return Prime, used;
  }

  // ---------------------------------------------------------------------------
  // miller_rabin
  // ---------------------------------------------------------------------------

  /** A Python number as the variable `ex` holds it: an int at first, a float after `/`. */
  datatype PyNumber = PyInt(i: int) | PyFloat(f: real)

  /** Python 3's true division `x / d`, which yields a float even when d divides x. */
  function TrueDiv(x: PyNumber, d: int): PyNumber
    requires d != 0
  {
    match x
    case PyInt(i) => PyFloat(i as real / d as real)
    case PyFloat(f) => PyFloat(f / d as real)
  }

  predicate IsZero(x: PyNumber) {
    match x
    case PyInt(i) => i == 0
    case PyFloat(f) => f == 0.0
  }

  /** A Miller-Rabin trial as written leaves is_prime true when a^(N-1) mod N is 1 or N - 1. */
  predicate TrialInconclusive(n: int, a: int)
    requires n >= 1
  {
    var m := ModExp(a, n - 1, n);
    m == 1 || m == n - 1
  }

  predicate AllInconclusive(n: int, ws: seq<int>)
    requires ValidDraws(n, ws)
  {
    forall i :: 0 <= i < |ws| ==> TrialInconclusive(n, ws[i])
  }

  /** No trial as written reports a prime N composite. */
  lemma TrialSound(n: int, a: int)
    requires 1 <= a <= n - 1
    ensures IsPrime(n) ==> TrialInconclusive(n, a)
  {
    FermatSound(n, a);
  }

  /**
   One pass of the for loop of miller_rabin, from `ex = N - 1` to the end of
   the while loop. `ex / 2` is a float, so `isinstance(ex, int)` fails and
   clears is_one on the first pass: the while body runs exactly once
   (`rounds`), and the trial reports composite exactly when a^(N-1) mod N is
   neither 1 nor N - 1.
   */
  method MillerRabinTrial(n: int, a: int) returns (isPrime: bool, ghost rounds: nat)
    requires 1 <= a <= n - 1
    ensures isPrime <==> TrialInconclusive(n, a)
    ensures rounds == 1
    ensures IsPrime(n) ==> isPrime
  {
    var ex := PyInt(n - 1);
    isPrime := true;
    var isOne := true;
    rounds := 0;
    while isOne && !IsZero(ex)
      invariant isOne ==> ex == PyInt(n - 1) && isPrime && rounds == 0
      invariant !isOne ==> rounds == 1 && (isPrime <==> TrialInconclusive(n, a))
      decreases if isOne then 1 else 0
    {
      var mod := ModExp(a, ex.i, n);
      if mod != 1 {
        isOne := false;
        if mod != n - 1 {
          isPrime := false;
        }
      }
      ex := TrueDiv(ex, 2);
      if !ex.PyInt? {
        isOne := false;
      }
      rounds := rounds + 1;
    }
    TrialSound(n, a);
  }

  /**
   The Miller-Rabin test with k trials. The Fermat pre-filter draws first and
   a 'composite' from it is returned at once; otherwise it has drawn Trials(k)
   witnesses and the next Trials(k) draws feed the trials, the first
   conclusive one returning 'composite'.
   */
  method MillerRabin(n: int, k: int, draws: seq<int>) returns (v: Verdict)
    requires ValidDraws(n, draws) && 2 * Trials(k) <= |draws|
    ensures v == Prime <==>
              AllPassFermat(n, draws[..Trials(k)]) &&
              AllInconclusive(n, draws[Trials(k)..2 * Trials(k)])
    ensures IsPrime(n) ==> v == Prime
  {
    var t := Trials(k);
    var ferm, used := Fermat(n, k, draws);
    if ferm == Composite {
      return Composite;
    }
    FermatDrawsStop(n, draws[..t]);
    ghost var trials := draws[t..2 * t];
    for i := 0 to t
      invariant AllInconclusive(n, trials[..i])
    {
      var a := draws[used + i];
      assert a == trials[i];
      var isPrime, rounds := MillerRabinTrial(n, a);
      if !isPrime {
        return Composite;
      }
      assert trials[..i + 1] == trials[..i] + [a];
    }
    assert trials[..t] == trials;
    return Prime;
  }

  // ---------------------------------------------------------------------------
  // prime_test
  // ---------------------------------------------------------------------------

  /**
   The pair (fermat verdict, miller_rabin verdict). Both tests draw from the
   same source: fermat first, then miller_rabin from where fermat stopped.
   A prime N always gets ('prime', 'prime').
   */
  method PrimeTest(n: int, k: int, draws: seq<int>) returns (fermatVerdict: Verdict, millerRabinVerdict: Verdict)
    requires ValidDraws(n, draws) && 3 * Trials(k) <= |draws|
    ensures fermatVerdict == Prime <==> AllPassFermat(n, draws[..Trials(k)])
    ensures var t, u := Trials(k), FermatDraws(n, draws[..Trials(k)]);
            millerRabinVerdict == Prime <==>
              AllPassFermat(n, draws[u..u + t]) &&
              AllInconclusive(n, draws[u + t..u + 2 * t])
    ensures IsPrime(n) ==> fermatVerdict == Prime && millerRabinVerdict == Prime
  {
    var used;
    fermatVerdict, used := Fermat(n, k, draws);
    ghost var t := Trials(k);
    var rest := draws[used..];
    assert rest[..t] == draws[used..used + t];
    assert rest[t..2 * t] == draws[used + t..used + 2 * t];
    millerRabinVerdict := MillerRabin(n, k, rest);
  }

  // ---------------------------------------------------------------------------
  // The trial the comments describe: exact halving of the exponent
  // ---------------------------------------------------------------------------

  /**
   The trial with `ex` halved exactly: while a^ex mod N is 1 and ex is even,
   go on with ex / 2; stop at the first other value, inconclusive (true) when
   it is N - 1; stop inconclusive when ex is odd.
   */
  function IntendedTrial(n: int, a: int, ex: nat): bool
    requires n >= 1
    decreases ex
  {
    if ex == 0 then true
    else
      var m := ModExp(a, ex, n);
      if m != 1 then m == n - 1
      else if ex % 2 != 0 then true
      else IntendedTrial(n, a, ex / 2)
  }

  /**
   Modulo a prime, the walk down the square roots of 1 only meets 1 and N - 1,
   so a trial that starts from such a value stays inconclusive.
   */
  lemma {:induction false} IntendedTrialSound(n: int, a: int, ex: nat)
    requires IsPrime(n) && 1 <= a <= n - 1
    requires ModExp(a, ex, n) == 1 || ModExp(a, ex, n) == n - 1
    ensures IntendedTrial(n, a, ex)
    decreases ex
  {
    if ex != 0 && ModExp(a, ex, n) == 1 && ex % 2 == 0 {
      var z := ModExp(a, ex / 2, n);
      assert (z * z) % n == 1;
      SquareRootsOfOne(n, z);
      IntendedTrialSound(n, a, ex / 2);
    }
  }

  /**
   The trial with exact integer halving. It never reports a prime N
   composite, and it is at least as strong as the trial as written: whatever
   that one flags, this one flags too.
   */
  method MillerRabinTrialIntended(n: int, a: int) returns (isPrime: bool)
    requires 1 <= a <= n - 1
    ensures isPrime == IntendedTrial(n, a, n - 1)
    ensures isPrime ==> TrialInconclusive(n, a)
    ensures IsPrime(n) ==> isPrime
  {
    var ex: nat := n - 1;
    isPrime := true;
    var isOne := true;
    while isOne && ex != 0
      invariant isOne ==> isPrime && IntendedTrial(n, a, ex) == IntendedTrial(n, a, n - 1)
      invariant !isOne ==> isPrime == IntendedTrial(n, a, n - 1)
      decreases ex
    {
      var mod := ModExp(a, ex, n);
      if mod != 1 {
        isOne := false;
        if mod != n - 1 {
          isPrime := false;
        }
      }
      if ex % 2 != 0 {
        isOne := false;
      }
      ex := ex / 2;
    }
    if IsPrime(n) {
      FermatSound(n, a);
      IntendedTrialSound(n, a, n - 1);
    }
  }

  /**
   561 = 3 * 11 * 17 is a Carmichael number. With witness 2 it passes the
   Fermat check and the trial as written (2^560 mod 561 == 1), so
   miller_rabin(561, 1) answers 'prime' when both draws are 2; the trial with
   exact halving reaches 2^140 mod 561 == 67 and reports it composite.
   */
  lemma CarmichaelSlipsThrough()
    ensures !IsPrime(561)
    ensures AllPassFermat(561, [2]) && AllInconclusive(561, [2])
    ensures !IntendedTrial(561, 2, 560)
  {
    assert 561 % 3 == 0;
    assert ModExp(2, 1, 561) == 2;
    assert ModExp(2, 2, 561) == 4;
    assert ModExp(2, 4, 561) == 16;
    assert ModExp(2, 8, 561) == 256;
    assert ModExp(2, 17, 561) == 359;
    assert ModExp(2, 35, 561) == 263;
    assert ModExp(2, 70, 561) == 166;
    assert ModExp(2, 140, 561) == 67;
    assert ModExp(2, 280, 561) == 1;
    assert ModExp(2, 560, 561) == 1;
    assert [2][0] == 2;
  }

  // ---------------------------------------------------------------------------
  // fprobability and mprobability
  // ---------------------------------------------------------------------------

  /** 1 - 0.5^k, in exact arithmetic: the confidence the Fermat test reports. */
  function FProbability(k: nat): (r: real)
    ensures 0.0 <= r < 1.0
  {
    1.0 - RealPow(0.5, k)
  }

  /** 1 - 0.25^k, in exact arithmetic: the confidence the Miller-Rabin test reports. */
  function MProbability(k: nat): (r: real)
    ensures 0.0 <= r < 1.0
  {
    1.0 - RealPow(0.25, k)
  }

  /** Both confidences grow with the number of trials. */
  lemma ProbabilitiesMonotone(j: nat, k: nat)
    requires j <= k
    ensures FProbability(j) <= FProbability(k)
    ensures MProbability(j) <= MProbability(k)
  {
    RealPowAntitone(0.5, j, k);
    RealPowAntitone(0.25, j, k);
  }

  /**
   The Miller-Rabin error bound is the square of the Fermat one, so its
   confidence is never below the Fermat confidence.
   */
  lemma MillerRabinBoundTighter(k: nat)
    ensures 1.0 - MProbability(k) == (1.0 - FProbability(k)) * (1.0 - FProbability(k))
    ensures FProbability(k) <= MProbability(k)
  {
    assert 0.5 * 0.5 == 0.25;
    RealPowSquareBase(0.5, k);
    var x := RealPow(0.5, k);
    ShrinkBelowOne(x, x, x * x);
  }

  lemma ProbabilityValues()
    ensures FProbability(0) == 0.0 && MProbability(0) == 0.0
    ensures FProbability(1) == 0.5 && MProbability(1) == 0.75
  {
  }
}
