# Probabilistic primality testing (fermat.py) in Dafny

This project models the primality-testing core of `fermat.py` and proves
properties of it. The core has four parts:

- `mod_exp(x, y, N)` computes x^y mod N by recursion on floor(y / 2).
- `fermat(N, k)` runs the Fermat test. It draws k witnesses from [1, N - 1]
  and answers 'composite' at the first witness a with a^(N-1) mod N != 1.
- `miller_rabin(N, k)` runs `fermat(N, k)` first as a pre-filter. It then runs
  k trials of its own.
- `prime_test(N, k)` returns the pair of the two verdicts.
- `fprobability(k)` and `mprobability(k)` report the confidence 1 - 0.5^k and
  1 - 0.25^k.

The random source is a parameter. `draws` is the sequence of values
`random.randint(1, N - 1)` returns, in the order the program asks for them.
`ValidDraws` states that every draw lies in [1, N - 1]. One sequence feeds
all the tests, as one PRNG does in the program:

- `Fermat` also returns how many draws it took (`used`).
- `MillerRabin` takes the draws for its inner `fermat` call first, then the
  draws for its trials.
- `PrimeTest` hands `MillerRabin` whatever `Fermat` left.

`k` is a Python int, and `for i in range(k)` runs `Trials(k) = max(k, 0)`
times.

The file defines `mod_exp`, `fprobability`, `mprobability`, `fermat` and
`miller_rabin` a second time at fermat.py:106-164. Python uses that second
copy. Its logic is the same as the first copy's, so each function is modelled
once and cited at its first, commented copy.

A Miller-Rabin trial is modelled as the code runs it. `ex = (ex / 2)` is float
division in Python 3, so `isinstance(ex, int)` is false after the first pass.
That clears `is_one`, and the `while` body runs exactly once. A trial
therefore reports composite exactly when a^(N-1) mod N is neither 1 nor N - 1.
`PyNumber` models `ex`, and `TrueDiv` always returns a float. The trial the
comments describe, with exact halving, is modelled beside it
(`MillerRabinTrialIntended`). See "## Findings".

Soundness on primes rests on proofs in `Primes`:

- Fermat's little theorem, via the binomial theorem and p | C(p, k).
- Euclid's lemma.
- Modulo a prime, the only square roots of 1 are 1 and p - 1.

Two behaviours of the code differ from the mathematics its comments
describe, and the model follows the code:

- x^0 mod 1 comes out as 1, not 0, because `mod_exp` returns 1 for y == 0
  whatever N is.
- A Miller-Rabin trial stops after one exponent, so `miller_rabin(561, k)` can
  answer 'prime' (see "## Findings").

Files: `arith.dfy` (module `Arith`), `primes.dfy` (module `Primes`),
`fermat.dfy` (module `Fermat`).

## Model

| member | source | states |
|---|---|---|
| `Fermat.ModExp` | fermat.py:10-20 | exponent 0 gives 1 for every modulus, including N = 1; a positive exponent gives a residue in [0, N - 1]; the exponent is a natural number |
| `Fermat.ModExpIsPow` | fermat.py:14-20 | for y >= 1 and N >= 1, mod_exp(x, y, N) equals x^y mod N computed naively |
| `Fermat.NegativeExponentNeverReachesBase` | fermat.py:12-15 | from a negative exponent, repeated floor halving stays negative forever, so the recursion never reaches its base case (in Python it ends in RecursionError); this is why y >= 0 is required |
| `Fermat.ModExpExample` | fermat.py:10-20 | mod_exp(2, 10, 1000) == 24 |
| `Fermat.FermatDraws` | fermat.py:41-46 | the Fermat loop never draws more witnesses than it has trials |
| `Fermat.FermatDrawsStop` | fermat.py:41-48 | when every witness passes, the loop draws all of them; otherwise it stops right after the first failing witness, and all earlier witnesses passed |
| `Fermat.FermatSound` | fermat.py:43-46 | for a prime N, every witness in [1, N - 1] passes, so a failing witness proves N composite |
| `Fermat.Fermat` | fermat.py:39-48 | 'prime' exactly when all max(k, 0) witnesses pass (so k <= 0 gives 'prime'); the number of draws taken is FermatDraws; a prime N always gets 'prime' |
| `Fermat.TrialSound` | fermat.py:69-74 | for a prime N, no trial as written reports composite |
| `Fermat.MillerRabinTrial` | fermat.py:59-79 | is_prime stays true exactly when a^(N-1) mod N is 1 or N - 1; the while body runs exactly once; a prime N is never flagged |
| `Fermat.MillerRabin` | fermat.py:51-86 | 'prime' exactly when the first max(k, 0) draws pass the Fermat pre-filter and the next max(k, 0) draws are all inconclusive trials; a prime N always gets 'prime' |
| `Fermat.PrimeTest` | fermat.py:5-7 | returns (fermat verdict, miller_rabin verdict); miller_rabin starts drawing where fermat stopped; a prime N always gets ('prime', 'prime') |
| `Fermat.IntendedTrialSound` | fermat.py:65-79 | with exact halving, for a prime N the walk down the square roots of 1 only meets 1 and N - 1, so the trial stays inconclusive |
| `Fermat.MillerRabinTrialIntended` | fermat.py:61-79 | the trial with exact integer halving never flags a prime, and it flags every witness the as-written trial flags |
| `Fermat.CarmichaelSlipsThrough` | fermat.py:76-79 | 561 is composite, yet witness 2 passes both the Fermat check and the as-written trial; the exact-halving trial flags it |
| `Fermat.FProbability` | fermat.py:23-28 | 1 - 0.5^k, in exact arithmetic, lies in [0, 1) |
| `Fermat.MProbability` | fermat.py:31-36 | 1 - 0.25^k, in exact arithmetic, lies in [0, 1) |
| `Fermat.ProbabilitiesMonotone` | fermat.py:23-36 | both confidences are non-decreasing in k |
| `Fermat.MillerRabinBoundTighter` | fermat.py:23-36 | the Miller-Rabin error bound is the square of the Fermat one, so mprobability(k) >= fprobability(k) |
| `Fermat.ProbabilityValues` | fermat.py:23-36 | fprobability(0) == mprobability(0) == 0, fprobability(1) == 0.5, mprobability(1) == 0.75 |
| `Primes.FermatLittle` | fermat.py:43-46 | Fermat's little theorem, which the check at line 44 relies on: a^(p-1) mod p == 1 for a prime p and 1 <= a <= p - 1 |
| `Primes.SquareRootsOfOne` | fermat.py:69-74 | modulo a prime, the only residues whose square is 1 are 1 and p - 1, the fact behind the N - 1 check at line 73 |

## Findings

| source | as written | input that shows it | evidently intended | confidence | as-written member | corrected member |
|---|---|---|---|---|---|---|
| fermat.py:76-79 | `ex = (ex / 2)` is float division, so `isinstance(ex, int)` is always false and each trial checks only a^(N-1) mod N | N = 561, k = 1, draws 2 and 2: 2^560 mod 561 == 1, so `miller_rabin` answers 'prime' for the Carmichael number 561 | halve the exponent exactly while a^ex mod N is 1 and ex is even; witness 2 then reaches 2^140 mod 561 == 67 and the trial reports composite | high; not executed | `Fermat.CarmichaelSlipsThrough` | `Fermat.MillerRabinTrialIntended` |

`PrimeTest` and `MillerRabin` keep the as-written trial, because they model
what `prime_test` returns today. The corrected trial is proved sound for
primes (`IntendedTrialSound`). It is also proved at least as strong as the
as-written trial.

## Left out

- `random.randint` (fermat.py:42, :60) is replaced by the `draws` parameter.
  The statistical error-bound claims in the comments (fermat.py:24-27, :32-35)
  speak of probability over random draws and are not stated.
- FProbability: models `1 - pow(0.5, k)` with exact reals, not IEEE doubles. In
  floating point the result rounds to 1.0 once k >= 54. Negative k is not
  modelled (the function takes a natural number).
- MProbability: models `1 - pow(0.25, k)` with exact reals, not IEEE doubles.
  In floating point the result rounds to 1.0 once k >= 27. Negative k is not
  modelled.
- ModExp: `math.floor(y / 2)` (fermat.py:15) is modelled as exact integer
  halving. In the source, `y / 2` is float division: above 2^53 it can round,
  and once y exceeds the double range (about 2^1024) it raises OverflowError.
  The model returns a value for every y >= 0.
- ModExp: the recursion depth is the bit length of y. CPython's default
  recursion limit of 1000 raises RecursionError once y has roughly 1000 bits.
  The model has no recursion limit, so `ModExp`, and through it `Fermat`,
  `MillerRabin` and `PrimeTest`, return a verdict for inputs where the program
  raises instead, for example a 1024-bit N.
- ModExp: a negative exponent is excluded by the type `nat`. In the source it
  recurses until RecursionError (see `NegativeExponentNeverReachesBase`).
- ModExp: a modulus N <= 0 is not modelled (`requires n >= 1`). For y >= 1,
  Python raises ZeroDivisionError when N = 0 and uses floor modulo for
  negative N; `mod_exp(x, 0, 0)` returns 1. Every caller passes N >= 2.
- Fermat, MillerRabin, PrimeTest: these require enough draws for the worst
  case (Trials(k), 2 * Trials(k), 3 * Trials(k)), each in [1, N - 1]. The
  program's random source never runs out. For N <= 1 and k >= 1,
  `random.randint(1, N - 1)` raises ValueError; the model cannot express that
  input, since no draw lies in the empty range, so the exception is not
  modelled.
- MillerRabinTrial: `ex / 2` (fermat.py:76) raises OverflowError in the source
  once N - 1 exceeds the double range (about 2^1024); for such N, `mod_exp`
  has already hit the recursion limit. The model returns a verdict.
- `mod_exp_m` (fermat.py:89-103) is not modelled. Nothing calls it.
- The second copies at fermat.py:106-164 are not modelled separately. They
  repeat the first copies' logic. Their complexity comments are not modelled
  either.
- The GUI that calls `prime_test` is not part of this model.
