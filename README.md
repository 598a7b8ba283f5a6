# Quantum Prime Hunter: the classical core, verified

This project models the classical part of `QuantumPrimeHunter` in Dafny and
proves properties of that model. `QuantumPrimeHunter` factors a composite
number with Shor's algorithm on a quantum backend. The model covers:

- **`is_prime`**. It runs trial division by the primes up to 31, then
  strong-probable-prime (Miller–Rabin) rounds with seven fixed bases. The
  source changes state step by step here, so the model uses methods with
  loop invariants (`MillerRabin.IsPrime`, `FactorOutTwos`, `StrongRound`).
  Each method is proved against a specification predicate. The model proves
  that the test never rejects a prime. The proof goes through Fermat's
  little theorem and the fact that modulo a prime, 1 has only the square
  roots 1 and −1. It also proves that below 37² trial division alone makes
  the test exact, and that the composite 4033 = 37 · 109 is accepted,
  because bases at or above `n` are skipped rather than reduced.
- **`shors_algorithm`, classical part**. It covers:
  - the even shortcut;
  - the shortcut taken when the base shares a factor with `N`;
  - rejecting an odd period, or the case `a^(r/2) ≡ −1 (mod N)`;
  - rebuilding the factors from `gcd(x ± 1, N)`.

  The base `a` and the period `r` that the quantum subroutine reports are
  parameters. The module proves:
  - every pair returned consists of divisors of `N`;
  - the shortcuts yield proper factors (the even one for `N >= 4`; for
    `N = 2` it returns `(2, 1)`, but `run` never receives 2, which
    `is_prime` accepts);
  - on a product of two distinct odd primes, a usable period yields exactly
    those two primes.
- **The check in `run`** (`p * q != N` raises an error).
- **The classical arithmetic of `quantum_period_finding`**:
  - the bit width `n = ceil(log2 N)`;
  - the register layout (`2n` counting qubits, `n` work qubits, one
    ancilla, a `2n`-bit classical register);
  - the capacity check against the backend's qubit count;
  - decoding the measurement histogram (the most frequent bitstring, read
    in base 2).

Python's `pow(b, e, m)` and `math.gcd` are modelled in `PyOps`.
`Arith` and `Fermat` hold the number theory that the proofs use.

Modules: `Wrappers` (Option/Result), `Arith`, `Fermat`, `PyOps`, `MillerRabin`,
`Circuit`, `Shor`.

## Model

| member | source | states |
|---|---|---|
| MillerRabin.TrialDivision | quantum_prime_hunter.py:74-76 | The index found is the first trial divisor that divides `n`; no earlier trial divisor divides it, and `None` means none of them does |
| MillerRabin.Decompose | quantum_prime_hunter.py:77-81 | `n - 1 == d * 2^s` with `d` odd |
| MillerRabin.FactorOutTwos | quantum_prime_hunter.py:77-81 | The halving loop ends with `d` odd and `m == d * 2^s` (with `s >= 1` for even `m`), and that pair is the unique decomposition |
| MillerRabin.DecomposeUnique | quantum_prime_hunter.py:77-81 | Only one pair `(d, s)` with `d` odd has `m == d * 2^s` |
| PyOps.ModPow | quantum_prime_hunter.py:85-89 | `pow(b, e, m)` is `b^e mod m` and lies below `m` |
| MillerRabin.StrongRound | quantum_prime_hunter.py:85-93 | One round, `pow(a, d, n)` followed by up to `s - 1` squarings, passes exactly when `a^d ≡ ±1` or some `a^(d*2^i) ≡ −1 (mod n)` with `1 <= i < s` |
| MillerRabin.IsPrime | quantum_prime_hunter.py:70-94 | The result is exactly the test's specification predicate: false below 2; decided by the first trial divisor that divides `n`; otherwise true iff every base below `n` passes its round. It is true for every prime |
| MillerRabin.RootChain | quantum_prime_hunter.py:88-93 | Modulo a prime, if `a^(d*2^i) ≡ 1`, then `a^d ≡ 1` or some earlier square in the chain is −1 |
| MillerRabin.PrimePassesRound | quantum_prime_hunter.py:82-93 | Every base `1 <= a < n` passes the round when `n` is prime |
| MillerRabin.PrimeIsAccepted | quantum_prime_hunter.py:70-94 | `is_prime` returns true for every prime, so a false result means composite or below 2 |
| MillerRabin.SmallPrimesArePrime | quantum_prime_hunter.py:74 | Every trial divisor is prime |
| MillerRabin.PrimesBelow37AreSmall | quantum_prime_hunter.py:74 | The trial divisors are all the primes below 37 |
| MillerRabin.SmallDivisorDecides | quantum_prime_hunter.py:74-76 | When a trial divisor `p` divides `n`, the test returns true iff `n == p`; otherwise `p` is a proper divisor and `n` is not prime |
| MillerRabin.ExactBelow1369 | quantum_prime_hunter.py:70-94 | For `2 <= n < 37*37` the test returns true iff `n` is prime |
| MillerRabin.AsWrittenAccepts4033 | quantum_prime_hunter.py:82-84 | With bases at or above `n` skipped, the test accepts 4033 although `4033 = 37 * 109` is not prime |
| MillerRabin.RoundFromChain | quantum_prime_hunter.py:85-93 | For `(d, s) = (63, 6)` and any modulus `n >= 2`, a round passes iff the residue of `b^63` is ±1 or one of the five squarings after it is −1, given the addition-chain residues of `b^63` |
| MillerRabin.ReducedAcceptsPrimes | quantum_prime_hunter.py:82-94 | The test with each base reduced modulo `n` (a residue of 0 skipped) still accepts every prime |
| MillerRabin.ReducedRejects4033 | quantum_prime_hunter.py:82-84 | The reduced test rejects 4033: base 9375 ≡ 1309 modulo 4033 is a witness |
| MillerRabin.ReducedAgreesAboveBases | quantum_prime_hunter.py:82-84 | Above the largest base, the reduced test and the source's test return the same answer |
| PyOps.PyGcdIsGreatestCommonDivisor | quantum_prime_hunter.py:102 | `math.gcd` divides both arguments, is zero only for two zeros, and every common divisor divides it |
| Circuit.CeilLog2 | quantum_prime_hunter.py:131 | `n` is a width with `2^n >= N` and `2^(n-1) < N` |
| Circuit.CeilLog2Least | quantum_prime_hunter.py:131 | No width below `CeilLog2(N)` reaches `N` |
| Circuit.Layout | quantum_prime_hunter.py:135-138 | The registers total `3n + 1` qubits: the counting and classical registers are each twice the work register, plus one ancilla |
| Circuit.ConfigureAsWritten | quantum_prime_hunter.py:131-133 | The source's check fails iff `2n + 3` exceeds the qubit count, reports `2n + 3` as required, and otherwise builds the layout |
| Circuit.AsWrittenAdmitsOversizedCircuit | quantum_prime_hunter.py:132-138 | For every `N > 4`, a backend of exactly `2n + 3` qubits passes the check yet the circuit needs more |
| Circuit.AsWrittenFifteenOnElevenQubits | quantum_prime_hunter.py:132-138 | `N = 15` passes the check on 11 qubits while the circuit declares 13 |
| Circuit.ConfigureRefinesAsWritten | quantum_prime_hunter.py:131-138 | For `N >= 3` the circuit's total `3n + 1` is at least `2n + 3`, so the corrected check passes iff the source's check passes and the circuit fits |
| Circuit.Configure | quantum_prime_hunter.py:131-138 | The corrected check fails iff the circuit's own qubit total exceeds the budget. On success the circuit fits, the work register holds every residue mod `N`, and the counting register resolves `N²` phases |
| Circuit.MostFrequent | quantum_prime_hunter.py:171 | `max(counts.items(), key=...)`: `None` only for an empty histogram; otherwise the first entry of largest count |
| Circuit.MostFrequentIsFirstMaximum | quantum_prime_hunter.py:171 | The first entry of largest count is the one selected |
| Circuit.BitsValue | quantum_prime_hunter.py:171 | The base-2 value of a `w`-bit string is below `2^w` |
| Circuit.ParseBinary | quantum_prime_hunter.py:171 | `int(s, 2)` succeeds iff `s` is a non-empty string of `0`/`1`, and the value is below `2^|s|` |
| Circuit.BitsValueOfToBits | quantum_prime_hunter.py:171 | Parsing the `w`-bit encoding of `v < 2^w` gives back `v` |
| Circuit.ToBitsOfBitsValue | quantum_prime_hunter.py:171 | Every bitstring is the fixed-width encoding of its parsed value |
| Circuit.MeasuredPhase | quantum_prime_hunter.py:171 | Decoding fails with `EmptyHistogram` iff there are no counts; on success the value is the parse of the most frequent bitstring |
| Circuit.MeasuredPhaseInRange | quantum_prime_hunter.py:138 | For a histogram of `2n`-bit outcomes, decoding succeeds, the value is below `2^(2n)`, and its re-encoding is the most frequent bitstring |
| Shor.ShorsAlgorithm | quantum_prime_hunter.py:96-125 | `shors_algorithm` with the base and the reported period as parameters; its behaviour is stated by `EvenShortcut`, `GcdShortcut`, `CapacityPath`, `PeriodPath` and `ResultsDivideN` |
| Shor.FromPeriod | quantum_prime_hunter.py:116-125 | Fails iff the period is odd or `a^(r/2) ≡ −1 (mod N)`; otherwise both returned values are positive divisors of `N` |
| Shor.Reconstruct | quantum_prime_hunter.py:119-125 | Fails with `MinusOneRoot` iff `x == N - 1`; otherwise both gcds are positive divisors of `N` |
| Shor.CapacityPath | quantum_prime_hunter.py:131-133 | Past the shortcuts, the source's check rejects with `Capacity(2n + 3, qubits)` iff `2n + 3` exceeds the qubit count; a circuit that passes it but needs `3n + 1` qubits more than there are fails with `CircuitTooLarge`; otherwise the period is used |
| Shor.FifteenOnElevenQubits | quantum_prime_hunter.py:132-138 | `N = 15` on 11 qubits passes the source's check, and `shors_algorithm` then fails with `CircuitTooLarge(13, 11)` |
| Shor.EvenShortcut | quantum_prime_hunter.py:98-99 | Even `N` gives `(2, N // 2)` whatever the base, backend or period; the product is `N`, and for `N >= 4` both factors are above 1 |
| Shor.GcdShortcut | quantum_prime_hunter.py:101-104 | A base sharing a factor `g` with `N` gives `(g, N // g)`, independent of backend and period; both are proper factors with product `N` |
| Shor.ReconstructFactors | quantum_prime_hunter.py:119-125 | The reconstruction fails iff `x == N - 1`. Otherwise both gcds are positive divisors of `N`; `x == 1` gives `(1, N)`; any other `x` with product `N` gives proper factors |
| Shor.ReconstructOne | quantum_prime_hunter.py:123-125 | For odd `N`, `x == 1` gives `(gcd(2, N), gcd(0, N)) == (1, N)` |
| Shor.PeriodPath | quantum_prime_hunter.py:113-125 | Past the shortcuts, the source's capacity check and a circuit that fits the backend, the attempt fails iff `r` is odd (`OddPeriod`) or `a^(r/2) ≡ −1` (`MinusOneRoot`); otherwise it rebuilds factors as `ReconstructFactors` states |
| Shor.ResultsDivideN | quantum_prime_hunter.py:96-125 | Every pair `shors_algorithm` returns consists of positive divisors of `N` |
| Shor.NontrivialRootSplits | quantum_prime_hunter.py:123-125 | For `N = P*Q` with distinct odd primes, a square root of 1 other than ±1 is rebuilt into exactly `{P, Q}` |
| Shor.SemiprimeFactored | quantum_prime_hunter.py:96-125 | On a product of two distinct odd primes, a base coprime to `N` and an even period whose half power is not ±1 make `shors_algorithm` and `run` return exactly the two primes |
| Shor.CheckFactorsAsWritten | quantum_prime_hunter.py:221-222 | The source's check in `run`: the pair is accepted iff `p * q == N`; `AsWrittenAcceptsOneAndFifteen` shows it accepts `(1, 15)` |
| Shor.RunAsWritten | quantum_prime_hunter.py:219-222 | `run` as written: `shors_algorithm` followed by `CheckFactorsAsWritten`; `AsWrittenAcceptsOneAndFifteen` shows it reports `(1, 15)` for `N = 15` |
| Shor.Run | quantum_prime_hunter.py:219-222 | The corrected caller: `shors_algorithm` followed by `CheckFactors`, which also rejects a factor of 1, in place of the source's `CheckFactorsAsWritten`; `RunReturnsProperFactors` states what it returns |
| Shor.RunReturnsProperFactors | quantum_prime_hunter.py:221-222 | Whatever the corrected check accepts satisfies `p*q == N`, `1 < p < N` and `1 < q < N` |
| Shor.ChecksDifferOnlyAtRootOne | quantum_prime_hunter.py:221-222 | For a non-prime `N >= 2`, the source's check and the corrected one disagree only on the period path with `a^(r/2) ≡ 1`, where the pair is `(1, N)` |
| Shor.AsWrittenAcceptsOneAndFifteen | quantum_prime_hunter.py:221-222 | `N = 15`, `a = 4`, `r = 4`: `shors_algorithm` returns `(1, 15)`; the source's check accepts it, so `run` as written reports it, and the corrected one rejects it |
| Shor.FifteenWithBaseSeven | quantum_prime_hunter.py:96-125 | `N = 15`, `a = 7`, `r = 4` gives the factors `(5, 3)` |

## Left out

- The quantum circuit is not modelled: its gates, transpilation, submission
  to the backend and the polling loop (`quantum_period_finding`, lines
  140-168). Only the register sizes and the decoding of the returned
  histogram are modelled.
- `controlled_modular_exponentiation` (lines 181-192) builds gates and is
  not modelled.
- The phase `measured_phase / 2^(2n)` is a float, and `continued_fractions`
  uses float `Fraction.limit_denominator` (lines 172-174, 195-201). Neither
  is modelled. The period `r` these produce is a parameter of
  `Shor.ShorsAlgorithm`.
- `random.randint(2, N - 1)` (line 101) is modelled as the parameter `a`,
  constrained to `2 <= a <= N - 1`.
- `Circuit.CeilLog2` is the exact least `n` with `2^n >= N`.
  `math.ceil(math.log2(N))` can round wrongly on floats for very large `N`,
  and that imprecision is not modelled.
- `max_bits` (line 23) is computed but never used, and is not modelled.
- `Circuit.ParseBinary`: Python's `int(s, 2)` also accepts surrounding
  whitespace, underscores between digits, a sign and a `0b` prefix. The
  Qiskit bitstrings never contain these, so the model accepts only strings
  of `0` and `1`.
- Console output is not modelled: the banner, prompts, progress bars and
  result tables. The connection to the backend and `__main__` are not
  modelled either. The qubit count of the backend is a parameter.
- `get_user_input` (lines 50-67) is not modelled as a function. It rejects
  inputs below 2 and inputs that `is_prime` accepts.
  `MillerRabin.PrimeIsAccepted` shows that this includes every prime. That
  is why `Shor.ChecksDifferOnlyAtRootOne` assumes a non-prime `N`.
  `shors_algorithm` itself has no prime check.
- The source has no retry loop and no attempt counter. A rejected period
  raises `ValueError`, and `run` reports it and asks for new input. The
  model returns `Error(OddPeriod)` or `Error(MinusOneRoot)` and does not
  retry.
- `MillerRabin.IsPrime`: the model does not prove that a `True` result means
  prime. The seven bases decide primality below 2^64 only when each base is
  reduced modulo `n`. The source instead skips every base `a >= n`
  (lines 83-84), and then the test is not exact: it accepts the composite
  4033 (`MillerRabin.AsWrittenAccepts4033`), and `get_user_input`
  (lines 62-64) turns that semiprime away as prime. The deterministic bound
  of the reduced test is a published result and is not proved here. The
  model proves that the test never rejects a prime, and that it is exact
  below 37².
- `Shor.ShorsAlgorithm`: a circuit that passes the source's check of
  `2n + 3` qubits but needs `3n + 1` qubits, more than the backend has, goes
  on to `transpile` and `backend.run`, whose failure is not modelled. The
  model returns `CircuitTooLarge(3n + 1, qubitCount)` for it. In the source
  that failure is not a `ValueError`, so `run`'s handler (line 251) does not
  catch it: it ends `run`'s loop and the program stops with "Fatal error"
  (lines 295-296), unlike `OddPeriod`, `MinusOneRoot` and `WrongFactors`,
  after which `run` asks for another number. `Shor.RunAsWritten` returns it
  as an ordinary failure for one number.
- The `Capacity` error carries the required and available qubit counts but
  not the message text.

## Findings

| source | as written | input that shows it | evidently intended | confidence | as-written member | corrected member |
|---|---|---|---|---|---|---|
| quantum_prime_hunter.py:132-133 | The capacity check compares `2n + 3` with the qubit count, but the circuit declares `2n + n + 1 = 3n + 1` qubits | `N = 15` (`n = 4`) on an 11-qubit backend: the check passes, but the circuit needs 13 qubits (`Shor.FifteenOnElevenQubits` shows the attempt then fails with `CircuitTooLarge(13, 11)`) | Check the circuit's own total, `3n + 1`, against the budget | not executed | Circuit.AsWrittenFifteenOnElevenQubits | Circuit.Configure |
| quantum_prime_hunter.py:221-222 | `run` accepts any pair with `p * q == N`, including the trivial `(1, N)` that `shors_algorithm` returns when `a^(r/2) ≡ 1 (mod N)` | `N = 15`, `a = 4`, `r = 4`: `x = 1`, so the pair is `(gcd(2, 15), gcd(0, 15)) = (1, 15)`, and the check accepts it | Also require `1 < p` and `1 < q`, so that only proper factor pairs are reported | not executed | Shor.AsWrittenAcceptsOneAndFifteen | Shor.RunReturnsProperFactors |
| quantum_prime_hunter.py:82-84 | Bases at or above `n` are skipped, so for `n` below 325 only base 2 is tried, and below 9375 only bases 2 and 325 | `n = 4033 = 37 * 109`: no trial divisor divides it, and 2 and 325 are strong liars for it, so `is_prime(4033)` returns `True` | Reduce each base modulo `n` and skip a residue of 0, the form in which these seven bases decide primality below 2^64 | not executed | MillerRabin.AsWrittenAccepts4033 | MillerRabin.ReducedRejects4033 |
