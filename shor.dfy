/** The classical part of `QuantumPrimeHunter.shors_algorithm` and the product
    check that `run` applies to its result. The random base `a` and the period
    `r` that the quantum subroutine reports (the denominator of a continued
    fraction approximation of the measured phase) are parameters. */
module Shor {
  import opened Wrappers
  import opened Arith
  import opened Fermat
  import opened PyOps
  import opened Circuit

  /** Why an attempt produced no factors: the capacity check fails, the
      circuit that passed it still needs more qubits than the backend has, the
      period is odd, `a^(r/2)` is -1 modulo `N`, or the factors `run` received
      fail its check. */
  datatype Failure =
    | Capacity(required: nat, available: nat)
    | CircuitTooLarge(required: nat, available: nat)
    | OddPeriod
    | MinusOneRoot
    | WrongFactors

  datatype ShorResult = Pair(p: int, q: int) | Error(reason: Failure)

  /** `shors_algorithm(N)` with base `a`, a backend of `qubitCount` qubits, and
      `r` the period the quantum subroutine reports if it is reached. The
      capacity check is the source's own (`ConfigureAsWritten`); a circuit
      that passes it but needs more qubits than the backend has cannot run,
      and that failure of the backend is `CircuitTooLarge`. */
  function ShorsAlgorithm(N: nat, a: nat, qubitCount: nat, r: nat): ShorResult
    requires N >= 2
    requires N % 2 == 1 ==> 2 <= a < N
    requires r >= 1
  {
    if N % 2 == 0 then Pair(2, N / 2)
    else if Gcd(a, N) > 1 then Pair(Gcd(a, N), N / Gcd(a, N))
    else
      match ConfigureAsWritten(N, qubitCount)
      case Err(e) => Error(Capacity(e.required, e.available))
      case Ok(_) =>
        match Configure(N, qubitCount)
        case Err(e) => Error(CircuitTooLarge(e.required, e.available))
        case Ok(_) => FromPeriod(N, a, r)
  }

  /** The steps after the period is known: an odd period is rejected, and
      otherwise `x = pow(a, r // 2, N)` is reconstructed into factors. */
  function FromPeriod(N: nat, a: nat, r: nat): (res: ShorResult)
    requires N >= 1
    ensures res.Error? <==> r % 2 == 1 || Pow(a, r / 2) % N == N - 1
    ensures res.Pair? ==> res.p >= 1 && res.q >= 1 && N % res.p == 0 && N % res.q == 0
  {
    if r % 2 != 0 then Error(OddPeriod) else Reconstruct(N, ModPow(a, r / 2, N))
  }

  /** `x == N - 1` is rejected; otherwise the pair is `(gcd(x + 1, N), gcd(x - 1, N))`,
      two positive divisors of `N`. */
  function Reconstruct(N: nat, x: nat): (res: ShorResult)
    requires N >= 1
    ensures res.Error? <==> x == N - 1
    ensures res.Error? ==> res.reason == MinusOneRoot
    ensures res.Pair? ==> res.p >= 1 && res.q >= 1 && N % res.p == 0 && N % res.q == 0
  {
    if x == N - 1 then Error(MinusOneRoot)
    else
      ReconstructDivides(N, x);
      Pair(PyGcd(x + 1, N), PyGcd(x - 1, N))
  }

  /** The check `run` applies, as written: `p * q != N` rejects. */
  predicate CheckFactorsAsWritten(N: int, p: int, q: int) {
    p * q == N
  }

  /** The check that also rejects a factor of 1: the product is `N` and both
      factors are above 1. */
  predicate CheckFactors(N: int, p: int, q: int) {
    p * q == N && p > 1 && q > 1
  }

  /** `run`'s handling of one number as the source writes it (lines 219-222):
      factor it, then reject a pair whose product is not `N`. */
  function RunAsWritten(N: nat, a: nat, qubitCount: nat, r: nat): ShorResult
    requires N >= 2
    requires N % 2 == 1 ==> 2 <= a < N
    requires r >= 1
  {
    match ShorsAlgorithm(N, a, qubitCount, r)
    case Error(e) => Error(e)
    case Pair(p, q) => if CheckFactorsAsWritten(N, p, q) then Pair(p, q) else Error(WrongFactors)
  }

  /** The corrected caller: `RunAsWritten` with `CheckFactors` in place of the
      source's product check `CheckFactorsAsWritten`. */
  function Run(N: nat, a: nat, qubitCount: nat, r: nat): ShorResult
    requires N >= 2
    requires N % 2 == 1 ==> 2 <= a < N
    requires r >= 1
  {
    match ShorsAlgorithm(N, a, qubitCount, r)
    case Error(e) => Error(e)
    case Pair(p, q) => if CheckFactors(N, p, q) then Pair(p, q) else Error(WrongFactors)
  }

  // ---------------------------------------------------------------------------
  // The shortcuts

  /** An even `N` is split as `(2, N / 2)` without reaching the quantum step:
      the result depends on neither the base, nor the backend, nor the period. */
  lemma EvenShortcut(N: nat, a: nat, qubitCount: nat, r: nat, a': nat, qubitCount': nat, r': nat)
    requires N >= 2 && N % 2 == 0 && r >= 1 && r' >= 1
    ensures ShorsAlgorithm(N, a, qubitCount, r) == Pair(2, N / 2) == ShorsAlgorithm(N, a', qubitCount', r')
    ensures 2 * (N / 2) == N && N % (N / 2) == 0
    ensures N >= 4 ==> CheckFactors(N, 2, N / 2)
  {
    ModOfMultiple(N / 2, 2);
  }

  /** A base sharing a factor `g` with `N` splits it as `(g, N / g)`, two proper
      factors, without reaching the quantum step. */
  lemma GcdShortcut(N: nat, a: nat, qubitCount: nat, r: nat, qubitCount': nat, r': nat)
    requires N >= 3 && N % 2 == 1 && 2 <= a < N && r >= 1 && r' >= 1
    requires Gcd(a, N) > 1
    ensures ShorsAlgorithm(N, a, qubitCount, r) == Pair(Gcd(a, N), N / Gcd(a, N)) == ShorsAlgorithm(N, a, qubitCount', r')
    ensures N % Gcd(a, N) == 0 && Gcd(a, N) * (N / Gcd(a, N)) == N && N % (N / Gcd(a, N)) == 0
    ensures 1 < Gcd(a, N) < N && 1 < N / Gcd(a, N) < N
    ensures CheckFactors(N, Gcd(a, N), N / Gcd(a, N))
  {
    var g := Gcd(a, N);
    GcdDivides(a, N);
    DivisorBound(a, g);
    DivisibleIsMultiple(N, g);
    ProperFactorPair(N, g, N / g);
    ModOfMultiple(N / g, g);
  }

  /** Past the shortcuts, the source's check rejects exactly when `2n + 3`
      exceeds the qubit count, reporting `2n + 3` as required; a circuit that
      passes it fails on the backend exactly when its `3n + 1` qubits do not
      fit, and otherwise the period is used. */
  lemma CapacityPath(N: nat, a: nat, qubitCount: nat, r: nat)
    requires N >= 3 && N % 2 == 1 && 2 <= a < N && r >= 1 && Gcd(a, N) == 1
    ensures var n := CeilLog2(N);
      var res := ShorsAlgorithm(N, a, qubitCount, r);
      (res == Error(Capacity(2 * n + 3, qubitCount)) <==> 2 * n + 3 > qubitCount) &&
      (res == Error(CircuitTooLarge(3 * n + 1, qubitCount)) <==> 2 * n + 3 <= qubitCount < 3 * n + 1) &&
      (res == FromPeriod(N, a, r) <==> 3 * n + 1 <= qubitCount)
  {
    ConfigureRefinesAsWritten(N, qubitCount);
    if 3 * CeilLog2(N) + 1 <= qubitCount {
      assert ShorsAlgorithm(N, a, qubitCount, r) == FromPeriod(N, a, r);
    }
  }

  /** `N = 15` on an 11-qubit backend passes the source's check and reaches
      the backend with a 13-qubit circuit. */
  lemma FifteenOnElevenQubits()
    ensures ConfigureAsWritten(15, 11).Ok?
    ensures ShorsAlgorithm(15, 7, 11, 4) == Error(CircuitTooLarge(13, 11))
  {
    assert CeilLog2(15) == 4;
    assert Gcd(7, 15) == 1;
  }

  /** A factorisation into two factors above 1 has both factors below `N`. */
  lemma ProperFactorPair(N: int, p: int, q: int)
    requires p * q == N && p > 1 && q > 1
    ensures p < N && q < N
  {
    MulMonotone(2, q, p);
    MulMonotone(2, p, q);
  }

  // ---------------------------------------------------------------------------
  // The period path

  /** For `0 <= x < N` with `N` odd, the reconstruction fails exactly when
      `x == N - 1`; otherwise it yields two positive divisors of `N`. Their
      product need not be `N`; when it is, both are proper factors unless
      `x == 1`, in which case the pair is `(1, N)`. */
  lemma ReconstructFactors(N: nat, x: nat)
    requires N >= 3 && N % 2 == 1 && x < N
    ensures var res := Reconstruct(N, x);
      (res.Error? <==> x == N - 1) &&
      (res.Error? ==> res.reason == MinusOneRoot) &&
      (res.Pair? ==> res.p >= 1 && res.q >= 1 && N % res.p == 0 && N % res.q == 0) &&
      (res.Pair? && x == 1 ==> res == Pair(1, N)) &&
      (res.Pair? && x != 1 && res.p * res.q == N ==> CheckFactors(N, res.p, res.q))
  {
    if x != N - 1 {
      ReconstructDivides(N, x);
      if x == 1 {
        ReconstructOne(N);
      } else {
        var p, q := PyGcd(x + 1, N), PyGcd(x - 1, N);
        if p * q == N {
          if p == 1 || q == 1 {
            TrivialFactorMeansRootOne(N, x, p, q);
          } else {
            ProperFactorPair(N, p, q);
          }
        }
      }
    }
  }

  lemma ReconstructDivides(N: nat, x: nat)
    requires N >= 1
    ensures PyGcd(x + 1, N) >= 1 && N % PyGcd(x + 1, N) == 0
    ensures PyGcd(x - 1, N) >= 1 && N % PyGcd(x - 1, N) == 0
  {
    PyGcdIsGreatestCommonDivisor(x + 1, N, 1);
    PyGcdIsGreatestCommonDivisor(x - 1, N, 1);
  }

  /** For odd `N`, `x == 1` gives `gcd(2, N) == 1` and `gcd(0, N) == N`. */
  lemma ReconstructOne(N: nat)
    requires N >= 3 && N % 2 == 1
    ensures Reconstruct(N, 1) == Pair(1, N)
  {
    assert PyGcd(2, N) == 1 by {
      ModSmall(2, N);
      assert Gcd(2, N) == Gcd(N, 2) == Gcd(2, 1) == Gcd(1, 0);
    }
    assert PyGcd(0, N) == Gcd(0, N) == Gcd(N, 0);
  }

  /** Past the shortcuts and the capacity check, the attempt is rejected exactly
      when the period is odd or `x = a^(r/2) mod N` is `N - 1`, and otherwise
      reconstructs factors from `x` as `ReconstructFactors` describes. */
  lemma PeriodPath(N: nat, a: nat, qubitCount: nat, r: nat)
    requires N >= 3 && N % 2 == 1 && 2 <= a < N && r >= 1
    requires Gcd(a, N) == 1 && Configure(N, qubitCount).Ok?
    ensures var x := Pow(a, r / 2) % N;
      var res := ShorsAlgorithm(N, a, qubitCount, r);
      (res.Error? <==> r % 2 == 1 || x == N - 1) &&
      (res.Error? ==> res.reason == (if r % 2 == 1 then OddPeriod else MinusOneRoot)) &&
      (res.Pair? ==> res.p >= 1 && res.q >= 1 && N % res.p == 0 && N % res.q == 0) &&
      (res.Pair? && x == 1 ==> res == Pair(1, N)) &&
      (res.Pair? && x != 1 && res.p * res.q == N ==> CheckFactors(N, res.p, res.q))
  {
    assert ShorsAlgorithm(N, a, qubitCount, r) == FromPeriod(N, a, r);
    if r % 2 == 0 {
      ReconstructFactors(N, ModPow(a, r / 2, N));
    }
  }

  /** With `0 <= x < N - 1`, the pair `(gcd(x + 1, N), gcd(x - 1, N))` has
      product `N` and a factor 1 only when `x == 1`. */
  lemma TrivialFactorMeansRootOne(N: nat, x: nat, p: nat, q: nat)
    requires N >= 3 && x < N - 1
    requires p == PyGcd(x + 1, N) && q == PyGcd(x - 1, N)
    requires p * q == N && (p == 1 || q == 1)
    ensures x == 1
  {
    if p == 1 {
      assert q == N;
      PyGcdIsGreatestCommonDivisor(x - 1, N, 1);
      SmallMultipleIsZero(x - 1, N);
    } else {
      assert p == N;
      PyGcdIsGreatestCommonDivisor(x + 1, N, 1);
      SmallMultipleIsZero(x + 1, N);
    }
  }

  /** Every pair `shors_algorithm` returns consists of positive divisors of `N`. */
  lemma ResultsDivideN(N: nat, a: nat, qubitCount: nat, r: nat)
    requires N >= 2 && (N % 2 == 1 ==> 2 <= a < N) && r >= 1
    ensures var res := ShorsAlgorithm(N, a, qubitCount, r);
      res.Pair? ==> res.p >= 1 && res.q >= 1 && N % res.p == 0 && N % res.q == 0
  {
    if N % 2 == 0 {
      EvenShortcut(N, a, qubitCount, r, a, qubitCount, r);
    } else if Gcd(a, N) > 1 {
      GcdShortcut(N, a, qubitCount, r, qubitCount, r);
    } else if Configure(N, qubitCount).Ok? {
      assert ShorsAlgorithm(N, a, qubitCount, r) == FromPeriod(N, a, r);
      if r % 2 == 0 {
        ReconstructDivides(N, ModPow(a, r / 2, N));
      }
    }
  }

  // ---------------------------------------------------------------------------
  // The check in `run`

  /** Whatever `Run` accepts is a factorisation of `N` into two proper factors. */
  lemma RunReturnsProperFactors(N: nat, a: nat, qubitCount: nat, r: nat)
    requires N >= 2 && (N % 2 == 1 ==> 2 <= a < N) && r >= 1
    ensures var res := Run(N, a, qubitCount, r);
      res.Pair? ==> res.p * res.q == N && 1 < res.p < N && 1 < res.q < N
  {
    var res := Run(N, a, qubitCount, r);
    if res.Pair? {
      ProperFactorPair(N, res.p, res.q);
    }
  }

  /** On the numbers `run` passes on (at least 2 and not prime, since every
      prime is rejected by `is_prime` before factoring), the source's check
      `p * q == N` and the corrected one disagree on a pair from
      `shors_algorithm` only on the period path with `x == 1`. */
  lemma ChecksDifferOnlyAtRootOne(N: nat, a: nat, qubitCount: nat, r: nat)
    requires N >= 2 && !Prime(N) && (N % 2 == 1 ==> 2 <= a < N) && r >= 1
    ensures var res := ShorsAlgorithm(N, a, qubitCount, r);
      res.Pair? && CheckFactorsAsWritten(N, res.p, res.q) && !CheckFactors(N, res.p, res.q) ==>
        N % 2 == 1 && Gcd(a, N) == 1 && r % 2 == 0 && Pow(a, r / 2) % N == 1 && res == Pair(1, N)
  {
    if N % 2 == 0 {
      EvenShortcut(N, a, qubitCount, r, a, qubitCount, r);
    } else if Gcd(a, N) > 1 {
      GcdShortcut(N, a, qubitCount, r, qubitCount, r);
    } else if Configure(N, qubitCount).Ok? {
      if r % 2 == 0 {
        GcdDivides(a, N);
        ReconstructFactors(N, ModPow(a, r / 2, N));
      }
    }
  }

  // ---------------------------------------------------------------------------
  // Semiprimes

  lemma CancelLeft(P: int, u: int, v: int)
    requires P > 0 && P * u == P * v
    ensures u == v
  {
    ModOfMultiple(P, u);
    ModOfMultiple(P, v);
  }

  /** Two distinct primes that both divide `m` divide it jointly. */
  lemma DistinctPrimesDivideJointly(P: int, Q: int, m: int)
    requires Prime(P) && Prime(Q) && P != Q && m % P == 0 && m % Q == 0
    ensures m % (P * Q) == 0
  {
    DivisibleIsMultiple(m, P);
    var t := m / P;
    EuclidLemma(Q, P, t);
    if P % Q == 0 {
      PrimeDivisor(P, Q);
    }
    DivisibleIsMultiple(t, Q);
    assert m == (P * Q) * (t / Q) by {
      MulAssoc(P, Q, t / Q);
    }
    ModOfMultiple(P * Q, t / Q);
  }

  /** Strictly between 0 and `P * Q`, no number is a multiple of both primes. */
  lemma NotMultipleOfBoth(P: int, Q: int, y: int)
    requires Prime(P) && Prime(Q) && P != Q && 0 < y < P * Q
    ensures y % P != 0 || y % Q != 0
  {
    if y % P == 0 && y % Q == 0 {
      DistinctPrimesDivideJointly(P, Q, y);
      SmallMultipleIsZero(y, P * Q);
    }
  }

  /** An odd prime does not divide two numbers 2 apart. */
  lemma NotBothTwoApart(P: int, y: int)
    requires Prime(P) && P > 2
    ensures y % P != 0 || (y + 2) % P != 0
  {
    ModSub(y + 2, y, P);
    ModSmall(2, P);
  }

  /** A positive multiple of `P` that `Q` does not divide has gcd `P` with `P * Q`. */
  lemma GcdWithSemiprime(P: nat, Q: nat, y: nat)
    requires Prime(P) && Prime(Q) && P != Q && y > 0 && y % P == 0 && y % Q != 0
    ensures Gcd(y, P * Q) == P
  {
    var N := P * Q;
    var g := Gcd(y, N);
    GcdDivides(y, N);
    ModOfMultiple(P, Q);
    GcdGreatest(y, N, P);
    DivisibleIsMultiple(g, P);
    var h := g / P;
    DivisibleIsMultiple(N, g);
    var k := N / g;
    assert P * Q == P * (h * k) by {
      MulAssoc(P, h, k);
    }
    CancelLeft(P, Q, h * k);
    CofactorIsDivisor(Q, k, h);
    PrimeDivisor(Q, h);
    if h == Q {
      ModOfMultiple(Q, P);
      DivisibleTrans(y, g, Q);
    }
  }

  /** Each prime factor of `N` divides `x - 1` or `x + 1` when `x * x == 1`
      modulo `N`: the step of `NontrivialRootSplits` that sends each prime to
      one of the two gcds. */
  lemma RootOfOneNeighbours(N: nat, P: nat, x: nat)
    requires Prime(P) && N > 0 && N % P == 0 && x >= 1 && (x * x) % N == 1
    ensures (x - 1) % P == 0 || (x + 1) % P == 0
  {
    var lo, hi := x - 1, x + 1;
    assert (lo * hi) % N == 0 by {
      assert lo * hi == x * x - 1 by {
        Distrib(lo, x, 1);
        Distrib(x, x, -1);
      }
      ModSub(x * x, 1, N);
      ModSmall(1, N);
    }
    DivisibleTrans(lo * hi, N, P);
    EuclidLemma(P, lo, hi);
  }

  /** For `N = P * Q` with `P`, `Q` distinct odd primes, a square root of 1
      other than 1 and `N - 1` is reconstructed into exactly the two primes. */
  lemma NontrivialRootSplits(P: nat, Q: nat, x: nat)
    requires Prime(P) && Prime(Q) && P != Q && P > 2 && Q > 2
    requires 1 < x < P * Q - 1 && (x * x) % (P * Q) == 1
    ensures Reconstruct(P * Q, x) == Pair(P, Q) || Reconstruct(P * Q, x) == Pair(Q, P)
  {
    var N := P * Q;
    var lo, hi := x - 1, x + 1;
    ModOfMultiple(P, Q);
    ModOfMultiple(Q, P);
    RootOfOneNeighbours(N, P, x);
    RootOfOneNeighbours(N, Q, x);
    NotBothTwoApart(P, lo);
    NotBothTwoApart(Q, lo);
    NotMultipleOfBoth(P, Q, lo);
    NotMultipleOfBoth(P, Q, hi);
    assert PyGcd(hi, N) == Gcd(hi, N) && PyGcd(lo, N) == Gcd(lo, N);
    if hi % P == 0 {
      GcdWithSemiprime(P, Q, hi);
      GcdWithSemiprime(Q, P, lo);
    } else {
      GcdWithSemiprime(Q, P, hi);
      GcdWithSemiprime(P, Q, lo);
    }
  }

  /** The product of two odd primes is odd and at least 9. */
  lemma OddSemiprime(P: nat, Q: nat)
    requires Prime(P) && Prime(Q) && P > 2 && Q > 2
    ensures (P * Q) % 2 == 1 && P * Q >= 9
  {
    assert P % 2 != 0 && Q % 2 != 0;
    ModMul(P, Q, 2);
    assert (P % 2) * (Q % 2) == 1;
    MulMonotone(3, P, Q);
  }

  /** If `a^r == 1` modulo `N` for an even `r` and `x = a^(r/2) mod N` is
      neither 1 nor `N - 1`, then `x` is a square root of 1 strictly between. */
  lemma HalfPowerIsRootOfOne(N: nat, a: nat, r: nat)
    requires N >= 2 && r % 2 == 0 && Pow(a, r) % N == 1
    requires Pow(a, r / 2) % N != 1 && Pow(a, r / 2) % N != N - 1
    ensures var x := ModPow(a, r / 2, N); 1 < x < N - 1 && (x * x) % N == 1
  {
    var x := ModPow(a, r / 2, N);
    SquareStep(a, r / 2, N, x);
    RootOfOneNonzero(N, x);
  }

  /** A square root of 1 is not 0; kept apart so that `HalfPowerIsRootOfOne`
      need not reason about `0 * 0` modulo `N` in its own context. */
  lemma RootOfOneNonzero(N: nat, x: nat)
    requires N >= 2 && (x * x) % N == 1
    ensures x != 0
  {
  }

  /** On a product of two distinct odd primes, with a base prime to it and an
      even period `r` of `a` whose half power is not 1 or -1 modulo `N`,
      `shors_algorithm` returns the two primes and `run` accepts them. */
  lemma SemiprimeFactored(P: nat, Q: nat, a: nat, qubitCount: nat, r: nat)
    requires Prime(P) && Prime(Q) && P != Q && P > 2 && Q > 2
    requires 2 <= a < P * Q && Gcd(a, P * Q) == 1 && Configure(P * Q, qubitCount).Ok?
    requires r >= 1 && r % 2 == 0 && Pow(a, r) % (P * Q) == 1
    requires Pow(a, r / 2) % (P * Q) != 1 && Pow(a, r / 2) % (P * Q) != P * Q - 1
    ensures var res := ShorsAlgorithm(P * Q, a, qubitCount, r); res == Pair(P, Q) || res == Pair(Q, P)
    ensures var res := Run(P * Q, a, qubitCount, r); res == Pair(P, Q) || res == Pair(Q, P)
  {
    var N := P * Q;
    OddSemiprime(P, Q);
    HalfPowerIsRootOfOne(N, a, r);
    var x := ModPow(a, r / 2, N);
    assert ShorsAlgorithm(N, a, qubitCount, r) == Reconstruct(N, x) by {
      assert ShorsAlgorithm(N, a, qubitCount, r) == FromPeriod(N, a, r);
    }
    NontrivialRootSplits(P, Q, x);
    assert CheckFactors(N, P, Q) && CheckFactors(N, Q, P);
  }

  /** The concrete instance: `N = 15`, base 4, reported period 4. Then
      `x = 4^2 mod 15 = 1`, `shors_algorithm` returns `(1, 15)`, and the
      source's check accepts it. */
  lemma AsWrittenAcceptsOneAndFifteen()
    ensures ShorsAlgorithm(15, 4, 13, 4) == Pair(1, 15)
    ensures CheckFactorsAsWritten(15, 1, 15) && !CheckFactors(15, 1, 15)
    ensures RunAsWritten(15, 4, 13, 4) == Pair(1, 15)
    ensures Run(15, 4, 13, 4) == Error(WrongFactors)
  {
    assert CeilLog2(15) == 4;
    assert Gcd(4, 15) == 1;
    assert ModPow(4, 2, 15) == 1;
    assert PyGcd(2, 15) == 1;
    assert PyGcd(0, 15) == 15;
  }

  /** The worked example: `N = 15`, base 7, period 4 gives `x = 4` and the
      factors `(5, 3)`. */
  lemma FifteenWithBaseSeven()
    ensures Run(15, 7, 13, 4) == Pair(5, 3)
  {
    assert CeilLog2(15) == 4;
    assert Gcd(7, 15) == 1;
    assert ModPow(7, 2, 15) == 4;
    assert PyGcd(5, 15) == 5;
    assert PyGcd(3, 15) == 3;
  }
}
