/** The primality test `QuantumPrimeHunter.is_prime`: trial division by the
    primes up to 31, then strong-probable-prime rounds of the Miller-Rabin
    test with a fixed set of seven bases. The test is imperative in the
    source (loops with early returns), so it is modelled by methods, each
    proved against a specification predicate; the specification is then
    related to primality by lemmas. */
module MillerRabin {
  import opened Wrappers
  import opened Arith
  import opened Fermat
  import opened PyOps

  type AtLeastTwo = x: nat | x >= 2 witness 2

  /** The trial divisors, in the order the source tries them. */
  const SmallPrimes: seq<AtLeastTwo> := [2, 3, 5, 7, 11, 13, 17, 19, 23, 29, 31]

  /** The strong-probable-prime bases, in the order the source tries them. */
  const Bases: seq<AtLeastTwo> := [2, 325, 9375, 28178, 450775, 9780504, 1795265022]

  // ---------------------------------------------------------------------------
  // Specification

  /** The index of the first trial divisor at or after `from` that divides `n`. */
  function TrialDivision(n: int, from: nat): (r: Option<nat>)
    requires from <= |SmallPrimes|
    ensures r.Some? ==> from <= r.value < |SmallPrimes| && n % SmallPrimes[r.value] == 0
    ensures forall k :: from <= k < (if r.Some? then r.value else |SmallPrimes|) ==> n % SmallPrimes[k] != 0
    decreases |SmallPrimes| - from
  {
    if from == |SmallPrimes| then None
    else if n % SmallPrimes[from] == 0 then Some(from)
    else TrialDivision(n, from + 1)
  }

  /** `m == d * 2^s` with `d` odd: the odd part of `m` and the exponent of two in it. */
  function Decompose(m: nat): (ds: (nat, nat))
    requires m >= 1
    ensures ds.0 % 2 == 1 && m == ds.0 * Pow(2, ds.1)
    decreases m
  {
    if m % 2 == 1 then (m, 0)
    else
      var (d, s) := Decompose(m / 2);
      DoubleExponent(d, s);
      (d, s + 1)
  }

  lemma DoubleExponent(d: nat, s: nat)
    ensures d * Pow(2, s + 1) == 2 * (d * Pow(2, s))
  {
    assert Pow(2, s + 1) == 2 * Pow(2, s);
    MulAssoc(d, 2, Pow(2, s));
    MulAssoc(2, d, Pow(2, s));
  }

  /** `n` passes the strong-probable-prime round for base `a`, where
      `n - 1 == d * 2^s`: `a^d` is 1 or -1 modulo `n`, or one of
      `a^(d * 2^i)` for `1 <= i < s` is -1 modulo `n`. */
  ghost predicate StrongProbablePrime(n: nat, a: nat, d: nat, s: nat)
    requires n >= 1
  {
    var x := Pow(a, d) % n;
    x == 1 || x == n - 1 ||
    exists i :: 1 <= i < s && Pow(a, d * Pow(2, i)) % n == n - 1
  }

  /** What `is_prime(n)` returns. */
  ghost predicate IsPrimeSpec(n: int) {
    n >= 2 &&
    match TrialDivision(n, 0)
    case Some(j) => n == SmallPrimes[j]
    case None =>
      var (d, s) := Decompose(n - 1);
      forall j :: 0 <= j < |Bases| && Bases[j] < n ==> StrongProbablePrime(n, Bases[j], d, s)
  }

  // ---------------------------------------------------------------------------
  // The test itself

  /** The halving loop: strips the factors of two off `m`. */
  method FactorOutTwos(m: nat) returns (d: nat, s: nat)
    requires m >= 1
    ensures d % 2 == 1 && m == d * Pow(2, s)
    ensures m % 2 == 0 ==> s >= 1
    ensures (d, s) == Decompose(m)
  {
    d, s := m, 0;
    while d % 2 == 0
      invariant d >= 1 && m == d * Pow(2, s)
      invariant s == 0 ==> d == m
      decreases d
    {
      DoubleExponent(d / 2, s);
      d, s := d / 2, s + 1;
    }
    DecomposeUnique(m, d, s);
  }

  /** One strong-probable-prime round: `x := pow(a, d, n)`, then up to
      `s - 1` squarings looking for `n - 1`. */
  method StrongRound(n: nat, a: nat, d: nat, s: nat) returns (pass: bool)
    requires n >= 1
    ensures pass == StrongProbablePrime(n, a, d, s)
  {
    var x := ModPow(a, d, n);
    if x == 1 || x == n - 1 {
      return true;
    }
    var i := 1;
    while i < s
      invariant 1 <= i && (s >= 1 ==> i <= s)
      invariant x == Pow(a, d * Pow(2, i - 1)) % n
      invariant forall j :: 1 <= j < i ==> Pow(a, d * Pow(2, j)) % n != n - 1
    {
      DoubleExponent(d, i - 1);
      SquareStep(a, d * Pow(2, i - 1), n, x);
      assert x * x == Pow(x, 2);
      x := ModPow(x, 2, n);
      if x == n - 1 {
        return true;
      }
      i := i + 1;
    }
    return false;
  }

  /** `is_prime(n)`. */
  method IsPrime(n: int) returns (r: bool)
    ensures r == IsPrimeSpec(n)
    ensures n < 2 ==> !r
    ensures Prime(n) ==> r
  {
    PrimeIsAccepted(n);
    if n < 2 {
      return false;
    }
    var i := 0;
    while i < |SmallPrimes|
      invariant 0 <= i <= |SmallPrimes|
      invariant forall k :: 0 <= k < i ==> n % SmallPrimes[k] != 0
    {
      if n % SmallPrimes[i] == 0 {
        return n == SmallPrimes[i];
      }
      i := i + 1;
    }
    var d, s := FactorOutTwos(n - 1);
    var k := 0;
    while k < |Bases|
      invariant 0 <= k <= |Bases|
      invariant forall j :: 0 <= j < k && Bases[j] < n ==> StrongProbablePrime(n, Bases[j], d, s)
    {
      var a := Bases[k];
      if a < n {
        var pass := StrongRound(n, a, d, s);
        if !pass {
          return false;
        }
      }
      k := k + 1;
    }
    return true;
  }

  // ---------------------------------------------------------------------------
  // Properties

  /** The decomposition into an odd part and a power of two is unique. */
  lemma {:induction false} DecomposeUnique(m: nat, d: nat, s: nat)
    requires m >= 1 && d % 2 == 1 && m == d * Pow(2, s)
    ensures (d, s) == Decompose(m)
    decreases m
  {
    if s == 0 {
      assert m == d;
    } else {
      DoubleExponent(d, s - 1);
      ModOfMultiple(2, d * Pow(2, s - 1));
      assert m / 2 == d * Pow(2, s - 1);
      DecomposeUnique(m / 2, d, s - 1);
    }
  }

  /** The steps from `a^d` to `a^(d * 2^i)` are squarings, and modulo a prime
      only 1 and -1 square to 1: if `a^(d * 2^i)` is 1, the chain starts at 1 or
      passes through -1. */
  lemma {:induction false} RootChain(n: nat, a: nat, d: nat, i: nat)
    requires Prime(n) && Pow(a, d * Pow(2, i)) % n == 1
    ensures Pow(a, d) % n == 1 || exists j :: 0 <= j < i && Pow(a, d * Pow(2, j)) % n == n - 1
    decreases i
  {
    if i == 0 {
      assert d * Pow(2, 0) == d;
    } else {
      var e := d * Pow(2, i - 1);
      DoubleExponent(d, i - 1);
      var y := Pow(a, e) % n;
      SquareStep(a, e, n, y);
      SqrtOfOne(n, y);
      ModSmall(y, n);
      if y != n - 1 {
        RootChain(n, a, d, i - 1);
      }
    }
  }

  /** Every base below a prime passes its strong-probable-prime round. */
  lemma PrimePassesRound(n: nat, a: nat)
    requires Prime(n) && 1 <= a < n
    ensures StrongProbablePrime(n, a, Decompose(n - 1).0, Decompose(n - 1).1)
  {
    var (d, s) := Decompose(n - 1);
    ModSmall(a, n);
    FermatLittle(n, a);
    RootChain(n, a, d, s);
    if Pow(a, d) % n != 1 {
      var j :| 0 <= j < s && Pow(a, d * Pow(2, j)) % n == n - 1;
      if j == 0 {
        assert d * Pow(2, 0) == d;
      }
    }
  }

  /** `is_prime` never rejects a prime: a `False` result means `n` is composite
      (or below 2). */
  lemma PrimeIsAccepted(n: int)
    ensures Prime(n) ==> IsPrimeSpec(n)
  {
    if Prime(n) {
      match TrialDivision(n, 0)
      case Some(j) =>
        PrimeDivisor(n, SmallPrimes[j]);
      case None =>
        forall j | 0 <= j < |Bases| && Bases[j] < n
          ensures StrongProbablePrime(n, Bases[j], Decompose(n - 1).0, Decompose(n - 1).1)
        {
          PrimePassesRound(n, Bases[j]);
        }
    }
  }

  /** The primes below 6 are 2, 3 and 5. */
  lemma PrimesBelowSix(m: int)
    requires 2 <= m < 6 && Prime(m)
    ensures m == 2 || m == 3 || m == 5
  {
    assert m == 2 || m % 2 != 0;
  }

  /** Every trial divisor is prime. */
  lemma SmallPrimesArePrime(j: nat)
    requires j < |SmallPrimes|
    ensures Prime(SmallPrimes[j])
  {
    var p: nat := SmallPrimes[j];
    assert p < 36 && (p % 2 != 0 || p == 2) && (p % 3 != 0 || p == 3) && (p % 5 != 0 || p == 5) by {
      assert j == 0 || j == 1 || j == 2 || j == 3 || j == 4 || j == 5 || j == 6 || j == 7 || j == 8 || j == 9 || j == 10;
    }
    forall m | 2 <= m < 6 && Prime(m)
      ensures p % m != 0 || p == m
    {
      PrimesBelowSix(m);
    }
    PrimeByTrialDivision(p, 6);
  }

  /** The trial divisors are all the primes below 37. */
  lemma PrimesBelow37AreSmall(m: int)
    requires 2 <= m < 37 && Prime(m)
    ensures m in SmallPrimes
  {
    assert m % 2 == 0 || m % 3 == 0 || m % 5 == 0 || m in SmallPrimes by {
      assert m == 2 || m == 3 || m == 4 || m == 5 || m == 6 || m == 7 || m == 8 || m == 9 || m == 10 ||
             m == 11 || m == 12 || m == 13 || m == 14 || m == 15 || m == 16 || m == 17 || m == 18 || m == 19 ||
             m == 20 || m == 21 || m == 22 || m == 23 || m == 24 || m == 25 || m == 26 || m == 27 || m == 28 ||
             m == 29 || m == 30 || m == 31 || m == 32 || m == 33 || m == 34 || m == 35 || m == 36;
    }
  }

  /** The trial-division branch: when a trial divisor `p` divides `n`, `is_prime(n)`
      is true exactly when `n == p`, and otherwise `p` is a proper divisor of `n`. */
  lemma SmallDivisorDecides(n: int, j: nat)
    requires n >= 2 && j < |SmallPrimes| && n % SmallPrimes[j] == 0
    ensures IsPrimeSpec(n) <==> n == SmallPrimes[j]
    ensures n != SmallPrimes[j] ==> 1 < SmallPrimes[j] < n && !Prime(n)
  {
    var p: nat := SmallPrimes[j];
    DivisorBound(n, p);
    var i := TrialDivision(n, 0).value;
    if i != j {
      assert i < j;
      var q: nat := SmallPrimes[i];
      assert q < p by {
        assert forall x, y :: 0 <= x < y < |SmallPrimes| ==> SmallPrimes[x] < SmallPrimes[y];
      }
      if n == q {
        DivisorBound(q, p);
      }
      if n == p {
        SmallPrimesArePrime(j);
        PrimeDivisor(p, q);
      }
    }
  }

  /** Below 37 * 37 trial division alone decides, so there `is_prime` is exact. */
  lemma ExactBelow1369(n: int)
    requires 2 <= n < 37 * 37
    ensures IsPrimeSpec(n) <==> Prime(n)
  {
    PrimeIsAccepted(n);
    match TrialDivision(n, 0)
    case Some(j) =>
      if n == SmallPrimes[j] {
        SmallPrimesArePrime(j);
      }
    case None =>
      forall m | 2 <= m < 37 && Prime(m)
        ensures n % m != 0 || n == m
      {
        PrimesBelow37AreSmall(m);
      }
      PrimeByTrialDivision(n, 37);
  }

  // ---------------------------------------------------------------------------
  // Bases at or above `n`

  /** The source skips every base `a >= n`. For `4033 = 37 * 109` only the bases
      2 and 325 are tried, both reach -1 at the first squaring, and `is_prime`
      accepts the composite. */
  lemma AsWrittenAccepts4033()
    ensures IsPrimeSpec(4033) && !Prime(4033) && 4033 == 37 * 109
  {
    TrialDivisionOf4033();
    Decompose4032();
    BasesBelow4033Pass();
    assert 4033 % 37 == 0;
  }

  /** The two bases below 4033 are strong liars for it. */
  lemma BasesBelow4033Pass()
    ensures forall j :: 0 <= j < |Bases| && Bases[j] < 4033 ==> StrongProbablePrime(4033, Bases[j], 63, 6)
  {
    TwoIsLiarFor4033(Bases[0]);
    Base325IsLiarFor4033(Bases[1]);
    forall j | 0 <= j < |Bases| && Bases[j] < 4033
      ensures StrongProbablePrime(4033, Bases[j], 63, 6)
    {
      assert j == 0 || j == 1;
    }
  }

  /** Every number congruent to 2 modulo 4033 reaches -1 at the first
      squaring of its 63rd power. */
  lemma TwoIsLiarFor4033(b: nat)
    requires b % 4033 == 2
    ensures StrongProbablePrime(4033, b, 63, 6)
  {
    RoundFromChain(b, 4033, 2, 4, 8, 64, 128, 252, 504, 3970, 3907, 3777, 3521, 4032, 1, 1, 1, 1);
  }

  /** The same for every number congruent to 325 modulo 4033. */
  lemma Base325IsLiarFor4033(b: nat)
    requires b % 4033 == 325
    ensures StrongProbablePrime(4033, b, 63, 6)
  {
    RoundFromChain(b, 4033, 325, 767, 3262, 1590, 526, 2432, 3965, 591, 2524, 2469, 3891, 4032, 1, 1, 1, 1);
  }

  /** No number congruent to 1309 modulo 4033 passes the round: its powers
      `b^(63 * 2^i)` run 1745, 110, 1, 1, 1, 1 and never reach -1. */
  lemma Base1309IsWitnessFor4033(b: nat)
    requires b % 4033 == 1309
    ensures !StrongProbablePrime(4033, b, 63, 6)
  {
    RoundFromChain(b, 4033, 1309, 3489, 1745, 110, 2835, 3489, 1745, 110, 2835, 3489, 1745, 110, 1, 1, 1, 1);
  }

  /** A round with `n - 1 = 63 * 2^6`, decided from the residues of the
      addition chain for `b^63` and the five squarings after it. */
  lemma RoundFromChain(b: nat, n: nat, h1: nat, h2: nat, h3: nat, h6: nat, h7: nat, h14: nat, h15: nat,
                       h30: nat, h31: nat, h62: nat, h63: nat, h126: nat,
                       h252: nat, h504: nat, h1008: nat, h2016: nat)
    requires n >= 2 && h1 == b % n
    requires h2 == (h1 * h1) % n && h3 == (h2 * h1) % n
    requires h6 == (h3 * h3) % n && h7 == (h6 * h1) % n
    requires h14 == (h7 * h7) % n && h15 == (h14 * h1) % n
    requires h30 == (h15 * h15) % n && h31 == (h30 * h1) % n
    requires h62 == (h31 * h31) % n && h63 == (h62 * h1) % n
    requires h126 == (h63 * h63) % n && h252 == (h126 * h126) % n && h504 == (h252 * h252) % n
    requires h1008 == (h504 * h504) % n && h2016 == (h1008 * h1008) % n
    ensures StrongProbablePrime(n, b, 63, 6) <==>
      h63 == 1 || h63 == n - 1 || h126 == n - 1 || h252 == n - 1 || h504 == n - 1 || h1008 == n - 1 || h2016 == n - 1
  {
    ChainTo126(b, n, h1, h2, h3, h6, h7, h14, h15, h30, h31, h62, h63, h126);
    ChainTo2016(b, n, h126, h252, h504, h1008, h2016);
    assert Pow(2, 1) == 2 && Pow(2, 2) == 4 && Pow(2, 3) == 8 && Pow(2, 4) == 16 && Pow(2, 5) == 32;
    forall i | 1 <= i < 6
      ensures Pow(b, 63 * Pow(2, i)) % n == [h126, h252, h504, h1008, h2016][i - 1]
    {
      assert i == 1 || i == 2 || i == 3 || i == 4 || i == 5;
    }
  }

  /** One step of an addition chain: multiplying `b^e1` and `b^e2` modulo `n`
      gives `b^(e1 + e2)` modulo `n`. */
  lemma PowStep(b: nat, n: nat, e1: nat, e2: nat, h1: nat, h2: nat, e: nat, h: nat)
    requires n >= 1 && h1 == Pow(b, e1) % n && h2 == Pow(b, e2) % n
    requires e == e1 + e2 && h == (h1 * h2) % n
    ensures h == Pow(b, e) % n
  {
    PowAdd(b, e1, e2);
    ModMul(Pow(b, e1), Pow(b, e2), n);
  }

  /** From `b^e` modulo `n`, one squaring and one multiplication by `b` give
      `b^(2e)` and `b^(2e + 1)` modulo `n`. */
  lemma DoubleAndIncrement(b: nat, n: nat, e: nat, h: nat, h2: nat, h3: nat)
    requires n >= 1 && h == Pow(b, e) % n
    requires h2 == (h * h) % n && h3 == (h2 * (b % n)) % n
    ensures h2 == Pow(b, 2 * e) % n && h3 == Pow(b, 2 * e + 1) % n
  {
    assert Pow(b, 1) == b;
    PowStep(b, n, e, e, h, h, 2 * e, h2);
    PowStep(b, n, 2 * e, 1, h2, b % n, 2 * e + 1, h3);
  }

  /** The residues of `b^1, b^3, b^7, ..., b^63` and `b^126` modulo `n`, each
      computed from the one before, with the even powers between them.
      Every modulus, base and residue is a parameter, so that the
      concrete instances only check residue arithmetic. */
  lemma ChainTo126(b: nat, n: nat, h1: nat, h2: nat, h3: nat, h6: nat, h7: nat, h14: nat, h15: nat,
                   h30: nat, h31: nat, h62: nat, h63: nat, h126: nat)
    requires n >= 1 && h1 == b % n
    requires h2 == (h1 * h1) % n && h3 == (h2 * h1) % n
    requires h6 == (h3 * h3) % n && h7 == (h6 * h1) % n
    requires h14 == (h7 * h7) % n && h15 == (h14 * h1) % n
    requires h30 == (h15 * h15) % n && h31 == (h30 * h1) % n
    requires h62 == (h31 * h31) % n && h63 == (h62 * h1) % n
    requires h126 == (h63 * h63) % n
    ensures h63 == Pow(b, 63) % n && h126 == Pow(b, 126) % n
  {
    assert Pow(b, 1) == b;
    DoubleAndIncrement(b, n, 1, h1, h2, h3);
    DoubleAndIncrement(b, n, 3, h3, h6, h7);
    DoubleAndIncrement(b, n, 7, h7, h14, h15);
    DoubleAndIncrement(b, n, 15, h15, h30, h31);
    DoubleAndIncrement(b, n, 31, h31, h62, h63);
    DoubleAndIncrement(b, n, 63, h63, h126, (h126 * h1) % n);
  }

  /** Four more squarings: `b^252, b^504, b^1008, b^2016` modulo `n`. */
  lemma ChainTo2016(b: nat, n: nat, h126: nat, h252: nat, h504: nat, h1008: nat, h2016: nat)
    requires n >= 1 && h126 == Pow(b, 126) % n
    requires h252 == (h126 * h126) % n && h504 == (h252 * h252) % n
    requires h1008 == (h504 * h504) % n && h2016 == (h1008 * h1008) % n
    ensures h252 == Pow(b, 252) % n && h504 == Pow(b, 504) % n
    ensures h1008 == Pow(b, 1008) % n && h2016 == Pow(b, 2016) % n
  {
    PowStep(b, n, 126, 126, h126, h126, 252, h252);
    PowStep(b, n, 252, 252, h252, h252, 504, h504);
    PowStep(b, n, 504, 504, h504, h504, 1008, h1008);
    PowStep(b, n, 1008, 1008, h1008, h1008, 2016, h2016);
  }

  /** No trial divisor divides 4033. */
  lemma TrialDivisionOf4033()
    ensures TrialDivision(4033, 0) == None
  {
    assert TrialDivision(4033, 6) == None by {
      assert TrialDivision(4033, 11) == None;
      assert TrialDivision(4033, 10) == None;
      assert TrialDivision(4033, 9) == None;
      assert TrialDivision(4033, 8) == None;
      assert TrialDivision(4033, 7) == None;
    }
    assert TrialDivision(4033, 5) == None;
    assert TrialDivision(4033, 4) == None;
    assert TrialDivision(4033, 3) == None;
    assert TrialDivision(4033, 2) == None;
    assert TrialDivision(4033, 1) == None;
  }

  /** `4032 == 63 * 2^6`. */
  lemma Decompose4032()
    ensures Decompose(4032) == (63, 6)
  {
    assert Pow(2, 6) == 64;
    DecomposeUnique(4032, 63, 6);
  }

  /** The test with each base reduced modulo `n` and a residue of 0 skipped,
      the way this set of seven bases decides primality below `2^64`. */
  ghost predicate IsPrimeReducedSpec(n: int) {
    n >= 2 &&
    match TrialDivision(n, 0)
    case Some(j) => n == SmallPrimes[j]
    case None =>
      var (d, s) := Decompose(n - 1);
      forall j :: 0 <= j < |Bases| && Bases[j] % n != 0 ==> StrongProbablePrime(n, Bases[j] % n, d, s)
  }

  /** The reduced test still accepts every prime. */
  lemma ReducedAcceptsPrimes(n: int)
    ensures Prime(n) ==> IsPrimeReducedSpec(n)
  {
    if Prime(n) {
      match TrialDivision(n, 0)
      case Some(j) =>
        PrimeDivisor(n, SmallPrimes[j]);
      case None =>
        forall j | 0 <= j < |Bases| && Bases[j] % n != 0
          ensures StrongProbablePrime(n, Bases[j] % n, Decompose(n - 1).0, Decompose(n - 1).1)
        {
          PrimePassesRound(n, Bases[j] % n);
        }
    }
  }

  /** The reduced test rejects 4033: base 9375 is 1309 modulo 4033. */
  lemma ReducedRejects4033()
    ensures !IsPrimeReducedSpec(4033)
  {
    TrialDivisionOf4033();
    Decompose4032();
    Base1309IsWitnessFor4033(Bases[2] % 4033);
  }

  /** Once `n` exceeds every base, reducing the bases changes nothing: the
      two tests differ only on numbers some base reaches. */
  lemma ReducedAgreesAboveBases(n: int)
    requires n > 1795265022
    ensures IsPrimeSpec(n) <==> IsPrimeReducedSpec(n)
  {
    forall j | 0 <= j < |Bases|
      ensures Bases[j] < n && Bases[j] % n == Bases[j]
    {
      ModSmall(Bases[j], n);
    }
  }
}
