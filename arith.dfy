/** Integer facts that the primality test and the factor reconstruction rest on:
    powers, Euclidean division, divisibility, greatest common divisors and primes.
    Divisibility of `n` by `d > 0` is written `n % d == 0` throughout. */
module Arith {

  /** `b` to the power `e`, the value of Python's `b ** e`. */
  function Pow(b: nat, e: nat): (r: nat)
    ensures b > 0 ==> r > 0
    decreases e
  {
    if e == 0 then 1 else b * Pow(b, e - 1)
  }

  lemma {:induction false} PowAdd(b: nat, e1: nat, e2: nat)
    ensures Pow(b, e1 + e2) == Pow(b, e1) * Pow(b, e2)
    decreases e1
  {
    if e1 > 0 {
      PowAdd(b, e1 - 1, e2);
      assert Pow(b, e1 + e2) == b * Pow(b, e1 - 1 + e2);
      MulAssoc(b, Pow(b, e1 - 1), Pow(b, e2));
    }
  }

  /** Squaring doubles the exponent. */
  lemma PowDouble(b: nat, e: nat)
    ensures Pow(b, 2 * e) == Pow(b, e) * Pow(b, e)
  {
    PowAdd(b, e, e);
  }

  /** Associativity of `*`, as a lemma to call where the solver would not
      regroup a nonlinear product unaided. */
  lemma MulAssoc(x: int, y: int, z: int)
    ensures x * (y * z) == (x * y) * z
  {
  }

  /** Distributivity of `*` over `+`, for the same reason as `MulAssoc`. */
  lemma Distrib(x: int, y: int, z: int)
    ensures x * (y + z) == x * y + x * z
  {
  }

  // ---------------------------------------------------------------------------
  // Euclidean division

  /** Quotient and remainder are determined by the division equation. */
  lemma ModUnique(a: int, m: int, q: int, r: int)
    requires m > 0 && a == m * q + r && 0 <= r < m
    ensures a % m == r && a / m == q
  {
    var k := q - a / m;
    assert m * k == a % m - r by {
      assert a == m * (a / m) + a % m;
      assert m * q - m * (a / m) == m * k;
    }
  }

  lemma ModOfMultiple(m: int, k: int)
    requires m > 0
    ensures (m * k) % m == 0 && (m * k) / m == k
  {
    ModUnique(m * k, m, k, 0);
  }

  lemma DivisibleIsMultiple(a: int, m: int)
    requires m > 0 && a % m == 0
    ensures a == m * (a / m)
  {
  }

  /** Adding a multiple of `m` does not change the remainder. */
  lemma ModAddMultiple(a: int, m: int, k: int)
    requires m > 0
    ensures (a + m * k) % m == a % m
  {
    assert a == m * (a / m) + a % m;
    assert a + m * k == m * (a / m + k) + a % m;
    ModUnique(a + m * k, m, a / m + k, a % m);
  }

  lemma ModAdd(a: int, b: int, m: int)
    requires m > 0
    ensures (a + b) % m == (a % m + b % m) % m
  {
    assert a == m * (a / m) + a % m;
    assert b == m * (b / m) + b % m;
    assert a + b == (a % m + b % m) + m * (a / m + b / m);
    ModAddMultiple(a % m + b % m, m, a / m + b / m);
  }

  lemma ModSub(a: int, b: int, m: int)
    requires m > 0
    ensures (a - b) % m == (a % m - b % m) % m
  {
    assert a == m * (a / m) + a % m;
    assert b == m * (b / m) + b % m;
    assert a - b == (a % m - b % m) + m * (a / m - b / m);
    ModAddMultiple(a % m - b % m, m, a / m - b / m);
  }

  lemma ModMul(a: int, b: int, m: int)
    requires m > 0
    ensures (a * b) % m == ((a % m) * (b % m)) % m
  {
    var qa, ra := a / m, a % m;
    var qb, rb := b / m, b % m;
    assert a == m * qa + ra;
    assert b == m * qb + rb;
    calc {
      a * b;
      (m * qa + ra) * (m * qb + rb);
      ra * rb + m * (qa * m * qb + qa * rb + ra * qb);
    }
    ModAddMultiple(ra * rb, m, qa * m * qb + qa * rb + ra * qb);
  }

  lemma ModMod(a: int, m: int)
    requires m > 0
    ensures (a % m) % m == a % m
  {
    ModUnique(a % m, m, 0, a % m);
  }

  lemma ModSmall(a: int, m: int)
    requires 0 <= a < m
    ensures a % m == a
  {
    ModUnique(a, m, 0, a);
  }

  /** Sums and multiples of multiples of `m` are multiples of `m`. */
  lemma DivisibleLinear(x: int, y: int, c: int, e: int, m: int)
    requires m > 0 && x % m == 0 && y % m == 0
    ensures (c * x + e * y) % m == 0
  {
    DivisibleIsMultiple(x, m);
    DivisibleIsMultiple(y, m);
    assert c * x + e * y == m * (c * (x / m) + e * (y / m)) by {
      assert c * x == c * (m * (x / m)) == m * (c * (x / m));
      assert e * y == e * (m * (y / m)) == m * (e * (y / m));
    }
    ModOfMultiple(m, c * (x / m) + e * (y / m));
  }

  lemma DivisibleMul(x: int, c: int, m: int)
    requires m > 0 && x % m == 0
    ensures (c * x) % m == 0
  {
    DivisibleLinear(x, 0, c, 0, m);
  }

  /** Divisibility is transitive. */
  lemma DivisibleTrans(a: int, b: int, c: int)
    requires b > 0 && c > 0 && a % b == 0 && b % c == 0
    ensures a % c == 0
  {
    DivisibleIsMultiple(a, b);
    DivisibleMul(b, a / b, c);
    assert (a / b) * b == a;
  }

  /** A positive multiple of `d` is at least `d`. */
  lemma DivisorBound(a: int, d: int)
    requires a > 0 && d > 0 && a % d == 0
    ensures d <= a
  {
    DivisibleIsMultiple(a, d);
    var k := a / d;
    if k > 0 {
      assert d * k == d + d * (k - 1);
      assert d * (k - 1) >= 0;
    }
  }

  /** A multiple of `m` of absolute value below `m` is zero. */
  lemma SmallMultipleIsZero(a: int, m: int)
    requires m > 0 && -m < a < m && a % m == 0
    ensures a == 0
  {
    if a > 0 {
      DivisorBound(a, m);
    } else if a < 0 {
      DivisibleMul(a, -1, m);
      DivisorBound(-a, m);
    }
  }

  // ---------------------------------------------------------------------------
  // Greatest common divisor

  /** Euclid's algorithm; the value of Python's `math.gcd` on non-negative arguments. */
  function Gcd(a: nat, b: nat): nat
    decreases b
  {
    if b == 0 then a else Gcd(b, a % b)
  }

  lemma {:induction false} GcdDivides(a: nat, b: nat)
    ensures Gcd(a, b) == 0 <==> a == 0 && b == 0
    ensures Gcd(a, b) > 0 ==> a % Gcd(a, b) == 0 && b % Gcd(a, b) == 0
    decreases b
  {
    if b == 0 {
      if a > 0 {
        ModOfMultiple(a, 1);
      }
    } else {
      var g := Gcd(b, a % b);
      GcdDivides(b, a % b);
      assert a == (a / b) * b + a % b;
      DivisibleLinear(b, a % b, a / b, 1, g);
    }
  }

  /** Bezout's identity: the gcd is an integer combination of the arguments. */
  lemma {:induction false} Bezout(a: nat, b: nat) returns (x: int, y: int)
    ensures a * x + b * y == Gcd(a, b)
    decreases b
  {
    if b == 0 {
      x, y := 1, 0;
    } else {
      var x', y' := Bezout(b, a % b);
      x, y := y', x' - (a / b) * y';
      calc {
        a * x + b * y;
        a * y' + b * x' - b * ((a / b) * y');
        { MulAssoc(b, a / b, y'); }
        a * y' + b * x' - (b * (a / b)) * y';
        b * x' + (a - b * (a / b)) * y';
        { assert a - b * (a / b) == a % b; }
        b * x' + (a % b) * y';
      }
    }
  }

  /** Every common divisor divides the gcd, so the gcd is the greatest one. */
  lemma GcdGreatest(a: nat, b: nat, c: int)
    requires c > 0 && a % c == 0 && b % c == 0
    ensures Gcd(a, b) % c == 0
  {
    var x, y := Bezout(a, b);
    DivisibleLinear(a, b, x, y, c);
    assert x * a + y * b == Gcd(a, b);
  }

  // ---------------------------------------------------------------------------
  // Primes

  ghost predicate Prime(n: int) {
    n >= 2 && forall k :: 2 <= k < n ==> n % k != 0
  }

  /** The only positive divisors of a prime are 1 and itself. */
  lemma PrimeDivisor(p: int, d: int)
    requires Prime(p) && d > 0 && p % d == 0
    ensures d == 1 || d == p
  {
    DivisorBound(p, d);
  }

  /** The least divisor of `n` that is at least `k`. */
  function LeastDivisorFrom(n: nat, k: nat): (r: nat)
    requires 2 <= k <= n
    ensures k <= r <= n && n % r == 0
    ensures forall j :: k <= j < r ==> n % j != 0
    decreases n - k
  {
    if n % k == 0 then k
    else if k == n then (ModOfMultiple(n, 1); n)
    else LeastDivisorFrom(n, k + 1)
  }

  lemma MulMonotone(a: int, b: int, c: int)
    requires 0 <= a <= b && c >= 0
    ensures a * c <= b * c
  {
    assert b * c == a * c + (b - a) * c;
  }

  /** The cofactor of a divisor is a divisor too. */
  lemma CofactorIsDivisor(n: int, m: int, q: int)
    requires n > 0 && m > 0 && n == q * m
    ensures q > 0 && n % q == 0
  {
    if q <= 0 {
      MulMonotone(0, m, -q);
    }
    ModOfMultiple(q, m);
  }

  /** The least divisor above 1 of any `n >= 2` is prime, and when `n` is
      not prime its square is at most `n`. */
  lemma LeastDivisorIsPrime(n: nat)
    requires n >= 2
    ensures Prime(LeastDivisorFrom(n, 2))
    ensures !Prime(n) ==> LeastDivisorFrom(n, 2) * LeastDivisorFrom(n, 2) <= n
  {
    var m := LeastDivisorFrom(n, 2);
    forall k | 2 <= k < m
      ensures m % k != 0
    {
      if m % k == 0 {
        DivisibleTrans(n, m, k);
      }
    }
    if !Prime(n) {
      var k :| 2 <= k < n && n % k == 0;
      assert m < n;
      DivisibleIsMultiple(n, m);
      var q := n / m;
      assert n == q * m;
      CofactorIsDivisor(n, m, q);
      assert q >= m;
      MulMonotone(m, q, m);
    }
  }

  /** Trial division up to a bound: a number below `b * b` with no prime
      factor below `b` other than itself is prime. */
  lemma PrimeByTrialDivision(n: nat, b: nat)
    requires 2 <= n < b * b
    requires forall m :: 2 <= m < b && Prime(m) ==> n % m != 0 || n == m
    ensures Prime(n)
  {
    if !Prime(n) {
      var m := LeastDivisorFrom(n, 2);
      LeastDivisorIsPrime(n);
      if m >= b {
        MulMonotone(b, m, b);
        MulMonotone(b, m, m);
      }
    }
  }
}
