/** Euclid's lemma, Fermat's little theorem and the square roots of one modulo
    a prime: the number theory behind the strong-probable-prime test. */
module Fermat {
  import opened Arith

  /** A prime dividing a product divides one of its factors. */
  lemma EuclidLemma(p: int, a: int, b: int)
    requires Prime(p) && (a * b) % p == 0
    ensures a % p == 0 || b % p == 0
  {
    var ra := a % p;
    if ra != 0 {
      PrimeCoprimeToResidue(p, ra);
      var x, y := Bezout(p, ra);
      assert (ra * b) % p == 0 by {
        ModMul(ra, b, p);
        ModMod(a, p);
        ModMul(a, b, p);
      }
      CoprimeCancel(p, ra, b, x, y);
    }
  }

  /** A prime has gcd 1 with every non-zero residue. */
  lemma PrimeCoprimeToResidue(p: int, ra: int)
    requires Prime(p) && 0 < ra < p
    ensures Gcd(p, ra) == 1
  {
    var g := Gcd(p, ra);
    GcdDivides(p, ra);
    PrimeDivisor(p, g);
    if g == p {
      DivisorBound(ra, p);
    }
  }

  /** If `p * x + c * y == 1` and `p` divides `c * b`, then `p` divides `b`. */
  lemma CoprimeCancel(p: int, c: int, b: int, x: int, y: int)
    requires p > 0 && p * x + c * y == 1 && (c * b) % p == 0
    ensures b % p == 0
  {
    ModOfMultiple(p, b);
    DivisibleLinear(p * b, c * b, x, y, p);
    assert x * (p * b) + y * (c * b) == b * (p * x + c * y);
  }

  // ---------------------------------------------------------------------------
  // Binomial coefficients

  /** Pascal's rule. */
  function Binom(n: nat, k: nat): nat
    decreases n
  {
    if k == 0 then 1 else if n == 0 then 0 else Binom(n - 1, k - 1) + Binom(n - 1, k)
  }

  lemma {:induction false} BinomAbove(n: nat, k: nat)
    requires k > n
    ensures Binom(n, k) == 0
    decreases n
  {
    if n > 0 {
      BinomAbove(n - 1, k - 1);
      BinomAbove(n - 1, k);
    }
  }

  lemma {:induction false} BinomDiagonal(n: nat)
    ensures Binom(n, n) == 1
  {
    if n > 0 {
      BinomDiagonal(n - 1);
      BinomAbove(n - 1, n);
    }
  }

  lemma {:induction false} BinomOne(n: nat)
    ensures Binom(n, 1) == n
  {
    if n > 0 {
      BinomOne(n - 1);
    }
  }

  /** The absorption identity k * C(n, k) == n * C(n - 1, k - 1). */
  lemma {:induction false} BinomAbsorb(n: nat, k: nat)
    requires n >= 1 && k >= 1
    ensures k * Binom(n, k) == n * Binom(n - 1, k - 1)
    decreases n
  {
    if k == 1 {
      BinomOne(n);
    } else if n == 1 {
      BinomAbove(0, k - 1);
      BinomAbove(0, k);
    } else {
      BinomAbsorb(n - 1, k - 1);
      BinomAbsorb(n - 1, k);
      var a, b := Binom(n - 1, k - 1), Binom(n - 1, k);
      var c, e := Binom(n - 2, k - 2), Binom(n - 2, k - 1);
      assert Binom(n, k) == a + b;
      assert a == c + e;
      assert (k - 1) * a == (n - 1) * c;
      assert k * b == (n - 1) * e;
      Distrib(k, a, b);
      Distrib(n - 1, c, e);
      assert k * a == (k - 1) * a + a;
      assert n * a == (n - 1) * a + a;
    }
  }

  /** A prime p divides C(p, k) for 0 < k < p. */
  lemma PrimeDividesBinom(p: nat, k: nat)
    requires Prime(p) && 0 < k < p
    ensures Binom(p, k) % p == 0
  {
    BinomAbsorb(p, k);
    ModOfMultiple(p, Binom(p - 1, k - 1));
    EuclidLemma(p, k, Binom(p, k));
    ModSmall(k, p);
  }

  /** The first m terms of the binomial expansion of (a + 1)^n. */
  function BinomSum(n: nat, a: nat, m: nat): nat
    decreases m
  {
    if m == 0 then 0 else BinomSum(n, a, m - 1) + Binom(n, m - 1) * Pow(a, m - 1)
  }

  lemma {:induction false} BinomSumStep(n: nat, a: nat, m: nat)
    ensures BinomSum(n + 1, a, m + 1) == a * BinomSum(n, a, m) + BinomSum(n, a, m + 1)
    decreases m
  {
    if m > 0 {
      BinomSumStep(n, a, m - 1);
      var p := Pow(a, m - 1);
      var b1, b2 := Binom(n, m - 1), Binom(n, m);
      var s, t := BinomSum(n, a, m - 1), BinomSum(n, a, m);
      assert Pow(a, m) == a * p;
      assert Binom(n + 1, m) == b1 + b2;
      assert t == s + b1 * p;
      assert BinomSum(n, a, m + 1) == t + b2 * (a * p);
      assert BinomSum(n + 1, a, m + 1) == a * s + t + (b1 + b2) * (a * p);
      Distrib(a * p, b1, b2);
      Distrib(a, s, b1 * p);
      MulAssoc(a, b1, p);
      MulAssoc(b1, a, p);
    }
  }

  /** The binomial theorem for (a + 1)^n. */
  lemma {:induction false} BinomialTheorem(n: nat, a: nat)
    ensures Pow(a + 1, n) == BinomSum(n, a, n + 1)
  {
    if n > 0 {
      var x := BinomSum(n - 1, a, n);
      assert Pow(a + 1, n - 1) == x by {
        BinomialTheorem(n - 1, a);
      }
      assert Pow(a + 1, n) == (a + 1) * x;
      assert BinomSum(n - 1, a, n + 1) == x by {
        BinomAbove(n - 1, n);
        assert BinomSum(n - 1, a, n + 1) == x + Binom(n - 1, n) * Pow(a, n);
      }
      assert BinomSum(n, a, n + 1) == a * x + x by {
        BinomSumStep(n - 1, a, n);
      }
      Distrib(x, a, 1);
    }
  }

  /** Modulo p, the inner terms of the expansion of (a + 1)^p vanish. */
  lemma {:induction false} BinomSumModPrime(p: nat, a: nat, m: nat)
    requires Prime(p) && 1 <= m <= p
    ensures BinomSum(p, a, m) % p == 1
    decreases m
  {
    if m == 1 {
      ModSmall(1, p);
    } else {
      BinomSumModPrime(p, a, m - 1);
      PrimeDividesBinom(p, m - 1);
      DivisibleMul(Binom(p, m - 1), Pow(a, m - 1), p);
      ModAdd(BinomSum(p, a, m - 1), Binom(p, m - 1) * Pow(a, m - 1), p);
      ModSmall(1, p);
    }
  }

  /** Fermat's little theorem, first form: a^p == a modulo p. */
  lemma {:induction false} FermatPow(p: nat, a: nat)
    requires Prime(p)
    ensures Pow(a, p) % p == a % p
    decreases a
  {
    if a == 0 {
      assert Pow(0, p) == 0 * Pow(0, p - 1);
    } else {
      FermatPow(p, a - 1);
      BinomialTheorem(p, a - 1);
      BinomDiagonal(p);
      BinomSumModPrime(p, a - 1, p);
      assert Pow(a, p) == BinomSum(p, a - 1, p) + Pow(a - 1, p);
      ModAdd(BinomSum(p, a - 1, p), Pow(a - 1, p), p);
      ModAdd(1, a - 1, p);
      ModSmall(1, p);
    }
  }

  /** Fermat's little theorem: a^(p-1) == 1 modulo p when p does not divide a. */
  lemma FermatLittle(p: nat, a: nat)
    requires Prime(p) && a % p != 0
    ensures Pow(a, p - 1) % p == 1
  {
    var t := Pow(a, p - 1);
    assert (a * t) % p == a % p by {
      FermatPow(p, a);
      assert Pow(a, p) == a * t;
    }
    CancelModPrime(p, a, t);
  }

  /** Cancelling a factor prime to p: a * t == a modulo p gives t == 1 modulo p. */
  lemma CancelModPrime(p: nat, a: nat, t: nat)
    requires Prime(p) && a % p != 0 && (a * t) % p == a % p
    ensures t % p == 1
  {
    assert t >= 1;
    var u := t - 1;
    assert a * t - a == a * u by {
      Distrib(a, u, 1);
    }
    assert (a * u) % p == 0 by {
      ModSub(a * t, a, p);
    }
    EuclidLemma(p, a, u);
    ModAdd(u, 1, p);
    ModSmall(1, p);
  }

  /** Modulo a prime, the only square roots of one are 1 and -1. */
  lemma SqrtOfOne(p: nat, x: nat)
    requires Prime(p) && (x * x) % p == 1
    ensures x % p == 1 || x % p == p - 1
  {
    assert x >= 1;
    var lo, hi := x - 1, x + 1;
    assert lo * hi == x * x - 1 by {
      Distrib(lo, x, 1);
      Distrib(x, x, -1);
    }
    assert (lo * hi) % p == 0 by {
      ModSub(x * x, 1, p);
      ModSmall(1, p);
    }
    EuclidLemma(p, lo, hi);
    ModSmall(1, p);
    if lo % p == 0 {
      ModAdd(lo, 1, p);
    } else {
      ModSub(hi, 1, p);
      ModAddMultiple(-1, p, 1);
      ModSmall(p - 1, p);
    }
  }
}
