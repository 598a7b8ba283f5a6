/** The two Python built-ins the core computes with: three-argument `pow`
    and `math.gcd`. */
module PyOps {
  import opened Arith

  /** `pow(b, e, m)` for a modulus `m >= 1`: `b ** e` reduced modulo `m`,
      computed by repeated squaring. */
  function ModPow(b: nat, e: nat, m: nat): (r: nat)
    requires m >= 1
    ensures r < m
    ensures r == Pow(b, e) % m
    decreases e
  {
    if e == 0 then
      1 % m
    else if e % 2 == 0 then
      var h := ModPow(b, e / 2, m);
      SquareStep(b, e / 2, m, h);
      (h * h) % m
    else
      var h := ModPow(b, e - 1, m);
      MultiplyStep(b, e - 1, m, h);
      (b * h) % m
  }

  lemma SquareStep(b: nat, k: nat, m: nat, h: nat)
    requires m >= 1 && h == Pow(b, k) % m
    ensures (h * h) % m == Pow(b, 2 * k) % m
  {
    PowDouble(b, k);
    ModMul(Pow(b, k), Pow(b, k), m);
  }

  lemma MultiplyStep(b: nat, k: nat, m: nat, h: nat)
    requires m >= 1 && h == Pow(b, k) % m
    ensures (b * h) % m == Pow(b, k + 1) % m
  {
    assert Pow(b, k + 1) == b * Pow(b, k);
    ModMul(b, Pow(b, k), m);
    ModMul(b, h, m);
    ModMod(Pow(b, k), m);
  }

  function Abs(x: int): nat {
    if x < 0 then -x else x
  }

  /** `math.gcd(x, y)`, which works on the absolute values of its arguments. */
  function PyGcd(x: int, y: int): nat {
    Gcd(Abs(x), Abs(y))
  }

  /** The gcd divides both arguments, is zero only for two zeros, and every
      common divisor divides it. */
  lemma PyGcdIsGreatestCommonDivisor(x: int, y: int, c: int)
    ensures PyGcd(x, y) == 0 <==> x == 0 && y == 0
    ensures PyGcd(x, y) > 0 ==> x % PyGcd(x, y) == 0 && y % PyGcd(x, y) == 0
    ensures c > 0 && x % c == 0 && y % c == 0 ==> PyGcd(x, y) % c == 0
  {
    var g := PyGcd(x, y);
    GcdDivides(Abs(x), Abs(y));
    if g > 0 {
      AbsDivisible(x, g);
      AbsDivisible(y, g);
    }
    if c > 0 && x % c == 0 && y % c == 0 {
      AbsDivisible(x, c);
      AbsDivisible(y, c);
      GcdGreatest(Abs(x), Abs(y), c);
    }
  }

  lemma AbsDivisible(x: int, m: int)
    requires m > 0
    ensures x % m == 0 <==> Abs(x) % m == 0
  {
    if x < 0 {
      if x % m == 0 {
        DivisibleMul(x, -1, m);
      }
      if Abs(x) % m == 0 {
        DivisibleMul(Abs(x), -1, m);
      }
    }
  }
}
