/**
 Quotients, remainders and greatest common divisors: what the offset arithmetic of
 the fill and load engines rests on.
 */
module NumberTheory {

  /** Quotient and remainder are determined by the division equation. */
  lemma DivModUnique(x: int, m: int, q: int, r: int)
    requires 0 < m && 0 <= r < m && x == q * m + r
    ensures x / m == q && x % m == r
  {
    var d := x / m - q;
    assert r - x % m == d * m by {
      assert x == (x / m) * m + x % m;
      assert d * m == (x / m) * m - q * m;
    }
    if d >= 1 {
      MulMono(1, d, m);
    } else if d <= -1 {
      MulMono(d, -1, m);
    }
  }

  lemma MulMono(a: int, b: int, m: int)
    requires a <= b && 0 <= m
    ensures a * m <= b * m
  {
  }

  lemma MulAssoc(a: int, b: int, c: int)
    ensures a * (b * c) == (a * b) * c
  {
  }

  /** A sum is reduced the same way whether or not its first term was reduced before. */
  lemma ModAdd(a: int, b: int, m: int)
    requires 0 < m
    ensures (a % m + b) % m == (a + b) % m
  {
    var y := a % m + b;
    assert a == (a / m) * m + a % m;
    assert y == (y / m) * m + y % m;
    assert (a / m + y / m) * m == (a / m) * m + (y / m) * m;
    DivModUnique(a + b, m, a / m + y / m, y % m);
  }

  predicate Divides(d: int, x: int)
    requires d > 0
  {
    x % d == 0
  }

  /** A multiple is divisible by its factor. */
  lemma Multiple(d: int, q: int)
    requires d > 0
    ensures Divides(d, q * d) && (q * d) / d == q
  {
  }

  /** Two numbers have the same remainder exactly when the modulus divides their difference. */
  lemma ModEqual(a: int, b: int, m: int)
    requires m > 0
    ensures a % m == b % m <==> Divides(m, a - b)
  {
    ModAdd(a, -b, m);
    ModAdd(b, -b, m);
    if Divides(m, a - b) {
      ModAdd(a - b, b, m);
    }
  }

  /** Euclid's algorithm. */
  function Gcd(a: nat, b: nat): nat
    decreases b
  {
    if b == 0 then a else Gcd(b, a % b)
  }

  /** The coefficients of the extended algorithm. */
  function Bezout(a: nat, b: nat): (int, int)
    decreases b
  {
    if b == 0 then (1, 0)
    else
      var (x, y) := Bezout(b, a % b);
      (y, x - (a / b) * y)
  }

  lemma BezoutStep(a: int, b: int, k: int, r: int, x: int, y: int)
    requires a == k * b + r
    ensures a * y + b * (x - k * y) == b * x + r * y
  {
    assert b * (k * y) == (k * b) * y;
  }

  lemma {:induction false} BezoutIdentity(a: nat, b: nat)
    ensures a * Bezout(a, b).0 + b * Bezout(a, b).1 == Gcd(a, b)
    decreases b
  {
    if b != 0 {
      BezoutIdentity(b, a % b);
      BezoutStep(a, b, a / b, a % b, Bezout(b, a % b).0, Bezout(b, a % b).1);
    }
  }

  /** What divides two numbers divides their linear combinations. */
  lemma DividesSum(d: int, k: int, a: int, b: int)
    requires d > 0 && Divides(d, a) && Divides(d, b)
    ensures Divides(d, k * a + b)
  {
    SumWitness(d, k, a / d, b / d);
    assert a == (a / d) * d && b == (b / d) * d;
  }

  lemma SumWitness(d: int, k: int, u: int, v: int)
    requires d > 0
    ensures Divides(d, k * (u * d) + v * d)
  {
    Multiple(d, k * u + v);
    hide Divides;
    MulAssoc(k, u, d);
    assert (k * u + v) * d == (k * u) * d + v * d;
  }

  lemma {:induction false} GcdDivides(a: nat, b: nat)
    requires a > 0 || b > 0
    ensures Gcd(a, b) > 0 && Divides(Gcd(a, b), a) && Divides(Gcd(a, b), b)
    decreases b
  {
    if b == 0 {
      Multiple(a, 1);
    } else {
      GcdDivides(b, a % b);
      DividesSum(Gcd(b, a % b), a / b, b, a % b);
      assert a == (a / b) * b + a % b;
    }
  }

  lemma StepForward(a: int, n: int, g: int, v: int, x: int, y: int, d: int, k: int)
    requires g > 0 && n == v * g && a * x + n * y == g && a * d == k * n
    ensures d == (k * x + y * d) * v
  {
  }

  lemma StepBack(a: int, n: int, g: int, u: int, v: int, d: int, k: int)
    requires a == u * g && n == v * g && d == k * v
    ensures a * d == (u * k) * n
  {
  }

  lemma PositiveFactor(n: int, v: int, g: int)
    requires n > 0 && g > 0 && n == v * g
    ensures v > 0
  {
  }

  /** The lemma below with the quotients by the greatest common divisor named. */
  lemma StepPeriodBy(a: nat, n: nat, d: int, u: int, v: int)
    requires n > 0 && Gcd(a, n) > 0 && a == u * Gcd(a, n) && n == v * Gcd(a, n) && v > 0
    ensures Divides(n, a * d) <==> Divides(v, d)
  {
    var g := Gcd(a, n);
    if Divides(n, a * d) {
      BezoutIdentity(a, n);
      var (x, y) := Bezout(a, n);
      var k := (a * d) / n;
      StepForward(a, n, g, v, x, y, d, k);
      Multiple(v, k * x + y * d);
    }
    if Divides(v, d) {
      var k := d / v;
      StepBack(a, n, g, u, v, d, k);
      Multiple(n, u * k);
    }
  }

  lemma Exactly(d: int, x: int)
    requires d > 0 && Divides(d, x)
    ensures x == (x / d) * d
  {
  }

  lemma GcdQuotients(a: nat, n: nat)
    requires n > 0
    ensures Gcd(a, n) > 0 && n / Gcd(a, n) > 0
    ensures a == (a / Gcd(a, n)) * Gcd(a, n) && n == (n / Gcd(a, n)) * Gcd(a, n)
  {
    GcdDivides(a, n);
    hide Gcd, Divides;
    Exactly(Gcd(a, n), a);
    Exactly(Gcd(a, n), n);
    PositiveFactor(n, n / Gcd(a, n), Gcd(a, n));
  }

  /** Stepping by `a` around a circle of `n` places returns after exactly `n / Gcd(a, n)` steps. */
  lemma StepPeriod(a: nat, n: nat, d: int)
    requires n > 0
    ensures Gcd(a, n) > 0 && n / Gcd(a, n) > 0
    ensures Divides(n, a * d) <==> Divides(n / Gcd(a, n), d)
  {
    GcdQuotients(a, n);
    hide Gcd, Divides;
    StepPeriodBy(a, n, d, a / Gcd(a, n), n / Gcd(a, n));
  }}
