/** Divisibility, greatest common divisors, bit lengths and Fermat's little theorem. */
module NumberTheory {
  import opened Arith

  // ----- divisibility -----

  /** d divides n. */
  predicate Divides(d: nat, n: int)
  {
    if d == 0 then n == 0 else n % d == 0
  }

  lemma DividesIntro(d: nat, n: int, k: int)
    requires n == k * d
    ensures Divides(d, n)
  {
    if d > 0 { DivModUnique(n, d, k, 0); }
  }

  lemma DividesElim(d: nat, n: int) returns (k: int)
    requires Divides(d, n)
    ensures n == k * d
  {
    if d == 0 {
      k := 0;
    } else {
      DivModDef(n, d);
      k := n / d;
    }
  }

  /** A divisor of two numbers divides every combination of them. */
  lemma DividesLinear(d: nat, m: int, n: int, x: int, y: int)
    requires Divides(d, m) && Divides(d, n)
    ensures Divides(d, x * m + y * n)
  {
    hide Divides;
    var j := DividesElim(d, m);
    var k := DividesElim(d, n);
    MulAssoc(x, j, d);
    MulAssoc(y, k, d);
    MulDist(d, x * j, y * k);
    DividesIntro(d, x * m + y * n, x * j + y * k);
  }

  lemma DividesAdd(d: nat, m: int, n: int)
    requires Divides(d, m) && Divides(d, n)
    ensures Divides(d, m + n) && Divides(d, m - n)
  {
    hide Divides;
    DividesLinear(d, m, n, 1, 1);
    DividesLinear(d, m, n, 1, -1);
  }

  lemma DividesMul(d: nat, m: int, x: int)
    requires Divides(d, m)
    ensures Divides(d, x * m)
  {
    hide Divides;
    DividesLinear(d, m, m, x, 0);
  }

  lemma DividesSelf(d: nat)
    ensures Divides(d, d) && Divides(d, 0)
  {
    hide Divides;
    DividesIntro(d, d, 1);
    DividesIntro(d, 0, 0);
  }

  lemma DividesLe(d: nat, n: nat)
    requires Divides(d, n) && n > 0
    ensures 0 < d <= n
  {
    var k := DividesElim(d, n);
    if k <= 0 { MulLe(k, 0, d); }
    MulLe(1, k, d);
  }

  lemma DividesMutual(d: nat, e: nat)
    requires Divides(d, e) && Divides(e, d)
    ensures d == e
  {
    if d > 0 && e > 0 {
      DividesLe(d, e);
      DividesLe(e, d);
    }
  }

  // ----- greatest common divisor -----

  /** Euclid's algorithm, the reference for the binary algorithm of the library. */
  function Gcd(a: nat, b: nat): nat
    decreases b
  {
    if b == 0 then a else Gcd(b, a % b)
  }

  lemma {:induction false} GcdDivides(a: nat, b: nat)
    ensures Divides(Gcd(a, b), a) && Divides(Gcd(a, b), b)
    decreases b
  {
    hide Divides;
    if b == 0 {
      DividesSelf(a);
    } else {
      GcdDivides(b, a % b);
      DivModDef(a, b);
      DividesLinear(Gcd(a, b), b, a % b, a / b, 1);
    }
  }

  lemma {:induction false} GcdGreatest(d: nat, a: nat, b: nat)
    requires Divides(d, a) && Divides(d, b)
    ensures Divides(d, Gcd(a, b))
    decreases b
  {
    hide Divides;
    if b > 0 {
      DivModDef(a, b);
      DividesLinear(d, a, b, 1, -(a / b));
      assert 1 * a + -(a / b) * b == a % b;
      GcdGreatest(d, b, a % b);
    }
  }

  /** Pairs with the same common divisors have the same gcd. */
  lemma GcdSame(a: nat, b: nat, c: nat, d: nat)
    requires forall e: nat :: Divides(e, a) && Divides(e, b) <==> Divides(e, c) && Divides(e, d)
    ensures Gcd(a, b) == Gcd(c, d)
  {
    hide Divides, Gcd;
    GcdDivides(a, b);
    GcdDivides(c, d);
    GcdGreatest(Gcd(a, b), c, d);
    GcdGreatest(Gcd(c, d), a, b);
    DividesMutual(Gcd(a, b), Gcd(c, d));
  }

  lemma GcdSym(a: nat, b: nat)
    ensures Gcd(a, b) == Gcd(b, a)
  {
    hide Divides, Gcd;
    GcdSame(a, b, b, a);
  }

  lemma GcdSub(a: nat, b: nat)
    requires a <= b
    ensures Gcd(a, b) == Gcd(a, b - a)
  {
    hide Divides, Gcd;
    forall e: nat
      ensures Divides(e, a) && Divides(e, b) <==> Divides(e, a) && Divides(e, b - a)
    {
      if Divides(e, a) && Divides(e, b) { DividesAdd(e, b, a); }
      if Divides(e, a) && Divides(e, b - a) { DividesAdd(e, a, b - a); }
    }
    GcdSame(a, b, a, b - a);
  }

  lemma OddDivisor(d: nat, a: nat)
    requires a % 2 == 1 && Divides(d, a)
    ensures d % 2 == 1
  {
    var k := DividesElim(d, a);
    if d % 2 == 0 {
      assert d == 2 * (d / 2);
      MulAssoc(k, d / 2, 2);
      DivModUnique(a, 2, k * (d / 2), 0);
    }
  }

  lemma OddDividesHalf(d: nat, h: int)
    requires d % 2 == 1 && Divides(d, 2 * h)
    ensures Divides(d, h)
  {
    var k := DividesElim(d, 2 * h);
    if k % 2 == 1 {
      OddTimesOdd(k, d);
    } else {
      assert k == 2 * (k / 2);
      MulAssoc(2, k / 2, d);
      DividesIntro(d, h, k / 2);
    }
  }

  lemma OddTimesOdd(x: int, y: int)
    requires x % 2 == 1 && y % 2 == 1
    ensures (x * y) % 2 == 1
  {
    CongMul(x, 1, y, 1, 2);
  }

  /** Halving the even member of a pair whose other member is odd. */
  lemma GcdHalf(a: nat, h: nat)
    requires a % 2 == 1
    ensures Gcd(a, 2 * h) == Gcd(a, h)
  {
    hide Divides, Gcd;
    forall e: nat
      ensures Divides(e, a) && Divides(e, 2 * h) <==> Divides(e, a) && Divides(e, h)
    {
      if Divides(e, a) && Divides(e, 2 * h) { OddDivisor(e, a); OddDividesHalf(e, h); }
      if Divides(e, h) { DividesMul(e, h, 2); }
    }
    GcdSame(a, 2 * h, a, h);
  }

  lemma GcdOdd(a: nat, b: nat)
    requires b % 2 == 1
    ensures Gcd(a, b) % 2 == 1
  {
    GcdDivides(a, b);
    OddDivisor(Gcd(a, b), b);
  }

  /** Bezout coefficients. */
  lemma {:induction false} Bezout(a: nat, b: nat) returns (x: int, y: int)
    ensures x * a + y * b == Gcd(a, b)
    decreases b
  {
    if b == 0 {
      x, y := 1, 0;
    } else {
      var x', y' := Bezout(b, a % b);
      DivModDef(a, b);
      x, y := y', x' - y' * (a / b);
      BezoutStep(a, b, a / b, a % b, x', y');
    }
  }

  lemma BezoutStep(a: int, b: int, q: int, r: int, x: int, y: int)
    requires a == q * b + r
    ensures y * a + (x - y * q) * b == x * b + y * r
  {
    MulDist(y, q * b, r);
    MulDist(b, x, y * q);
    MulAssoc(y, q, b);
  }

  /** The gcd is determined by being a common divisor that is an integer combination. */
  lemma GcdIs(g: nat, a: nat, b: nat, x: int, y: int)
    requires Divides(g, a) && Divides(g, b) && x * a + y * b == g
    ensures Gcd(a, b) == g
  {
    hide Divides, Gcd;
    GcdDivides(a, b);
    GcdGreatest(g, a, b);
    DividesLinear(Gcd(a, b), a, b, x, y);
    DividesMutual(g, Gcd(a, b));
  }

  /** Euclid's lemma for coprime numbers. */
  lemma CoprimeDivides(d: nat, a: nat, b: int)
    requires Gcd(a, d) == 1 && Divides(d, a * b)
    ensures Divides(d, b)
  {
    hide Divides, Gcd;
    var x, y := Bezout(a, d);
    DividesIntro(d, (y * b) * d, y * b);
    DividesLinear(d, a * b, (y * b) * d, x, 1);
    calc {
      x * (a * b) + 1 * ((y * b) * d);
      { MulAssoc(x, a, b); assert (y * b) * d == (y * d) * b; }
      (x * a) * b + (y * d) * b;
      { MulDist(b, x * a, y * d); }
      (x * a + y * d) * b;
      b;
    }
  }

  /** A number is invertible modulo n exactly when it is coprime to n. */
  lemma InverseImpliesCoprime(a: nat, x: int, n: nat)
    requires n > 1 && Cong(a * x, 1, n)
    ensures Gcd(a, n) == 1
  {
    hide Divides, Gcd, Cong;
    var k := CongElim(a * x, 1, n);
    DividesIntro(1, a, a);
    DividesIntro(1, n, n);
    assert x * a + (-k) * n == 1;
    GcdIs(1, a, n, x, -k);
  }

  // ----- bit length -----

  function BitLen(x: nat): nat
  {
    if x == 0 then 0 else 1 + BitLen(x / 2)
  }

  lemma {:induction false} BitLenMono(x: nat, y: nat)
    requires x <= y
    ensures BitLen(x) <= BitLen(y)
  {
    if x > 0 { BitLenMono(x / 2, y / 2); }
  }

  lemma BitLenDouble(x: nat)
    requires x > 0
    ensures BitLen(2 * x) == BitLen(x) + 1
  {}

  lemma {:induction false} BitLenBound(x: nat, k: nat)
    ensures x < Pow(2, k) <==> BitLen(x) <= k
  {
    if x == 0 {
      PowPos(2, k);
    } else if k > 0 {
      BitLenBound(x / 2, k - 1);
    }
  }
}
