/** Fermat's little theorem, by the binomial theorem. */
module Fermat {
  import opened Arith
  import opened NumberTheory

  ghost predicate Prime(p: nat)
  {
    p > 1 && forall d: nat :: Divides(d, p) ==> d == 1 || d == p
  }

  function Binom(n: nat, k: nat): nat
  {
    if k == 0 then 1 else if n == 0 then 0 else Binom(n - 1, k - 1) + Binom(n - 1, k)
  }

  lemma {:induction false} BinomAbsorb(n: nat, k: nat)
    requires n > 0 && k > 0
    ensures k * Binom(n, k) == n * Binom(n - 1, k - 1)
  {
    if n == 1 {
      if k > 1 { assert Binom(1, k) == Binom(0, k - 1) + Binom(0, k); }
      else { assert Binom(1, 1) == Binom(0, 0) + Binom(0, 1); }
    } else {
      var a, b := Binom(n - 1, k - 1), Binom(n - 1, k);
      BinomAbsorb(n - 1, k);
      if k > 1 {
        BinomAbsorb(n - 1, k - 1);
        MulDist(n - 1, Binom(n - 2, k - 2), Binom(n - 2, k - 1));
        assert a == Binom(n - 2, k - 2) + Binom(n - 2, k - 1);
        MulDist(a, k, 1);
      }
      MulDist(k, a, b);
      MulDist(a, n, 1);
    }
  }

  lemma {:induction false} BinomAbove(n: nat, k: nat)
    requires k > n
    ensures Binom(n, k) == 0
  {
    if n > 0 {
      BinomAbove(n - 1, k - 1);
      BinomAbove(n - 1, k);
    }
  }

  lemma {:induction false} BinomDiagonal(n: nat)
    ensures Binom(n, n) == 1
  {
    if n > 0 {
      BinomDiagonal(n - 1);
      BinomAbove(n - 1, n);
    }
  }

  /** The sum of C(n, k) * x^k for k < m. */
  function Expand(n: nat, m: nat, x: nat): nat
  {
    if m == 0 then 0 else Expand(n, m - 1, x) + Binom(n, m - 1) * Pow(x, m - 1)
  }

  lemma {:induction false} ExpandNext(n: nat, m: nat, x: nat)
    ensures Expand(n + 1, m + 1, x) == x * Expand(n, m, x) + Expand(n, m + 1, x)
  {
    if m == 0 {
      assert Expand(n + 1, 1, x) == Expand(n + 1, 0, x) + Binom(n + 1, 0) * Pow(x, 0);
      assert Expand(n, 1, x) == Expand(n, 0, x) + Binom(n, 0) * Pow(x, 0);
    } else {
      ExpandNext(n, m - 1, x);
      var c, d, q := Binom(n, m - 1), Binom(n, m), Pow(x, m - 1);
      assert Expand(n + 1, m + 1, x) == Expand(n + 1, m, x) + Binom(n + 1, m) * Pow(x, m);
      assert Expand(n, m + 1, x) == Expand(n, m, x) + d * Pow(x, m);
      assert Expand(n, m, x) == Expand(n, m - 1, x) + c * q;
      ExpandArith(x, c, d, q, Expand(n, m - 1, x));
    }
  }

  lemma ExpandArith(x: int, c: int, d: int, q: int, e: int)
    ensures x * (e + c * q) + d * (x * q) == x * e + (c + d) * (x * q)
  {
    MulDist(x, e, c * q);
    MulDist(x * q, c, d);
    assert x * (c * q) == c * (x * q);
  }

  lemma {:induction false} Binomial(n: nat, x: nat)
    ensures Pow(x + 1, n) == Expand(n, n + 1, x)
  {
    if n == 0 {
      assert Expand(0, 1, x) == Expand(0, 0, x) + Binom(0, 0) * Pow(x, 0);
    } else {
      Binomial(n - 1, x);
      ExpandNext(n - 1, n, x);
      BinomAbove(n - 1, n);
      assert Expand(n - 1, n + 1, x) == Expand(n - 1, n, x) + Binom(n - 1, n) * Pow(x, n);
      MulDist(Expand(n - 1, n, x), x, 1);
    }
  }

  lemma PrimeCoprime(p: nat, k: nat)
    requires Prime(p) && !Divides(p, k)
    ensures Gcd(k, p) == 1
  {
    hide Divides, Gcd;
    GcdDivides(k, p);
  }

  lemma SmallNotDivisible(p: nat, k: nat)
    requires 0 < k < p
    ensures !Divides(p, k)
  {
    SmallMod(k, p);
  }

  /** A prime divides its middle binomial coefficients. */
  lemma MiddleBinom(p: nat, k: nat)
    requires Prime(p) && 0 < k < p
    ensures Divides(p, Binom(p, k))
  {
    hide Divides, Gcd, Binom;
    BinomAbsorb(p, k);
    SmallNotDivisible(p, k);
    PrimeCoprime(p, k);
    DividesIntro(p, k * Binom(p, k), Binom(p - 1, k - 1));
    CoprimeDivides(p, k, Binom(p, k));
  }

  lemma {:induction false} MiddleTerms(p: nat, m: nat, x: nat)
    requires Prime(p) && 1 <= m <= p
    ensures Cong(Expand(p, m, x), 1, p)
  {
    hide Divides, Cong, Binom, Prime;
    if m == 1 {
      FirstTerm(p, x);
      CongRefl(1, p);
    } else {
      MiddleTerms(p, m - 1, x);
      MiddleBinom(p, m - 1);
      var k := DividesElim(p, Binom(p, m - 1));
      TermShuffle(k, p, Pow(x, m - 1));
      CongIntro(Binom(p, m - 1) * Pow(x, m - 1), 0, p, k * Pow(x, m - 1));
      CongAdd(Expand(p, m - 1, x), 1, Binom(p, m - 1) * Pow(x, m - 1), 0, p);
    }
  }

  lemma TermShuffle(k: int, p: int, q: int)
    ensures (k * p) * q == (k * q) * p
  {}

  lemma FirstTerm(p: nat, x: nat)
    ensures Expand(p, 1, x) == 1
  {
    assert Expand(p, 1, x) == Expand(p, 0, x) + Binom(p, 0) * Pow(x, 0);
  }

  lemma {:induction false} FermatPower(p: nat, x: nat)
    requires Prime(p)
    ensures Cong(Pow(x, p), x, p)
  {
    hide Divides, Cong, Binom, Prime;
    PrimeAtLeastTwo(p);
    if x == 0 {
      ZeroPower(p);
      CongRefl(0, p);
    } else {
      var y := x - 1;
      FermatPower(p, y);
      Binomial(p, y);
      MiddleTerms(p, p, y);
      BinomDiagonal(p);
      LastTerm(p, y);
      CongAdd(Expand(p, p, y), 1, Pow(y, p), y, p);
    }
  }

  lemma PrimeAtLeastTwo(p: nat)
    requires Prime(p)
    ensures p >= 2
  {}

  lemma ZeroPower(p: nat)
    requires p > 0
    ensures Pow(0, p) == 0
  {}

  lemma LastTerm(p: nat, y: nat)
    requires Binom(p, p) == 1
    ensures Expand(p, p + 1, y) == Expand(p, p, y) + Pow(y, p)
  {}

  /** a^(p-1) = 1 modulo a prime p that does not divide a. */
  lemma FermatLittle(p: nat, a: nat)
    requires Prime(p) && !Divides(p, a)
    ensures Cong(a * Pow(a, p - 2), 1, p)
  {
    hide Divides, Cong, Gcd;
    FermatPower(p, a);
    PrimeCoprime(p, a);
    var t := a * Pow(a, p - 2);
    assert Pow(a, p) == a * t by { TwoSteps(a, p); }
    var k := CongElim(a * t, a, p);
    MulDist(a, t, 1);
    DividesIntro(p, a * (t - 1), k);
    CoprimeDivides(p, a, t - 1);
    var j := DividesElim(p, t - 1);
    CongIntro(t, 1, p, j);
  }

  lemma TwoSteps(a: nat, p: nat)
    requires p >= 2
    ensures Pow(a, p) == a * (a * Pow(a, p - 2))
  {
    assert Pow(a, p) == a * Pow(a, p - 1);
  }
}
