/** What it means for limbs to be the Montgomery form of a number. */
module MontForm {
  import opened Arith
  import opened NumberTheory
  import opened Limbs

  /** x is the Montgomery form of v modulo m, with R = 2^(biL * n), in canonical range. */
  ghost predicate Rep(x: nat, v: nat, n: nat, m: nat)
  {
    m > 0 && x < m && Cong(x, v * Scale(n), m)
  }

  lemma {:induction false} CoprimePow2(m: nat, e: nat)
    requires m % 2 == 1
    ensures Gcd(m, Pow(2, e)) == 1
  {
    hide Gcd;
    if e == 0 {
      DividesIntro(1, m, m);
      DividesIntro(1, 1, 1);
      GcdIs(1, m, 1, 0, 1);
    } else {
      CoprimePow2(m, e - 1);
      GcdHalf(m, Pow(2, e - 1));
    }
  }

  /** R can be cancelled modulo an odd number. */
  lemma CancelScale(x: int, y: int, n: nat, m: nat)
    requires m % 2 == 1 && Cong(x * Scale(n), y * Scale(n), m)
    ensures Cong(x, y, m)
  {
    hide Gcd, Cong, Divides, Scale;
    var s := Scale(n);
    ScaleIsPower(n);
    CoprimePow2(m, LIMB_BITS * n);
    GcdSym(s, m);
    var k := CongElim(x * s, y * s, m);
    MulDist(s, x, y);
    DividesIntro(m, s * (x - y), k);
    CoprimeDivides(m, s, x - y);
    var j := DividesElim(m, x - y);
    CongIntro(x, y, m, j);
  }

  /** A Montgomery product of Montgomery forms is the Montgomery form of the product. */
  lemma RepMul(x: nat, a: nat, b: nat, va: nat, vb: nat, n: nat, m: nat)
    requires m % 2 == 1 && Rep(a, va, n, m) && Rep(b, vb, n, m)
    requires x < m && Cong(x * Scale(n), a * b, m)
    ensures Rep(x, va * vb, n, m)
  {
    hide Cong, Scale;
    var s := Scale(n);
    CongMul(a, va * s, b, vb * s, m);
    ProductShuffle(va, vb, s);
    CongTrans(x * s, a * b, (va * s) * (vb * s), m);
    CancelScale(x, (va * vb) * s, n, m);
  }

  lemma ProductShuffle(x: int, y: int, s: int)
    ensures (x * s) * (y * s) == ((x * y) * s) * s
  {}

  /** Multiplying by R^2 mod N converts into Montgomery form. */
  lemma RepTo(x: nat, a: nat, rr: nat, n: nat, m: nat)
    requires m % 2 == 1 && Cong(rr, Scale(n) * Scale(n), m)
    requires x < m && Cong(x * Scale(n), a * rr, m)
    ensures Rep(x, a, n, m)
  {
    hide Cong, Scale;
    var s := Scale(n);
    CongRefl(a, m);
    CongMul(a, a, rr, s * s, m);
    MulAssoc(a, s, s);
    CongTrans(x * s, a * rr, (a * s) * s, m);
    CancelScale(x, a * s, n, m);
  }

  /** Multiplying by 1 converts back. */
  lemma RepFrom(x: nat, a: nat, v: nat, n: nat, m: nat)
    requires m % 2 == 1 && Rep(a, v, n, m) && x < m && Cong(x * Scale(n), a, m)
    ensures x == v % m
  {
    hide Cong, Scale;
    CongTrans(x * Scale(n), a, v * Scale(n), m);
    CancelScale(x, v, n, m);
    CongMod(v, m);
    CongTrans(x, v, v % m, m);
    CongUnique(x, v % m, m);
  }

  lemma RepLess(x: nat, v: nat, n: nat, m: nat)
    requires Rep(x, v, n, m)
    ensures x < m
  {}

  /** Each number has one Montgomery form. */
  lemma RepUnique(x: nat, y: nat, v: nat, n: nat, m: nat)
    requires Rep(x, v, n, m) && Rep(y, v, n, m)
    ensures x == y
  {
    CongUnique(x, y, m);
  }

  /** So two runs of limbs of the same length that hold forms of the same number are the same limbs. */
  lemma SameLimbs(s: seq<Limb>, t: seq<Limb>, v: nat, n: nat, m: nat)
    requires |s| == |t| && Rep(Val(s), v, n, m) && Rep(Val(t), v, n, m)
    ensures s == t
  {
    hide Rep, Val;
    RepUnique(Val(s), Val(t), v, n, m);
    ValInjective(s, t);
  }

  /** Canonical operands meet the size condition of Montmul. */
  lemma CanonicalFits(a: nat, b: nat, n: nat, m: nat)
    requires m < Scale(n) && ((a < m && b < m) || (a < Scale(n) && b < m))
    ensures a * b < Scale(n) * m
  {
    hide *;
    MulNonNeg(a, b);
    MulLe(b + 1, m, Scale(n));
    MulDist(Scale(n), b, 1);
    MulLe(a, Scale(n), b);
  }
}
