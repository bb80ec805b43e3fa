/** Integer arithmetic used throughout: powers, congruences, and division facts
    stated so that callers name the terms involved. */
module Arith {

  function Pow(b: nat, e: nat): nat
  {
    if e == 0 then 1 else b * Pow(b, e - 1)
  }

  lemma {:induction false} PowAdd(b: nat, m: nat, n: nat)
    ensures Pow(b, m + n) == Pow(b, m) * Pow(b, n)
  {
    if m == 0 {
    } else {
      PowAdd(b, m - 1, n);
      assert Pow(b, m + n) == b * Pow(b, m - 1 + n);
      MulAssoc(b, Pow(b, m - 1), Pow(b, n));
    }
  }

  lemma {:induction false} PowMul(b: nat, m: nat, n: nat)
    ensures Pow(b, m * n) == Pow(Pow(b, m), n)
  {
    if n == 0 {
    } else {
      PowMul(b, m, n - 1);
      assert m * n == m + m * (n - 1);
      PowAdd(b, m, m * (n - 1));
    }
  }

  lemma {:induction false} PowPos(b: nat, e: nat)
    requires b > 0
    ensures Pow(b, e) > 0
  {
    if e > 0 {
      PowPos(b, e - 1);
      MulPos(b, Pow(b, e - 1));
    }
  }

  lemma {:induction false} PowMono(b: nat, m: nat, n: nat)
    requires b > 0 && m <= n
    ensures Pow(b, m) <= Pow(b, n)
  {
    PowAdd(b, m, n - m);
    PowPos(b, n - m);
    PowPos(b, m);
    MulLe(1, Pow(b, n - m), Pow(b, m));
  }

  lemma PowZero()
    ensures Pow(2, 0) == 1
  {}

  lemma PowOne()
    ensures Pow(2, 1) == 2
  {
    PowZero();
  }

  lemma PowNext(k: nat)
    ensures Pow(2, k + 1) == 2 * Pow(2, k)
  {}

  // ----- products -----

  lemma MulComm(x: int, y: int)
    ensures x * y == y * x
  {}

  lemma MulAssoc(x: int, y: int, z: int)
    ensures x * (y * z) == (x * y) * z
  {}

  lemma MulDist(x: int, y: int, z: int)
    ensures x * (y + z) == x * y + x * z
    ensures x * (y - z) == x * y - x * z
    ensures (y + z) * x == y * x + z * x
    ensures (y - z) * x == y * x - z * x
  {}

  lemma MulPos(x: int, y: int)
    requires x > 0 && y > 0
    ensures x * y > 0
  {}

  lemma MulNonNeg(x: int, y: int)
    requires x >= 0 && y >= 0
    ensures x * y >= 0
  {}

  lemma MulLe(x: int, y: int, z: int)
    requires x <= y && z >= 0
    ensures x * z <= y * z
    ensures z * x <= z * y
  {}

  lemma MulLt(x: int, y: int, z: int)
    requires x < y && z > 0
    ensures x * z < y * z
    ensures z * x < z * y
  {}

  lemma MulCancelLt(x: int, y: int, z: int)
    requires x * z < y * z && z > 0
    ensures x < y
  {
    if x >= y { MulLe(y, x, z); }
  }

  // ----- Euclidean division -----

  /** Quotient and remainder are unique. */
  lemma DivModUnique(x: int, m: int, q: int, r: int)
    requires m > 0 && 0 <= r < m && x == q * m + r
    ensures x / m == q && x % m == r
  {
    var q1, r1 := x / m, x % m;
    assert x == q1 * m + r1;
    assert (q - q1) * m == r1 - r;
    if q > q1 { MulLe(1, q - q1, m); }
    if q < q1 { MulLe(q - q1, -1, m); }
  }

  lemma DivModDef(x: int, m: int)
    requires m > 0
    ensures x == (x / m) * m + x % m && 0 <= x % m < m
  {}

  lemma SmallMod(x: int, m: int)
    requires 0 <= x < m
    ensures x % m == x && x / m == 0
  {
    DivModUnique(x, m, 0, x);
  }

  lemma DivDiv(x: nat, m: nat, n: nat)
    requires m > 0 && n > 0
    ensures m * n > 0 && (x / m) / n == x / (m * n)
  {
    var q, r := x / m, x % m;
    DivModDef(x, m);
    DivModDef(q, n);
    var q2, r2 := q / n, q % n;
    MulPos(m, n);
    calc {
      x;
      q * m + r;
      (q2 * n + r2) * m + r;
      { MulDist(m, q2 * n, r2); MulAssoc(q2, n, m); }
      q2 * (m * n) + (r2 * m + r);
    }
    MulLe(r2 + 1, n, m);
    MulDist(m, r2, 1);
    MulNonNeg(r2, m);
    DivModUnique(x, m * n, q2, r2 * m + r);
  }

  // ----- congruence -----

  predicate Cong(a: int, b: int, m: int)
    requires m > 0
  {
    a % m == b % m
  }

  lemma CongIntro(a: int, b: int, m: int, k: int)
    requires m > 0 && a == b + k * m
    ensures Cong(a, b, m)
  {
    DivModDef(b, m);
    assert a == (b / m + k) * m + b % m;
    DivModUnique(a, m, b / m + k, b % m);
  }

  lemma CongElim(a: int, b: int, m: int) returns (k: int)
    requires m > 0 && Cong(a, b, m)
    ensures a == b + k * m
  {
    DivModDef(a, m);
    DivModDef(b, m);
    k := a / m - b / m;
    assert k * m == (a / m) * m - (b / m) * m;
  }

  lemma CongAdd(a: int, b: int, c: int, d: int, m: int)
    requires m > 0 && Cong(a, b, m) && Cong(c, d, m)
    ensures Cong(a + c, b + d, m)
  {
    var k := CongElim(a, b, m);
    var l := CongElim(c, d, m);
    assert (k + l) * m == k * m + l * m;
    CongIntro(a + c, b + d, m, k + l);
  }

  lemma CongSub(a: int, b: int, c: int, d: int, m: int)
    requires m > 0 && Cong(a, b, m) && Cong(c, d, m)
    ensures Cong(a - c, b - d, m)
  {
    var k := CongElim(a, b, m);
    var l := CongElim(c, d, m);
    assert (k - l) * m == k * m - l * m;
    CongIntro(a - c, b - d, m, k - l);
  }

  lemma CongMul(a: int, b: int, c: int, d: int, m: int)
    requires m > 0 && Cong(a, b, m) && Cong(c, d, m)
    ensures Cong(a * c, b * d, m)
  {
    var k := CongElim(a, b, m);
    var l := CongElim(c, d, m);
    calc {
      a * c;
      (b + k * m) * (d + l * m);
      b * d + b * (l * m) + (k * m) * d + (k * m) * (l * m);
      { MulAssoc(b, l, m); assert (k * m) * d == (k * d) * m; MulAssoc(k * m, l, m); }
      b * d + (b * l) * m + (k * d) * m + (k * m * l) * m;
      b * d + (b * l + k * d + k * m * l) * m;
    }
    CongIntro(a * c, b * d, m, b * l + k * d + k * m * l);
  }

  lemma CongMod(a: int, m: int)
    requires m > 0
    ensures Cong(a % m, a, m) && Cong(a, a % m, m)
  {
    DivModDef(a, m);
    CongIntro(a, a % m, m, a / m);
  }

  lemma {:induction false} CongPow(a: nat, b: nat, e: nat, m: int)
    requires m > 0 && Cong(a, b, m)
    ensures Cong(Pow(a, e), Pow(b, e), m)
  {
    if e > 0 {
      CongPow(a, b, e - 1, m);
      CongMul(a, b, Pow(a, e - 1), Pow(b, e - 1), m);
    }
  }

  lemma CongRefl(x: int, m: int)
    requires m > 0
    ensures Cong(x, x, m)
  {}

  lemma CongTrans(x: int, y: int, z: int, m: int)
    requires m > 0 && Cong(x, y, m) && Cong(y, z, m)
    ensures Cong(x, z, m)
  {}

  /** Two residues in range that are congruent are equal. */
  lemma CongUnique(a: int, b: int, m: int)
    requires m > 0 && 0 <= a < m && 0 <= b < m && Cong(a, b, m)
    ensures a == b
  {
    SmallMod(a, m);
    SmallMod(b, m);
  }
}
