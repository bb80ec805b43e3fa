/** One-limb machine arithmetic: the wrapping operations of mbedtls_mpi_uint. */
module Words {
  import opened Arith
  import opened Limbs

  function Bit(b: bool): (c: Limb)
  {
    if b then 1 else 0
  }

  /** x + y modulo 2^biL. */
  function WAdd(x: Limb, y: Limb): Limb
  {
    if x + y < BASE then x + y else x + y - BASE
  }

  /** x - y modulo 2^biL. */
  function WSub(x: Limb, y: Limb): Limb
  {
    if x >= y then x - y else x - y + BASE
  }

  /** x * y modulo 2^biL. */
  function WMul(x: Limb, y: Limb): Limb
  {
    (x * y) % BASE
  }

  /** x << k. */
  function Shl(x: Limb, k: nat): Limb
  {
    (x * Pow(2, k)) % BASE
  }

  /** x >> k. */
  function Shr(x: Limb, k: nat): (r: Limb)
  {
    PowPos(2, k);
    ShrBound(x, Pow(2, k));
    x / Pow(2, k)
  }

  /** x | y. */
  function BitOr(x: nat, y: nat): nat
    decreases x + y
  {
    if x == 0 && y == 0 then 0
    else (if x % 2 == 1 || y % 2 == 1 then 1 else 0) + 2 * BitOr(x / 2, y / 2)
  }

  lemma ShrBound(x: nat, m: nat)
    requires m > 0
    ensures 0 <= x / m <= x
  {
    DivModDef(x, m);
    if x / m < 0 { MulLe(x / m, -1, m); }
    if x / m > 0 { MulLe(1, m, x / m); }
  }

  lemma {:induction false} OrZero(y: nat)
    ensures BitOr(0, y) == y
  {
    if y > 0 { OrZero(y / 2); }
  }

  /** Combining bit fields that do not overlap is addition. */
  lemma {:induction false} OrDisjoint(hi: nat, lo: nat, k: nat)
    requires lo < Pow(2, k)
    ensures BitOr(hi * Pow(2, k), lo) == hi * Pow(2, k) + lo
  {
    if k == 0 {
      OrSwap(hi, 0);
      OrZero(hi);
    } else {
      var p := Pow(2, k - 1);
      assert hi * Pow(2, k) == 2 * (hi * p) by { MulAssoc(hi, 2, p); }
      MulNonNeg(hi, p);
      OrDisjoint(hi, lo / 2, k - 1);
      OrHalves(hi * p, lo);
    }
  }

  lemma OrHalves(x: nat, y: nat)
    ensures BitOr(2 * x, y) == y % 2 + 2 * BitOr(x, y / 2)
  {
    assert (2 * x) / 2 == x;
  }

  lemma {:induction false} OrSwap(x: nat, y: nat)
    ensures BitOr(x, y) == BitOr(y, x)
    decreases x + y
  {
    if x != 0 || y != 0 { OrSwap(x / 2, y / 2); }
  }

  /** The carry out of two chained wrapping additions, as the code detects it. */
  lemma AddCarry(c: Limb, a: Limb, b: Limb)
    requires c <= 1
    ensures var t := WAdd(c, a);
            var u := WAdd(t, b);
            var c' := Bit(t < a) + Bit(u < b);
            c' <= 1 && u + c' * BASE == a + b + c
  {}

  /** The borrow out of two chained wrapping subtractions, as the code detects it. */
  lemma SubBorrow(c: Limb, a: Limb, b: Limb)
    requires c <= 1
    ensures var t := WSub(a, c);
            var u := WSub(t, b);
            var c' := Bit(t < b) + Bit(a < c);
            c' <= 1 && u - c' * BASE == a - b - c
  {}

  lemma WAddCarry(x: Limb, y: Limb)
    ensures WAdd(x, y) + Bit(WAdd(x, y) < y) * BASE == x + y
    ensures WAdd(x, y) + Bit(WAdd(x, y) < x) * BASE == x + y
  {}

  lemma WSubBorrow(x: Limb, y: Limb)
    ensures WSub(x, y) - Bit(WSub(x, y) > x) * BASE == x - y
  {}

  lemma WMulExact(x: Limb, y: Limb)
    requires x * y < BASE
    ensures WMul(x, y) == x * y
  {
    SmallMod(x * y, BASE);
  }

  /** A left shift keeps the low biL - k bits and moves them up. */
  lemma ShlSplit(x: Limb, k: nat)
    requires k <= LIMB_BITS
    ensures var p, q := Pow(2, k), Pow(2, LIMB_BITS - k);
            p > 0 && q > 0 && p * q == BASE && Shl(x, k) == (x % q) * p
  {
    hide BitOr, WAdd, WSub, WMul, Shr;
    var p, q := Pow(2, k), Pow(2, LIMB_BITS - k);
    PowPos(2, k);
    PowPos(2, LIMB_BITS - k);
    PowAdd(2, k, LIMB_BITS - k);
    RadixIsPower();
    assert p * q == BASE;
    ShlArith(x, p, q);
  }

  lemma ShlArith(x: nat, p: nat, q: nat)
    requires p > 0 && q > 0 && p * q == BASE
    ensures (x * p) % BASE == (x % q) * p
  {
    DivModDef(x, q);
    var r := x % q;
    calc {
      x * p;
      ((x / q) * q + r) * p;
      ((x / q) * q) * p + r * p;
      { MulAssoc(x / q, q, p); }
      (x / q) * BASE + r * p;
    }
    MulLe(r + 1, q, p);
    MulNonNeg(r, p);
    DivModUnique(x * p, BASE, x / q, r * p);
  }
}
