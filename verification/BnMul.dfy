/** The multiply-add step of bn_mul.h, portable C bodies only:
    c, *d := s * b + c + *d as a two-limb number. */
module BnMul {
  import opened Arith
  import opened Limbs
  import opened Words

  /** Whether the platform has a double-width integer; both settings are covered. */
  const HAVE_UDBL: bool

  /** The number with high limb hi and low part lo. */
  function Two(hi: int, lo: int): int
  {
    hi * BASE + lo
  }

  /** The double-width body. */
  method MulAddDouble(s: Limb, b: Limb, c: Limb, d: Limb) returns (lo: Limb, hi: Limb)
    ensures Two(hi, lo) == s * b + c + d
  {
    hide WAdd, WMul, Shl, Shr, Pow, Two;
    TwoLimbs(s, b, c, d);
    var r := s * b;
    DivModDef(r, BASE);
    TwoDef(r / BASE, r % BASE);
    TwoHigh(r / BASE, r % BASE);
    var r0: Limb := r % BASE;
    var r1: Limb := r / BASE;
    TwoAdd(r1, r0, c);
    r0 := WAdd(r0, c);
    r1 := AddSmall(r1, Bit(r0 < c));
    TwoAdd(r1, r0, d);
    r0 := WAdd(r0, d);
    r1 := AddSmall(r1, Bit(r0 < d));
    lo, hi := r0, r1;
  }

  /** The half-limb body: four half-width products, recombined with carries. */
  method MulAddHalf(s: Limb, b: Limb, c: Limb, d: Limb) returns (lo: Limb, hi: Limb)
    ensures Two(hi, lo) == s * b + c + d
  {
    hide WAdd, WMul, Shl, Shr, Pow, Two;
    TwoLimbs(s, b, c, d);
    Halves(b);
    Halves(s);
    var b0 := Shr(Shl(b, HALF_BITS), HALF_BITS);
    var b1 := Shr(b, HALF_BITS);
    var s0 := Shr(Shl(s, HALF_BITS), HALF_BITS);
    var s1 := Shr(s, HALF_BITS);
    HalfProduct(s0, b1); HalfProduct(s0, b0); HalfProduct(s1, b0); HalfProduct(s1, b1);
    var rx, r0 := WMul(s0, b1), WMul(s0, b0);
    var ry, r1 := WMul(s1, b0), WMul(s1, b1);
    Recombine(s, b, s0, s1, b0, b1, rx, ry, r0, r1);
    Halves(rx);
    Halves(ry);
    TwoHigh(r1 + rx / HALF + ry / HALF, r0);
    r1 := AddSmall(r1, Shr(rx, HALF_BITS));
    r1 := AddSmall(r1, Shr(ry, HALF_BITS));
    rx, ry := Shl(rx, HALF_BITS), Shl(ry, HALF_BITS);
    r0, r1 := AddTo(r0, r1, rx);
    r0, r1 := AddTo(r0, r1, ry);
    r0, r1 := AddTo(r0, r1, c);
    r0, r1 := AddTo(r0, r1, d);
    lo, hi := r0, r1;
  }

  /** r0 += x; r1 += (r0 < x). */
  method AddTo(r0: Limb, r1: Limb, x: Limb) returns (lo: Limb, hi: Limb)
    requires Two(r1, r0) + x < Two(BASE, 0)
    ensures Two(hi, lo) == Two(r1, r0) + x
  {
    hide WAdd, Two;
    TwoAdd(r1, r0, x);
    lo := WAdd(r0, x);
    hi := AddSmall(r1, Bit(lo < x));
  }

  /** An addition that the caller has shown not to wrap. */
  function AddSmall(x: Limb, y: Limb): (r: Limb)
    requires x + y < BASE
    ensures r == x + y
  {
    WAdd(x, y)
  }

  method MulAdd(s: Limb, b: Limb, c: Limb, d: Limb) returns (lo: Limb, hi: Limb)
    ensures hi * BASE + lo == s * b + c + d
  {
    if HAVE_UDBL {
      lo, hi := MulAddDouble(s, b, c, d);
    } else {
      lo, hi := MulAddHalf(s, b, c, d);
    }
  }

  lemma TwoDef(hi: int, lo: int)
    ensures Two(hi, lo) == hi * BASE + lo
  {}

  lemma TwoHigh(hi: int, lo: int)
    requires lo >= 0 && Two(hi, lo) < Two(BASE, 0)
    ensures hi < BASE
  {
    if hi >= BASE { MulLe(BASE, hi, BASE); }
  }

  /** Adding x to the low limb and the detected carry to the high limb. */
  lemma TwoAdd(hi: Limb, lo: Limb, x: Limb)
    ensures Two(hi, lo) + x == Two(hi + Bit(WAdd(lo, x) < x), WAdd(lo, x))
    ensures Two(hi, lo) + x < Two(BASE, 0) ==> hi + Bit(WAdd(lo, x) < x) < BASE
  {
    hide WAdd;
    WAddCarry(lo, x);
    MulDist(BASE, hi, Bit(WAdd(lo, x) < x));
    if Two(hi, lo) + x < Two(BASE, 0) { TwoHigh(hi + Bit(WAdd(lo, x) < x), WAdd(lo, x)); }
  }

  /** The result always fits in two limbs, which is why the code may ignore overflow of r1. */
  lemma TwoLimbs(s: Limb, b: Limb, c: Limb, d: Limb)
    ensures 0 <= s * b && s * b + c + d < Two(BASE, 0)
  {
    MulNonNeg(s, b);
    MulLe(s, BASE - 1, b);
    MulLe(b, BASE - 1, BASE - 1);
    MulDist(BASE - 1, BASE, 1);
    MulDist(BASE, BASE, 1);
  }

  lemma Halves(x: Limb)
    ensures Shr(Shl(x, HALF_BITS), HALF_BITS) == x % HALF && Shr(x, HALF_BITS) == x / HALF
    ensures Shl(x, HALF_BITS) == (x % HALF) * HALF
    ensures x == (x / HALF) * HALF + x % HALF
    ensures 0 <= x % HALF < HALF && 0 <= x / HALF < HALF
  {
    hide Pow;
    RadixIsPower();
    HalfSquared();
    ShlSplit(x, HALF_BITS);
    assert HALF_BITS == LIMB_BITS - HALF_BITS;
    DivModDef(x, HALF);
    DivModUnique(Shl(x, HALF_BITS), HALF, x % HALF, 0);
  }

  lemma HalfProduct(x: Limb, y: Limb)
    requires x < HALF && y < HALF
    ensures WMul(x, y) == x * y
  {
    hide *;
    HalfSquared();
    MulNonNeg(x, y);
    MulLe(x, HALF - 1, y);
    MulLe(y, HALF - 1, HALF - 1);
    MulDist(HALF - 1, HALF, 1);
    MulDist(HALF, HALF, 1);
    WMulExact(x, y);
  }

  lemma Recombine(s: int, b: int, s0: int, s1: int, b0: int, b1: int, rx: int, ry: int, r0: int, r1: int)
    requires s == s1 * HALF + s0 && b == b1 * HALF + b0
    requires rx == s0 * b1 && ry == s1 * b0 && r0 == s0 * b0 && r1 == s1 * b1
    ensures s * b == Two(r1 + rx / HALF + ry / HALF, r0) + (rx % HALF) * HALF + (ry % HALF) * HALF
  {
    hide *;
    HalfSquared();
    calc {
      s * b;
      (s1 * HALF + s0) * (b1 * HALF + b0);
      { MulDist(s1 * HALF + s0, b1 * HALF, b0); MulDist(b1 * HALF, s1 * HALF, s0); MulDist(b0, s1 * HALF, s0); }
      (s1 * HALF) * (b1 * HALF) + s0 * (b1 * HALF) + (s1 * HALF) * b0 + s0 * b0;
      { Shuffle(s1, b1, HALF); MulAssoc(s0, b1, HALF); Shuffle2(s1, HALF, b0); }
      r1 * BASE + rx * HALF + ry * HALF + r0;
    }
    SplitHalf(rx);
    SplitHalf(ry);
    MulDist(BASE, rx / HALF, ry / HALF);
    MulDist(BASE, r1, rx / HALF + ry / HALF);
    TwoDef(r1 + rx / HALF + ry / HALF, r0);
  }

  lemma Shuffle(x: int, y: int, h: int)
    ensures (x * h) * (y * h) == (x * y) * (h * h)
  {}

  lemma Shuffle2(x: int, h: int, y: int)
    ensures (x * h) * y == (x * y) * h
  {}

  lemma SplitHalf(x: int)
    ensures x * HALF == (x / HALF) * BASE + (x % HALF) * HALF
  {
    HalfSquared();
    DivModDef(x, HALF);
    MulDist(HALF, (x / HALF) * HALF, x % HALF);
    MulAssoc(x / HALF, HALF, HALF);
  }
}
