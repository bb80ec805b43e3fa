/** bignum.c: division of two limbs by one, with or without a double-width integer. */
module IntDiv {
  import opened Arith
  import opened NumberTheory
  import opened Limbs
  import opened Words
  import opened BnMul
  import opened BitLength

  /** (u1 * 2^biL + u0) / d and the remainder, or all ones when the quotient does not fit. */
  method IntDivInt(u1: Limb, u0: Limb, d: Limb) returns (q: Limb, r: Limb)
    ensures d == 0 || u1 >= d ==> q == BASE - 1 && r == BASE - 1
    ensures 0 <= u1 < d ==> q == (u1 * BASE + u0) / d && r == (u1 * BASE + u0) % d
  {
    if d == 0 || u1 >= d {
      return BASE - 1, BASE - 1;
    }
    if HAVE_UDBL {
      q, r := DivDouble(u1, u0, d);
    } else {
      q, r := DivHalf(u1, u0, d);
    }
  }

  /** The double-width path, with the clamp that never applies. */
  method DivDouble(u1: Limb, u0: Limb, d: Limb) returns (q: Limb, r: Limb)
    requires u1 < d
    ensures q == (u1 * BASE + u0) / d && r == (u1 * BASE + u0) % d
  {
    var dividend: nat := u1 * BASE + u0;
    var quotient := dividend / d;
    DivModDef(dividend, d);
    QuotientFits(u1, u0, d, quotient, dividend % d);
    if quotient > BASE - 1 {
      quotient := BASE - 1;
    }
    q, r := quotient, dividend - quotient * d;
  }

  lemma QuotientFits(u1: Limb, u0: Limb, d: Limb, q: int, r: int)
    requires u1 < d && u1 * BASE + u0 == q * d + r && 0 <= r < d
    ensures 0 <= q < BASE
  {
    if q < 0 { MulLe(q, -1, d); }
    if q >= BASE { MulLe(BASE, q, d); MulLe((u1 as int) + 1, d, BASE); }
  }

  /** The half-limb path: Algorithm D of Knuth with two half-limb digits. */
  method DivHalf(u1: Limb, u0: Limb, d: Limb) returns (q: Limb, r: Limb)
    requires u1 < d
    ensures q == (u1 * BASE + u0) / d && r == (u1 * BASE + u0) % d
  {
    hide Shl, Shr, BitOr, Pow, BitLen;
    var s := Clz(d);
    NormalDivisor(d, s);
    NormalDividend(u1, u0, d, s);
    var dd := Shl(d, s);
    var v1 := BitOr(Shl(u1, s), if s == 0 then 0 else Shr(u0, LIMB_BITS - s));
    var v0 := Shl(u0, s);
    var rem;
    q, rem := DivNormal(v1, v0, dd);
    r := Shr(rem, s);
    ShrDef(rem, s);
    Descale(u1 * BASE + u0, d, Pow(2, s), v1 * BASE + v0, dd, q, rem);
  }

  /** The two digits, for a divisor with its top bit set. */
  method DivNormal(v1: Limb, v0: Limb, d: Limb) returns (quotient: Limb, rem: Limb)
    requires BASE <= 2 * d && v1 < d
    ensures v1 * BASE + v0 == quotient * d + rem && rem < d
  {
    hide Shl, Shr, WAdd, WSub, WMul, Pow;
    Halves(v0);
    HalfIsLimb();
    var msw, lsw := Shr(v0, HALF_BITS), v0 % HALF;
    var q1 := HalfDigit(v1, msw, d);
    TopDigit(v1, msw, q1, d);
    WrapDiff(v1, msw, q1, d);
    var rAX := WAdd(WMul(v1, HALF), WSub(msw, WMul(q1, d)));
    var q0 := HalfDigit(rAX, lsw, d);
    TopDigit(rAX, lsw, q0, d);
    WrapDiff2(rAX, lsw, q0, d);
    rem := WSub(WAdd(WMul(rAX, HALF), lsw), WMul(q0, d));
    Assemble(v1, v0, msw, lsw, q1, q0, rAX, d);
    TwoDigits(q1, q0);
    quotient := WAdd(WMul(q1, HALF), q0);
  }

  lemma HalfIsLimb()
    ensures 0 < HALF < BASE
  {}

  lemma TwoDigits(q1: Limb, q0: Limb)
    requires q1 < HALF && q0 < HALF < BASE
    ensures WAdd(WMul(q1, HALF), q0) == q1 * HALF + q0
  {
    HalfSquared();
    MulLe((q1 as int) + 1, HALF, HALF);
    MulNonNeg(q1, HALF);
    MulDist(HALF, q1, 1);
    WMulExact(q1, HALF);
    NoWrap(q1 * HALF, q0);
  }

  lemma NoWrap(x: Limb, y: Limb)
    requires x + y < BASE
    ensures WAdd(x, y) == x + y
  {}

  lemma ShrDef(x: Limb, s: nat)
    ensures Pow(2, s) > 0 && Shr(x, s) == x / Pow(2, s)
  {
    PowPos(2, s);
  }

  /** Shifting the divisor left until its top bit is set loses nothing. */
  lemma NormalDivisor(d: Limb, s: nat)
    requires 0 < d && s <= LIMB_BITS && LIMB_BITS - s == BitLen(d)
    ensures s < LIMB_BITS && Pow(2, s) > 0 && d < Pow(2, LIMB_BITS - s)
    ensures Shl(d, s) == d * Pow(2, s) && BASE <= 2 * Shl(d, s)
  {
    hide *;
    var p, q := Pow(2, s), Pow(2, LIMB_BITS - s);
    BitLenBound(d, LIMB_BITS - s);
    if s == LIMB_BITS { PowZero(); }
    BitLenBound(d, LIMB_BITS - s - 1);
    var h := Pow(2, LIMB_BITS - s - 1);
    PowNext(LIMB_BITS - s - 1);
    ShlSplit(d, s);
    SmallMod(d, q);
    MulAssoc(2, h, p);
    MulLe(h, d, p);
    MulComm(p, q);
  }

  /** Nor does shifting the dividend with it. */
  lemma NormalDividend(u1: Limb, u0: Limb, d: Limb, s: nat)
    requires u1 < d && s < LIMB_BITS && d < Pow(2, LIMB_BITS - s) && Shl(d, s) == d * Pow(2, s)
    ensures var v1 := BitOr(Shl(u1, s), if s == 0 then 0 else Shr(u0, LIMB_BITS - s));
            v1 < Shl(d, s) && v1 * BASE + Shl(u0, s) == (u1 * BASE + u0) * Pow(2, s)
  {
    hide *;
    var p, q := Pow(2, s), Pow(2, LIMB_BITS - s);
    ShlSplit(u1, s);
    ShlSplit(u0, s);
    SmallMod(u1, q);
    var h := u0 / q;
    DivModDef(u0, q);
    TopBits(u0, q, p);
    Widen(u1, u0, h, u0 % q, p, q);
    MulLe((u1 as int) + 1, d, p);
    MulDist(p, u1, 1);
    if s == 0 {
      PowZero();
      OrSwap(u1, 0);
      OrZero(u1);
    } else {
      ShrDef(u0, LIMB_BITS - s);
      OrDisjoint(u1, h, s);
    }
  }

  lemma TopBits(x: nat, q: nat, p: nat)
    requires q > 0 && p * q == BASE && x < BASE
    ensures 0 <= x / q < p
  {
    DivModDef(x, q);
    if x / q < 0 { MulLe(x / q, -1, q); }
    if x / q >= p { MulLe(p, x / q, q); }
  }

  lemma Widen(u1: int, u0: int, h: int, l: int, p: int, q: int)
    requires u0 == h * q + l && p * q == BASE
    ensures (u1 * p + h) * BASE + l * p == (u1 * BASE + u0) * p
  {
    calc {
      (u1 * BASE + u0) * p;
      { MulDist(p, u1 * BASE, u0); MulDist(p, h * q, l); }
      (u1 * BASE) * p + (h * q) * p + l * p;
      { MulAssoc(h, q, p); Swap3(u1, BASE, p); }
      (u1 * p) * BASE + h * BASE + l * p;
    }
    MulDist(BASE, u1 * p, h);
  }

  lemma Swap3(x: int, y: int, z: int)
    ensures (x * y) * z == (x * z) * y
  {}

  /** One digit: the estimate from the top half of the divisor, corrected downwards. The loop
      may stop early, when the partial remainder no longer fits in half a limb; the digit is
      right then too. */
  method HalfDigit(u: Limb, w: Limb, d: Limb) returns (q: Limb)
    requires BASE <= 2 * d && u < d && w < HALF
    ensures q < HALF && q == (u * HALF + w) / d
  {
    hide Shr, WAdd, WSub, WMul, Pow, Guard;
    Halves(d);
    var d1, d0 := Shr(d, HALF_BITS), d % HALF;
    HalfSquared();
    HalfIsLimb();
    ghost var t := (u * HALF + w) / d;
    EstimateBounds(u, w, d, d1, d0, t);
    q := u / d1;
    FirstRemainder(u, d1, q);
    var r0 := WSub(u, WMul(d1, q));
    while Guard(q, d0, r0, w)
      invariant q * d1 + r0 == u && t <= q <= HALF + 1 && 0 <= r0 < HALF
      decreases q
    {
      GuardIs(q, d0, r0, w);
      TooLarge(u, w, d, d1, d0, t, q, r0);
      q := q - 1;
      NoWrap(r0, d1);
      r0 := WAdd(r0, d1);
      if r0 >= HALF {
        Settled(u, w, d, d1, d0, t, q, r0);
        return;
      }
    }
    GuardIs(q, d0, r0, w);
    RightDigit(u, w, d, d1, d0, t, q, r0);
  }

  /** The loop test, in one-limb arithmetic. */
  function Guard(q: Limb, d0: Limb, r0: Limb, w: Limb): bool
    requires HALF < BASE
  {
    q >= HALF || WMul(q, d0) > WAdd(WMul(HALF, r0), w)
  }

  /** Nothing wraps in the loop test: the products are only formed when the digit fits in half a limb. */
  lemma GuardIs(q: Limb, d0: Limb, r0: Limb, w: Limb)
    requires d0 < HALF && r0 < HALF && w < HALF && HALF < BASE
    ensures Guard(q, d0, r0, w) <==> q >= HALF || q * d0 > HALF * r0 + w
  {
    hide WMul;
    if q < HALF {
      HalfSquared();
      HalfProduct(q, d0);
      MulNonNeg(HALF, r0);
      MulLe(r0 + 1, HALF, HALF);
      MulDist(HALF, r0, 1);
      ProductFits(HALF, r0);
    }
  }

  lemma FirstRemainder(u: Limb, d1: Limb, q: Limb)
    requires d1 > 0 && q == u / d1
    ensures WSub(u, WMul(d1, q)) == u % d1 && q * d1 + u % d1 == u
  {
    hide WMul;
    DivModDef(u, d1);
    MulComm(d1, q);
    MulNonNeg(d1, q);
    ProductFits(d1, q);
  }

  lemma ProductFits(x: Limb, y: Limb)
    requires 0 <= x * y < BASE
    ensures WMul(x, y) == x * y
  {
    SmallMod(x * y, BASE);
  }

  lemma EstimateBounds(u: Limb, w: Limb, d: Limb, d1: Limb, d0: Limb, t: int)
    requires BASE <= 2 * d && u < d && w < HALF && d == d1 * HALF + d0 && d0 < HALF && d1 < HALF
    requires t == (u * HALF + w) / d
    ensures HALF <= 2 * d1 && 0 <= t < HALF && 0 <= u / d1 <= HALF + 1 && t <= u / d1 && 0 <= u % d1 < HALF
  {
    hide *;
    HalfTop(d, d1, d0);
    DivModDef(u * HALF + w, d);
    QuotientBounds(u * HALF + w, d, t, (u * HALF + w) % d, u, w);
    DivModDef(u, d1);
    DigitBelow(u, d1, u / d1, u % d1, t, d0, w);
    DigitSmall(u, d, d1, d0, u / d1, u % d1);
  }

  lemma HalfTop(d: Limb, d1: Limb, d0: Limb)
    requires BASE <= 2 * d && d == d1 * HALF + d0 && d0 < HALF
    ensures 0 < HALF <= 2 * d1
  {
    HalfSquared();
    if 2 * d1 + 1 <= HALF { MulLe(2 * d1 + 1, HALF, HALF); MulDist(HALF, 2 * d1, 1); MulAssoc(2, d1, HALF); }
  }

  lemma DigitSmall(u: int, d: int, d1: int, d0: int, q: int, r: int)
    requires 0 <= u < d && d == d1 * HALF + d0 && 0 <= d0 < HALF && HALF <= 2 * d1 && d1 > 0
    requires u == q * d1 + r && 0 <= r < d1
    ensures 0 <= q <= HALF + 1
  {
    if q < 0 { MulLe(q, -1, d1); }
    if q >= HALF + 2 { MulLe(HALF + 2, q, d1); MulDist(d1, HALF, 2); MulComm(d1, HALF); }
  }

  lemma QuotientBounds(m: int, d: int, t: int, r: int, u: int, w: int)
    requires m == t * d + r && 0 <= r < d && m == u * HALF + w && 0 <= u < d && 0 <= w < HALF
    ensures 0 <= t < HALF && t * d <= m
  {
    MulLe(u + 1, d, HALF);
    MulNonNeg(u, HALF);
    if t < 0 { MulLe(t, -1, d); }
    if t >= HALF { MulLe(HALF, t, d); }
  }

  lemma DigitBelow(u: int, d1: int, q: int, r: int, t: int, d0: int, w: int)
    requires d1 > 0 && u == q * d1 + r && 0 <= r < d1 && 0 <= w < HALF && 0 <= t && 0 <= d0
    requires t * (d1 * HALF + d0) <= u * HALF + w
    ensures t <= q
  {
    MulDist(t, d1 * HALF, d0);
    MulNonNeg(t, d0);
    MulAssoc(t, d1, HALF);
    if t >= q + 1 {
      MulLe(q + 1, t, d1);
      MulDist(d1, q, 1);
      MulLe(u + 1, t * d1, HALF);
    }
  }

  /** The partial remainder tells which side of the true digit q is on. */
  lemma Remainder(u: int, w: int, d: int, d1: int, d0: int, q: int, r0: int)
    requires d == d1 * HALF + d0 && q * d1 + r0 == u
    ensures u * HALF + w - q * d == HALF * r0 + w - q * d0
  {
    MulDist(q, d1 * HALF, d0);
    MulAssoc(q, d1, HALF);
    MulDist(HALF, q * d1, r0);
  }

  lemma TooLarge(u: Limb, w: Limb, d: Limb, d1: Limb, d0: Limb, t: int, q: Limb, r0: Limb)
    requires d > 0 && d == d1 * HALF + d0 && q * d1 + r0 == u && t == (u * HALF + w) / d && 0 <= t < HALF
    requires q >= HALF || q * d0 > HALF * r0 + w
    requires t <= q
    ensures t < q && (q - 1) * d1 + (r0 + d1) == u
  {
    hide *;
    DivModDef(u * HALF + w, d);
    Remainder(u, w, d, d1, d0, q, r0);
    MulDist(d1, q, 1);
  }

  lemma Settled(u: Limb, w: Limb, d: Limb, d1: Limb, d0: Limb, t: int, q: Limb, r0: int)
    requires d > 0 && d == d1 * HALF + d0 && d0 < HALF && q * d1 + r0 == u && t == (u * HALF + w) / d && 0 <= t < HALF
    requires t <= q <= HALF && r0 >= HALF && w < HALF
    ensures q == t
  {
    hide *;
    HalfSquared();
    DivModDef(u * HALF + w, d);
    Remainder(u, w, d, d1, d0, q, r0);
    MulLe(HALF, r0, HALF);
    MulLe(q, HALF, d0);
    MulLe(d0, HALF, HALF);
    if q >= t + 1 { MulLe(t + 1, q, d); MulDist(d, t, 1); }
  }

  lemma RightDigit(u: Limb, w: Limb, d: Limb, d1: Limb, d0: Limb, t: int, q: Limb, r0: int)
    requires d > 0 && d == d1 * HALF + d0 && q * d1 + r0 == u && t == (u * HALF + w) / d
    requires t <= q && q * d0 <= HALF * r0 + w
    ensures q == t
  {
    hide *;
    DivModDef(u * HALF + w, d);
    Remainder(u, w, d, d1, d0, q, r0);
    if q >= t + 1 { MulLe(t + 1, q, d); MulDist(d, t, 1); }
  }

  /** After a right digit the remainder is below the divisor, so it is not affected by wrap-around. */
  lemma TopDigit(u: Limb, w: Limb, q: Limb, d: Limb)
    requires d > 0 && q == (u * HALF + w) / d
    ensures 0 <= u * HALF + w - q * d < d
  {
    DivModDef(u * HALF + w, d);
  }

  lemma WrapDiff(u: Limb, w: Limb, q: Limb, d: Limb)
    requires HALF < BASE && 0 <= u * HALF + w - q * d < BASE
    ensures WAdd(WMul(u, HALF), WSub(w, WMul(q, d))) == u * HALF + w - q * d
  {
    hide *;
    MulWraps(u, HALF);
    MulWraps(q, d);
    DiffWraps(WMul(u, HALF), u * HALF, w, WMul(q, d), q * d);
  }

  lemma WrapDiff2(u: Limb, w: Limb, q: Limb, d: Limb)
    requires HALF < BASE && 0 <= u * HALF + w - q * d < BASE
    ensures WSub(WAdd(WMul(u, HALF), w), WMul(q, d)) == u * HALF + w - q * d
  {
    hide *;
    MulWraps(u, HALF);
    MulWraps(q, d);
    DiffWraps(WMul(u, HALF), u * HALF, w, WMul(q, d), q * d);
  }

  /** Wrapping sums and differences of wrapped numbers are right when the true result fits in a limb. */
  lemma DiffWraps(x: Limb, px: int, w: Limb, y: Limb, py: int)
    requires Cong(x, px, BASE) && Cong(y, py, BASE) && 0 <= px + w - py < BASE
    ensures WAdd(x, WSub(w, y)) == px + w - py == WSub(WAdd(x, w), y)
  {
    hide *;
    CongRefl(w, BASE);
    DifferenceCong(w, w, y, py);
    SumCong(x, px, WSub(w, y), w - py);
    CongUnique(WAdd(x, WSub(w, y)), px + w - py, BASE);
    SumCong(x, px, w, w);
    DifferenceCong(WAdd(x, w), px + w, y, py);
    CongUnique(WSub(WAdd(x, w), y), px + w - py, BASE);
  }

  lemma SumCong(x: Limb, px: int, y: Limb, py: int)
    requires Cong(x, px, BASE) && Cong(y, py, BASE)
    ensures Cong(WAdd(x, y), px + py, BASE)
  {
    hide *;
    AddWraps(x, y);
    CongAdd(x, px, y, py, BASE);
    CongTrans(WAdd(x, y), x + y, px + py, BASE);
  }

  lemma DifferenceCong(x: Limb, px: int, y: Limb, py: int)
    requires Cong(x, px, BASE) && Cong(y, py, BASE)
    ensures Cong(WSub(x, y), px - py, BASE)
  {
    hide *;
    SubWraps(x, y);
    CongSub(x, px, y, py, BASE);
    CongTrans(WSub(x, y), x - y, px - py, BASE);
  }

  lemma MulWraps(x: Limb, y: Limb)
    ensures Cong(WMul(x, y), x * y, BASE)
  {
    CongMod(x * y, BASE);
  }

  lemma AddWraps(x: Limb, y: Limb)
    ensures Cong(WAdd(x, y), x + y, BASE)
  {
    CongIntro(WAdd(x, y), x + y, BASE, if x + y < BASE then 0 else -1);
  }

  lemma SubWraps(x: Limb, y: Limb)
    ensures Cong(WSub(x, y), x - y, BASE)
  {
    CongIntro(WSub(x, y), x - y, BASE, if x >= y then 0 else 1);
  }

  /** Two half-limb digits make the quotient limb. */
  lemma Assemble(v1: int, v0: int, msw: int, lsw: int, q1: int, q0: int, x: int, d: int)
    requires v0 == msw * HALF + lsw && x == v1 * HALF + msw - q1 * d
    ensures v1 * BASE + v0 == (q1 * HALF + q0) * d + (x * HALF + lsw - q0 * d)
  {
    HalfSquared();
    calc {
      x * HALF;
      (v1 * HALF + msw - q1 * d) * HALF;
      { MulDist(HALF, v1 * HALF + msw, q1 * d); MulDist(HALF, v1 * HALF, msw); }
      (v1 * HALF) * HALF + msw * HALF - (q1 * d) * HALF;
      { MulAssoc(v1, HALF, HALF); Swap3(q1, d, HALF); }
      v1 * BASE + msw * HALF - (q1 * HALF) * d;
    }
    MulDist(d, q1 * HALF, q0);
  }

  /** Undoing the normalisation: the quotient stays, the remainder is scaled by p. */
  lemma Descale(n: nat, d: nat, p: nat, nn: nat, dd: nat, q: int, rem: int)
    requires d > 0 && p > 0 && nn == n * p && dd == d * p
    requires nn == q * dd + rem && 0 <= rem < dd
    ensures q == n / d && rem / p == n % d
  {
    var r := n - q * d;
    calc {
      r * p;
      { MulDist(p, n, q * d); MulAssoc(q, d, p); }
      rem;
    }
    if r < 0 { MulLe(r, -1, p); }
    if r >= d { MulLe(d, r, p); }
    DivModUnique(n, d, q, r);
    DivModUnique(rem, p, r, 0);
  }
}
