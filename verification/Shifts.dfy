/** bignum_core.c: in-place shifts, and division by two modulo an odd number. */
module Shifts {
  import opened Arith
  import opened Limbs
  import opened Words
  import opened BignumCore

  // ----- right shift -----

  /** X := X >> count. */
  method ShiftR(X: array<Limb>, xo: nat, limbs: nat, count: nat)
    requires xo + limbs <= X.Length
    modifies X
    ensures Pow(2, count) > 0 && Val(X[xo..xo + limbs]) == old(Val(X[xo..xo + limbs])) / Pow(2, count)
    ensures OnlyWrites(X, xo, limbs)
  {
    hide Val, Scale, Pow;
    var v0, v1 := count / LIMB_BITS, count % LIMB_BITS;
    ghost var x := Val(X[xo..xo + limbs]);
    ValBound(X[xo..xo + limbs]);
    PowPos(2, count);
    if v0 > limbs || (v0 == limbs && v1 > 0) {
      Zero(X, xo, limbs);
      ValZero(X[xo..xo + limbs]);
      ShiftedOut(x, limbs, count);
      return;
    }
    ShiftParts(x, v0, v1, count);
    if v0 > 0 {
      MoveDown(X, xo, limbs, v0);
    } else {
      DivByOne(x);
    }
    if v1 > 0 {
      BitsDown(X, xo, limbs, v1);
    } else {
      DivByOne(Val(X[xo..xo + limbs]));
    }
  }

  /** The whole-limb part: the top v0 limbs become zero. */
  method MoveDown(X: array<Limb>, xo: nat, limbs: nat, v0: nat)
    requires xo + limbs <= X.Length && 0 < v0 <= limbs
    modifies X
    ensures Scale(v0) > 0 && Val(X[xo..xo + limbs]) == old(Val(X[xo..xo + limbs])) / Scale(v0)
    ensures OnlyWrites(X, xo, limbs)
  {
    hide Val, Scale;
    ghost var Xs := X[xo..xo + limbs];
    for i := 0 to limbs - v0
      invariant forall k :: 0 <= k < X.Length && !(xo <= k < xo + i) ==> X[k] == old(X[k])
      invariant forall k :: xo <= k < xo + i ==> X[k] == Xs[k - xo + v0]
    {
      var x := X[xo + i + v0];
      assert x == Xs[i + v0];
      X[xo + i] := x;
    }
    Zero(X, xo + (limbs - v0), v0);
    ghost var zeros := X[xo + (limbs - v0)..xo + limbs];
    ZeroSlice(X, xo + (limbs - v0), v0, zeros);
    SliceIs(X, xo, Xs[v0..]);
    SplitSlice(X, xo, xo + (limbs - v0), xo + limbs);
    DropLow(Xs, v0, zeros);
  }

  lemma DropLow(s: seq<Limb>, n: nat, zeros: seq<Limb>)
    requires n <= |s| && forall k :: 0 <= k < |zeros| ==> zeros[k] == 0
    ensures Scale(n) > 0 && Val(s[n..] + zeros) == Val(s) / Scale(n)
  {
    hide Val, Scale;
    ValConcat(s[n..], zeros);
    ValZero(zeros);
    assert Scale(|s[n..]|) * 0 == 0;
    ValSplit(s, n);
    ValBound(s[..n]);
    ScalePos(n);
    DivModUnique(Val(s), Scale(n), Val(s[n..]), Val(s[..n]));
  }

  /** The part below a limb: bits fall from each limb into the one below. */
  method BitsDown(X: array<Limb>, xo: nat, limbs: nat, v1: nat)
    requires xo + limbs <= X.Length && 0 < v1 < LIMB_BITS
    modifies X
    ensures Pow(2, v1) > 0 && Val(X[xo..xo + limbs]) == old(Val(X[xo..xo + limbs])) / Pow(2, v1)
    ensures OnlyWrites(X, xo, limbs)
  {
    hide Val, Scale, Pow, BitOr, Shl, Shr, Falling;
    ghost var Xs := X[xo..xo + limbs];
    ghost var out: seq<Limb> := [];
    var r0: Limb := 0;
    ghost var rem: nat := 0;
    var i := limbs;
    FallingStart(Xs, v1);
    while i > 0
      invariant 0 <= i <= limbs && |out| == limbs - i
      invariant forall k :: 0 <= k < X.Length && !(xo + i <= k < xo + limbs) ==> X[k] == old(X[k])
      invariant forall k :: xo + i <= k < xo + limbs ==> X[k] == out[k - xo - i]
      invariant Falling(Xs[i..], out, r0, v1, rem)
    {
      i := i - 1;
      var x := X[xo + i];
      assert x == Xs[i];
      FallingStep(Xs, i, out, r0, v1, rem);
      var r1 := Shl(x, LIMB_BITS - v1);
      var y: Limb := BitOr(Shr(x, v1), r0);
      X[xo + i] := y;
      out := [y] + out;
      r0 := r1;
      rem := x % Pow(2, v1);
    }
    assert Xs[0..] == Xs && X[xo..xo + limbs] == out;
    FallingEnd(Xs, out, r0, v1, rem);
  }

  /** out is s shifted right by v1, rem is what was shifted out, and r0 holds rem
      moved to the top of a limb. */
  ghost predicate Falling(s: seq<Limb>, out: seq<Limb>, r0: Limb, v1: nat, rem: nat)
    requires v1 <= LIMB_BITS
  {
    rem < Pow(2, v1) && r0 == rem * Pow(2, LIMB_BITS - v1) && Val(out) * Pow(2, v1) + rem == Val(s)
  }

  lemma FallingStart(s: seq<Limb>, v1: nat)
    requires v1 <= LIMB_BITS
    ensures Falling(s[|s|..], [], 0, v1, 0)
  {
    PowPos(2, v1);
    assert s[|s|..] == [];
  }

  lemma FallLimb(x: Limb, r0: Limb, v1: nat, rem: nat)
    requires 0 < v1 < LIMB_BITS && rem < Pow(2, v1) && r0 == rem * Pow(2, LIMB_BITS - v1)
    ensures Pow(2, v1) > 0 && Pow(2, LIMB_BITS - v1) > 0 && Pow(2, v1) * Pow(2, LIMB_BITS - v1) == BASE
    ensures BitOr(Shr(x, v1), r0) == rem * Pow(2, LIMB_BITS - v1) + x / Pow(2, v1) < BASE
    ensures Shl(x, LIMB_BITS - v1) == (x % Pow(2, v1)) * Pow(2, LIMB_BITS - v1)
  {
    hide Pow, BitOr, Shl;
    var p, q := Pow(2, v1), Pow(2, LIMB_BITS - v1);
    ShlSplit(x, LIMB_BITS - v1);
    assert LIMB_BITS - (LIMB_BITS - v1) == v1;
    QuotBound(x, p, q);
    OrDisjoint(rem, x / p, LIMB_BITS - v1);
    OrSwap(x / p, r0);
    MulLe(rem + 1, p, q);
    MulDist(q, rem, 1);
  }

  lemma FallingStep(s: seq<Limb>, i: nat, out: seq<Limb>, r0: Limb, v1: nat, rem: nat)
    requires i < |s| && 0 < v1 < LIMB_BITS && Falling(s[i + 1..], out, r0, v1, rem)
    ensures BitOr(Shr(s[i], v1), r0) < BASE && Pow(2, v1) > 0
    ensures Falling(s[i..], [BitOr(Shr(s[i], v1), r0)] + out, Shl(s[i], LIMB_BITS - v1), v1, s[i] % Pow(2, v1))
  {
    hide Val, Pow, BitOr, Shl, Shr;
    var x := s[i];
    var p, q := Pow(2, v1), Pow(2, LIMB_BITS - v1);
    FallLimb(x, r0, v1, rem);
    DivModDef(x, p);
    var y: Limb := rem * q + x / p;
    ValSuffix(s, i);
    ValUnfold(y, out);
    FallArith(x, p, q, rem, Val(out), y, Val(s[i + 1..]));
  }

  lemma QuotBound(x: Limb, p: nat, q: nat)
    requires p > 0 && q > 0 && p * q == BASE
    ensures 0 <= x / p < q
  {
    DivModDef(x, p);
    if x / p >= q { MulLe(q, x / p, p); }
    if x / p < 0 { MulLe(x / p, -1, p); }
  }

  lemma FallArith(x: nat, p: nat, q: nat, rem: nat, v: nat, y: nat, w: nat)
    requires p > 0 && q > 0 && p * q == BASE && y == rem * q + x / p && v * p + rem == w
    ensures (y + BASE * v) * p + x % p == x + BASE * w
  {
    hide *;
    calc {
      (y + BASE * v) * p + x % p;
      { MulDist(p, y, BASE * v); }
      y * p + (BASE * v) * p + x % p;
      { MulDist(p, rem * q, x / p); }
      (rem * q) * p + (x / p) * p + (BASE * v) * p + x % p;
      { DivModDef(x, p); }
      (rem * q) * p + (BASE * v) * p + x;
      { MulAssoc(rem, q, p); MulAssoc(BASE, v, p); }
      rem * BASE + BASE * (v * p) + x;
      { MulDist(BASE, v * p, rem); }
      x + BASE * w;
    }
  }

  lemma FallingEnd(s: seq<Limb>, out: seq<Limb>, r0: Limb, v1: nat, rem: nat)
    requires v1 <= LIMB_BITS && Falling(s, out, r0, v1, rem)
    ensures Pow(2, v1) > 0 && Val(out) == Val(s) / Pow(2, v1)
  {
    hide Val, Pow;
    PowPos(2, v1);
    DivModUnique(Val(s), Pow(2, v1), Val(out), rem);
  }

  lemma DivByOne(x: nat)
    ensures Pow(2, 0) == 1 && Scale(0) == 1 && x / Pow(2, 0) == x && x / Scale(0) == x
  {}

  lemma CountParts(v0: nat, v1: nat, count: nat)
    requires v0 == count / LIMB_BITS && v1 == count % LIMB_BITS
    ensures Pow(2, count) == Scale(v0) * Pow(2, v1)
  {
    hide Pow, Scale;
    DivModDef(count, LIMB_BITS);
    ScaleIsPower(v0);
    assert count == LIMB_BITS * v0 + v1;
    PowAdd(2, LIMB_BITS * v0, v1);
  }

  lemma ShiftedOut(x: nat, limbs: nat, count: nat)
    requires x < Scale(limbs) && count >= LIMB_BITS * limbs
    ensures Pow(2, count) > 0 && x / Pow(2, count) == 0
  {
    hide *;
    ScaleIsPower(limbs);
    PowMono(2, LIMB_BITS * limbs, count);
    PowPos(2, count);
    SmallMod(x, Pow(2, count));
  }

  lemma ShiftParts(x: nat, v0: nat, v1: nat, count: nat)
    requires v0 == count / LIMB_BITS && v1 == count % LIMB_BITS
    ensures Scale(v0) > 0 && Pow(2, v1) > 0 && Pow(2, count) > 0
    ensures (x / Scale(v0)) / Pow(2, v1) == x / Pow(2, count)
  {
    hide *;
    CountParts(v0, v1, count);
    ScalePos(v0);
    PowPos(2, v1);
    PowPos(2, count);
    DivDiv(x, Scale(v0), Pow(2, v1));
  }

  // ----- left shift -----

  /** X := X << count, modulo 2^(biL * limbs). */
  method ShiftL(X: array<Limb>, xo: nat, limbs: nat, count: nat)
    requires xo + limbs <= X.Length
    modifies X
    ensures Scale(limbs) > 0
    ensures Val(X[xo..xo + limbs]) == (old(Val(X[xo..xo + limbs])) * Pow(2, count)) % Scale(limbs)
    ensures OnlyWrites(X, xo, limbs)
  {
    hide Val, Scale, Pow;
    var v0, v1 := count / LIMB_BITS, count % LIMB_BITS;
    ghost var Xs := X[xo..xo + limbs];
    ScalePos(limbs);
    if v0 > 0 {
      MoveUp(X, xo, limbs, v0);
    }
    if v0 >= limbs {
      AllZero(X, xo, limbs, v0);
      AllShiftedOut(Xs, v0, v1, count);
      return;
    }
    ShiftUpper(X, xo, limbs, v0, v1, count, Xs);
  }

  lemma AllZero(X: array<Limb>, xo: nat, limbs: nat, v0: nat)
    requires xo + limbs <= X.Length && v0 >= limbs && (v0 > 0 ==> forall k :: xo <= k < xo + limbs ==> X[k] == 0)
    ensures Val(X[xo..xo + limbs]) == 0
  {
    hide Val;
    if v0 > 0 { ValZero(X[xo..xo + limbs]); } else { EmptyVal(); assert X[xo..xo + limbs] == []; }
  }

  /** The limbs above the v0 zero ones are shifted by the remaining bits; Xs is the number before the limbs moved. */
  method ShiftUpper(X: array<Limb>, xo: nat, limbs: nat, v0: nat, v1: nat, ghost count: nat, ghost Xs: seq<Limb>)
    requires xo + limbs <= X.Length && v0 < limbs == |Xs| && v0 == count / LIMB_BITS && v1 == count % LIMB_BITS
    requires forall k :: xo <= k < xo + limbs ==> X[k] == if k < xo + v0 then 0 else Xs[k - xo - v0]
    modifies X
    ensures Scale(limbs) > 0 && Val(X[xo..xo + limbs]) == (Val(Xs) * Pow(2, count)) % Scale(limbs)
    ensures OnlyWrites(X, xo, limbs)
  {
    hide Val, Scale, Pow;
    ghost var low, mid := X[xo..xo + v0], Xs[..limbs - v0];
    ZeroSlice(X, xo, v0, low);
    SliceIs(X, xo + v0, mid);
    if v1 > 0 {
      BitsUp(X, xo + v0, limbs - v0, v1);
    } else {
      TimesOne(mid);
    }
    assert X[xo..xo + v0] == low;
    SplitSlice(X, xo, xo + v0, xo + limbs);
    UpParts(Xs, low, X[xo + v0..xo + limbs], v0, v1, count);
  }

  lemma EmptyVal()
    ensures Val([]) == 0
  {}

  lemma TimesOne(s: seq<Limb>)
    ensures Scale(|s|) > 0 && Val(s) == (Val(s) * Pow(2, 0)) % Scale(|s|)
  {
    ValBound(s);
    SmallMod(Val(s), Scale(|s|));
  }

  /** The whole-limb part: limbs move up, the low v0 become zero. */
  method MoveUp(X: array<Limb>, xo: nat, limbs: nat, v0: nat)
    requires xo + limbs <= X.Length && 0 < v0
    modifies X
    ensures forall k :: xo <= k < xo + limbs ==> X[k] == if k < xo + v0 then 0 else old(X[k - v0])
    ensures OnlyWrites(X, xo, limbs)
  {
    ghost var Xs := X[xo..xo + limbs];
    ghost var R := seq(limbs, k requires 0 <= k < limbs => if k < v0 then 0 else Xs[k - v0]);
    var i := limbs;
    while i > v0
      invariant 0 <= i <= limbs && (limbs > v0 ==> i >= v0)
      invariant forall k :: 0 <= k < X.Length && !(xo + i <= k < xo + limbs) ==> X[k] == old(X[k])
      invariant forall k :: xo + i <= k < xo + limbs ==> X[k] == R[k - xo]
    {
      var x := X[xo + i - v0 - 1];
      assert x == R[i - 1];
      i := i - 1;
      X[xo + i] := x;
    }
    while i > 0
      invariant 0 <= i <= limbs && i <= v0
      invariant forall k :: 0 <= k < X.Length && !(xo + i <= k < xo + limbs) ==> X[k] == old(X[k])
      invariant forall k :: xo + i <= k < xo + limbs ==> X[k] == R[k - xo]
    {
      i := i - 1;
      X[xo + i] := 0;
    }
  }

  /** The part below a limb: bits rise from each limb into the one above. */
  method BitsUp(X: array<Limb>, xo: nat, limbs: nat, v1: nat)
    requires xo + limbs <= X.Length && 0 < v1 < LIMB_BITS
    modifies X
    ensures Scale(limbs) > 0
    ensures Val(X[xo..xo + limbs]) == (old(Val(X[xo..xo + limbs])) * Pow(2, v1)) % Scale(limbs)
    ensures OnlyWrites(X, xo, limbs)
  {
    hide Val, Scale, Pow, BitOr, Shl, Shr, Rising;
    ghost var Xs := X[xo..xo + limbs];
    ghost var out: seq<Limb> := [];
    var r0: Limb := 0;
    RisingStart(Xs, v1);
    for i := 0 to limbs
      invariant |out| == i
      invariant forall k :: 0 <= k < X.Length && !(xo <= k < xo + i) ==> X[k] == old(X[k])
      invariant forall k :: xo <= k < xo + i ==> X[k] == out[k - xo]
      invariant Rising(Xs, out, r0, v1)
    {
      var x := X[xo + i];
      assert x == Xs[i];
      RisingStep(Xs, out, r0, v1);
      var r1 := Shr(x, LIMB_BITS - v1);
      var y: Limb := BitOr(Shl(x, v1), r0);
      X[xo + i] := y;
      out := out + [y];
      r0 := r1;
    }
    assert Xs[..limbs] == Xs && X[xo..xo + limbs] == out;
    RisingEnd(Xs, out, r0, v1);
  }

  /** out with r0 above it is the processed part of s times 2^v1. */
  ghost predicate Rising(s: seq<Limb>, out: seq<Limb>, r0: Limb, v1: nat)
  {
    |out| <= |s| && r0 < Pow(2, v1) && Val(out) + r0 * Scale(|out|) == Val(s[..|out|]) * Pow(2, v1)
  }

  lemma RisingStart(s: seq<Limb>, v1: nat)
    ensures Rising(s, [], 0, v1)
  {
    PowPos(2, v1);
  }

  lemma RiseLimb(x: Limb, r0: Limb, v1: nat)
    requires 0 < v1 < LIMB_BITS && r0 < Pow(2, v1)
    ensures Pow(2, v1) > 0 && Pow(2, LIMB_BITS - v1) > 0 && Pow(2, v1) * Pow(2, LIMB_BITS - v1) == BASE
    ensures BitOr(Shl(x, v1), r0) == (x % Pow(2, LIMB_BITS - v1)) * Pow(2, v1) + r0 < BASE
    ensures Shr(x, LIMB_BITS - v1) == x / Pow(2, LIMB_BITS - v1) < Pow(2, v1)
  {
    hide Pow, BitOr, Shl;
    var p, q := Pow(2, v1), Pow(2, LIMB_BITS - v1);
    ShlSplit(x, v1);
    OrDisjoint(x % q, r0, v1);
    DivModDef(x, q);
    MulLe(x % q + 1, q, p);
    MulDist(p, x % q, 1);
    QuotBound(x, q, p);
  }

  lemma RisingStep(s: seq<Limb>, out: seq<Limb>, r0: Limb, v1: nat)
    requires |out| < |s| && 0 < v1 < LIMB_BITS && Rising(s, out, r0, v1)
    ensures BitOr(Shl(s[|out|], v1), r0) < BASE
    ensures Rising(s, out + [BitOr(Shl(s[|out|], v1), r0)], Shr(s[|out|], LIMB_BITS - v1), v1)
  {
    hide Val, Pow, BitOr, Shl, Shr, Scale;
    var i := |out|;
    var x := s[i];
    RiseLimb(x, r0, v1);
    var p, q := Pow(2, v1), Pow(2, LIMB_BITS - v1);
    var y: Limb := BitOr(Shl(x, v1), r0);
    DivModDef(x, q);
    ValPrefix(s, i);
    ValSnoc(out, y);
    ScaleNext(i);
    RiseArith(x, x % q, Shr(x, LIMB_BITS - v1), p, q, Scale(i), r0, y, Val(s[..i]), Val(out));
  }

  /** x = c * q + h: h goes into the limb, c is carried on. */
  lemma RiseArith(x: int, h: int, c: int, p: int, q: int, s: int, r0: int, y: int, v: int, w: int)
    requires p * q == BASE && x == c * q + h && y == h * p + r0 && w + r0 * s == v * p
    ensures (w + s * y) + c * (BASE * s) == (v + s * x) * p
  {
    hide *;
    MulDist(s, h * p, r0);
    RiseShuffle(c, p, q, s);
    MulDist(p, c * q, h);
    MulDist(s, (c * q) * p, h * p);
    MulAssoc(s, x, p);
    MulDist(p, v, s * x);
  }

  lemma RiseShuffle(a: int, p: int, q: int, s: int)
    ensures a * ((p * q) * s) == s * ((a * q) * p)
  {
    hide *;
    MulAssoc(a, p * q, s);
    MulAssoc(a, p, q);
    MulAssoc(a, q, p);
    assert (a * p) * q == (a * q) * p;
  }

  lemma RisingEnd(s: seq<Limb>, out: seq<Limb>, r0: Limb, v1: nat)
    requires Rising(s, out, r0, v1) && |out| == |s|
    ensures Scale(|s|) > 0 && Val(out) == (Val(s) * Pow(2, v1)) % Scale(|s|)
  {
    hide Val, Pow, Scale;
    assert s[..|out|] == s;
    ValBound(out);
    DivModUnique(Val(s) * Pow(2, v1), Scale(|s|), r0, Val(out));
  }

  lemma AllShiftedOut(s: seq<Limb>, v0: nat, v1: nat, count: nat)
    requires v0 == count / LIMB_BITS && v1 == count % LIMB_BITS && v0 >= |s|
    ensures Scale(|s|) > 0 && (Val(s) * Pow(2, count)) % Scale(|s|) == 0
  {
    hide *;
    CountParts(v0, v1, count);
    var n := |s|;
    ScalePos(n);
    ScaleSum(n, v0 - n);
    var k := Val(s) * (Scale(v0 - n) * Pow(2, v1));
    calc {
      Val(s) * Pow(2, count);
      Val(s) * ((Scale(n) * Scale(v0 - n)) * Pow(2, v1));
      { MulAssoc(Scale(n), Scale(v0 - n), Pow(2, v1)); MulAssoc(Val(s), Scale(n), Scale(v0 - n) * Pow(2, v1)); MulAssoc(Scale(n), Val(s), Scale(v0 - n) * Pow(2, v1)); }
      k * Scale(n);
    }
    DivModUnique(Val(s) * Pow(2, count), Scale(n), k, 0);
  }

  lemma UpParts(s: seq<Limb>, low: seq<Limb>, up: seq<Limb>, v0: nat, v1: nat, count: nat)
    requires v0 == count / LIMB_BITS && v1 == count % LIMB_BITS && v0 < |s|
    requires |low| == v0 && (forall k :: 0 <= k < v0 ==> low[k] == 0)
    requires |up| == |s| - v0 && Scale(|up|) > 0 && Val(up) == (Val(s[..|s| - v0]) * Pow(2, v1)) % Scale(|up|)
    ensures Scale(|s|) > 0 && Val(low + up) == (Val(s) * Pow(2, count)) % Scale(|s|)
  {
    hide *;
    var n := |s|;
    CountParts(v0, v1, count);
    ScalePos(n);
    ScaleSum(v0, n - v0);
    ValSplit(s, n - v0);
    LowZero(low, up);
    ValBound(low + up);
    var p, a := Pow(2, v1), Scale(n - v0);
    var t := Val(s[..n - v0]) * p;
    DivModDef(t, a);
    UpArith(Val(s), Val(s[..n - v0]), Val(s[n - v0..]), a, Scale(v0), p, t / a, Val(up));
    DivModUnique(Val(s) * Pow(2, count), Scale(n), t / a + Val(s[n - v0..]) * p, Val(low + up));
  }

  lemma LowZero(low: seq<Limb>, up: seq<Limb>)
    requires forall k :: 0 <= k < |low| ==> low[k] == 0
    ensures Val(low + up) == Scale(|low|) * Val(up)
  {
    ValConcat(low, up);
    ValZero(low);
  }

  lemma UpArith(x: int, u: int, w: int, a: int, b: int, p: int, k: int, r: int)
    requires x == u + a * w && u * p == k * a + r
    ensures x * (b * p) == (k + w * p) * (b * a) + b * r
  {
    hide *;
    calc {
      x * (b * p);
      { MulAssoc(x, b, p); MulAssoc(b, x, p); }
      b * (x * p);
      { MulDist(p, u, a * w); MulAssoc(a, w, p); }
      b * (k * a + r + a * (w * p));
      { MulDist(a, k, w * p); }
      b * ((k + w * p) * a + r);
      { MulDist(b, (k + w * p) * a, r); MulAssoc(k + w * p, b, a); MulAssoc(b, k + w * p, a); }
      (k + w * p) * (b * a) + b * r;
    }
  }
}
