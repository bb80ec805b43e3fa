/** Limbs, pointers into limb arrays, and the number a run of limbs stands for. */
module Limbs {
  import opened Arith

  /** The two limb widths the library supports: 2^32 and 2^64. */
  type Radix = b: nat | b == 0x1_0000_0000 || b == 0x1_0000_0000_0000_0000 witness 0x1_0000_0000

  /** 2^biL. Left open, so every result holds for both limb widths. */
  const BASE: Radix

  /** biL, biH and 2^biH. */
  const LIMB_BITS: nat := if BASE == 0x1_0000_0000 then 32 else 64
  const HALF_BITS: nat := if BASE == 0x1_0000_0000 then 16 else 32
  const HALF: nat := if BASE == 0x1_0000_0000 then 0x1_0000 else 0x1_0000_0000

  type Limb = x: int | 0 <= x < BASE witness 0

  lemma HalfSquared()
    ensures HALF * HALF == BASE
  {}

  lemma Pow2Eight(e: nat)
    ensures Pow(2, e + 8) == 256 * Pow(2, e)
  {
    var p := Pow(2, e);
    assert Pow(2, e + 1) == 2 * p;
    assert Pow(2, e + 2) == 4 * p;
    assert Pow(2, e + 3) == 8 * p;
    assert Pow(2, e + 4) == 16 * p;
    assert Pow(2, e + 5) == 32 * p;
    assert Pow(2, e + 6) == 64 * p;
    assert Pow(2, e + 7) == 128 * p;
  }

  lemma RadixIsPower()
    ensures Pow(2, LIMB_BITS) == BASE && Pow(2, HALF_BITS) == HALF
  {
    Pow2Eight(0); Pow2Eight(8); Pow2Eight(16); Pow2Eight(24);
    assert Pow(2, 32) == 0x1_0000_0000;
    Pow2Eight(32); Pow2Eight(40); Pow2Eight(48); Pow2Eight(56);
  }

  /** 2^(biL * n). */
  function Scale(n: nat): nat
  {
    Pow(BASE, n)
  }

  lemma ScaleIsPower(n: nat)
    ensures Scale(n) == Pow(2, LIMB_BITS * n)
  {
    RadixIsPower();
    PowMul(2, LIMB_BITS, n);
  }

  lemma ScaleNext(n: nat)
    ensures Scale(n + 1) == BASE * Scale(n)
  {}

  lemma ScaleSum(m: nat, n: nat)
    ensures Scale(m + n) == Scale(m) * Scale(n)
  {
    PowAdd(BASE, m, n);
  }

  lemma ScalePos(n: nat)
    ensures Scale(n) > 0
  {
    PowPos(BASE, n);
  }

  // ----- the value of a limb sequence, least significant limb first -----

  function Val(s: seq<Limb>): nat
  {
    if |s| == 0 then 0 else s[0] + BASE * Val(s[1..])
  }

  lemma ValUnfold(x: Limb, s: seq<Limb>)
    ensures Val([x] + s) == x + BASE * Val(s)
  {
    assert ([x] + s)[1..] == s;
  }

  lemma ValOne(x: Limb)
    ensures Val([x]) == x
  {
    assert Val([]) == 0;
  }

  lemma {:induction false} ValConcat(s: seq<Limb>, t: seq<Limb>)
    ensures Val(s + t) == Val(s) + Scale(|s|) * Val(t)
  {
    if s == [] {
      assert s + t == t;
    } else {
      hide Val;
      var r := s[1..];
      assert s == [s[0]] + r && s + t == [s[0]] + (r + t);
      ValUnfold(s[0], r);
      ValUnfold(s[0], r + t);
      ValConcat(r, t);
      MulDist(BASE, Val(r), Scale(|r|) * Val(t));
      MulAssoc(BASE, Scale(|r|), Val(t));
    }
  }

  lemma ValSnoc(s: seq<Limb>, x: Limb)
    ensures Val(s + [x]) == Val(s) + Scale(|s|) * x
  {
    hide *;
    ValConcat(s, [x]);
    ValOne(x);
    assert Scale(|s|) * Val([x]) == Scale(|s|) * x;
  }

  /** Unfolds the value of a prefix by one limb. */
  lemma ValPrefix(s: seq<Limb>, i: nat)
    requires i < |s|
    ensures Val(s[..i + 1]) == Val(s[..i]) + Scale(i) * s[i]
  {
    assert s[..i + 1] == s[..i] + [s[i]];
    ValSnoc(s[..i], s[i]);
  }

  /** Unfolds the value of a suffix by one limb. */
  lemma ValSuffix(s: seq<Limb>, i: nat)
    requires i < |s|
    ensures Val(s[i..]) == s[i] + BASE * Val(s[i + 1..])
  {
    assert s[i..][1..] == s[i + 1..];
  }

  lemma ValSplit(s: seq<Limb>, i: nat)
    requires i <= |s|
    ensures Val(s) == Val(s[..i]) + Scale(i) * Val(s[i..])
  {
    assert s == s[..i] + s[i..];
    ValConcat(s[..i], s[i..]);
  }

  lemma {:induction false} ValBound(s: seq<Limb>)
    ensures Val(s) < Scale(|s|)
  {
    if s != [] {
      ValBound(s[1..]);
      MulLe(Val(s[1..]) + 1, Scale(|s| - 1), BASE);
    }
  }

  lemma {:induction false} ValZero(s: seq<Limb>)
    requires forall i :: 0 <= i < |s| ==> s[i] == 0
    ensures Val(s) == 0
  {
    if s != [] {
      ValZero(s[1..]);
    }
  }

  lemma {:induction false} ValIsZero(s: seq<Limb>)
    requires Val(s) == 0
    ensures forall i :: 0 <= i < |s| ==> s[i] == 0
  {
    if s != [] {
      if Val(s[1..]) > 0 { MulPos(BASE, Val(s[1..])); }
      ValIsZero(s[1..]);
      forall i | 0 <= i < |s|
        ensures s[i] == 0
      {
        if i > 0 { assert s[i] == s[1..][i - 1]; }
      }
    }
  }

  /** A fixed number of limbs represents each number at most once. */
  lemma {:induction false} ValInjective(s: seq<Limb>, t: seq<Limb>)
    requires |s| == |t| && Val(s) == Val(t)
    ensures s == t
  {
    if s != [] {
      DivModUnique(Val(s), BASE, Val(s[1..]), s[0]);
      DivModUnique(Val(t), BASE, Val(t[1..]), t[0]);
      ValInjective(s[1..], t[1..]);
      assert s == [s[0]] + s[1..] && t == [t[0]] + t[1..];
    }
  }

  lemma ValLow(s: seq<Limb>)
    requires |s| > 0
    ensures Val(s) % BASE == s[0] && Val(s) / BASE == Val(s[1..])
  {
    hide *;
    assert s == [s[0]] + s[1..];
    ValUnfold(s[0], s[1..]);
    DivModUnique(Val(s), BASE, Val(s[1..]), s[0]);
  }

  lemma ValParity(s: seq<Limb>)
    requires |s| > 0
    ensures Val(s) % 2 == s[0] % 2
  {
    assert BASE % 2 == 0;
    var h := BASE / 2;
    assert BASE == 2 * h;
    MulAssoc(2, h, Val(s[1..]));
    CongIntro(Val(s), s[0], 2, h * Val(s[1..]));
  }

  /** Changing one limb changes the value by its weight. */
  lemma ValUpdate(s: seq<Limb>, t: seq<Limb>, j: nat)
    requires j < |s| == |t| && forall k :: 0 <= k < |s| && k != j ==> t[k] == s[k]
    ensures Val(t) == Val(s) + Scale(j) * t[j] - Scale(j) * s[j]
  {
    hide Val, Scale;
    ValSplit(s, j);
    ValSplit(t, j);
    ValSuffix(s, j);
    ValSuffix(t, j);
    assert s[..j] == t[..j] && s[j + 1..] == t[j + 1..];
    MulDist(Scale(j), s[j], BASE * Val(s[j + 1..]));
    MulDist(Scale(j), t[j], BASE * Val(t[j + 1..]));
  }

  lemma OneLimb(s: seq<Limb>)
    requires |s| > 0 && s[0] == 1 && forall k :: 0 < k < |s| ==> s[k] == 0
    ensures Val(s) == 1
  {
    ValZero(s[1..]);
  }

  // ----- pointers: an array and an offset into it -----

  /** The n limbs at X + xo and the m limbs at A + ao have no limb in common. */
  predicate Apart(X: array<Limb>, xo: nat, n: nat, A: array<Limb>, ao: nat, m: nat)
  {
    X != A || xo + n <= ao || ao + m <= xo
  }

  /** The same n limbs or no overlap: what the library asks of its operands. */
  predicate SameOrApart(X: array<Limb>, xo: nat, A: array<Limb>, ao: nat, n: nat)
  {
    (X == A && xo == ao) || Apart(X, xo, n, A, ao, n)
  }

  /** Nothing in X changed except the n limbs at offset xo. */
  twostate predicate OnlyWrites(X: array<Limb>, xo: nat, n: nat)
    reads X
  {
    forall k :: 0 <= k < X.Length && !(xo <= k < xo + n) ==> X[k] == old(X[k])
  }

  /** A slice is known from its elements. */
  lemma SliceIs(X: array<Limb>, o: nat, s: seq<Limb>)
    requires o + |s| <= X.Length && forall k :: o <= k < o + |s| ==> X[k] == s[k - o]
    ensures X[o..o + |s|] == s
  {}

  lemma SplitSlice(X: array<Limb>, i: nat, j: nat, k: nat)
    requires i <= j <= k <= X.Length
    ensures X[i..k] == X[i..j] + X[j..k]
  {}

  lemma ZeroSlice(X: array<Limb>, o: nat, n: nat, s: seq<Limb>)
    requires o + n <= X.Length && s == X[o..o + n] && forall k :: o <= k < o + n ==> X[k] == 0
    ensures forall k :: 0 <= k < |s| ==> s[k] == 0
  {}

  lemma PrefixSlice(s: seq<Limb>, p: nat, i: nat, j: nat)
    requires i <= j <= p <= |s|
    ensures s[..p][i..j] == s[i..j]
  {}

  /** Elements that are as they were make a slice that is as it was. */
  lemma KeptSlice(X: array<Limb>, was: seq<Limb>, i: nat, j: nat)
    requires i <= j <= X.Length == |was| && forall k :: i <= k < j ==> X[k] == was[k]
    ensures X[i..j] == was[i..j]
  {}
}
