/** bignum.c: signed numbers of any size. An object holds a sign and a limb array that
    grows on demand; its value is the sign times the number the limbs stand for. */
module Mpis {
  import opened Arith
  import opened NumberTheory
  import opened Limbs
  import opened Words
  import opened BignumCore
  import opened Shifts
  import opened BitLength

  /** The return codes that do not depend on memory running out. */
  datatype Ret =
    Success | BadInputData | DivisionByZero | NegativeValue | NotAcceptable | InvalidCharacter | BufferTooSmall

  class Mpi {
    var s: int
    var p: array<Limb>

    constructor Init()
      ensures Ok() && s == 1 && p.Length == 0 && fresh(p)
    {
      s := 1;
      p := new Limb[0];
    }

    ghost predicate Ok()
      reads this
    {
      s == 1 || s == -1
    }

    ghost function Abs(): nat
      reads this, p
    {
      Val(p[..])
    }

    /** The number 0 is held with the sign +1. */
    ghost predicate Normal()
      reads this, p
    {
      Abs() == 0 ==> s == 1
    }

    ghost function V(): int
      reads this, p
    {
      Signed(s, Abs())
    }
  }

  function Signed(s: int, a: nat): int
  {
    if s == -1 then -(a as int) else a
  }

  /** The same object, or objects that do not share limbs. */
  ghost predicate Separate(X: Mpi, Y: Mpi)
    reads X, Y
  {
    X == Y || X.p != Y.p
  }

  // ----- machine integers -----

  /** mbedtls_mpi_sint. */
  type Sint = z: int | 0 <= 2 * z + BASE < 2 * BASE witness 0

  /** The cast from mbedtls_mpi_sint to mbedtls_mpi_uint. */
  function Unsigned(z: Sint): Limb
  {
    if z >= 0 then z else z + BASE
  }

  function SintAbs(z: Sint): Limb
  {
    if z >= 0 then z else WSub(0, Unsigned(z))
  }

  /** The sign bit, mapped from 0, 1 to 1, -1. */
  function ToSign(z: Sint): int
  {
    Shr(Unsigned(z), LIMB_BITS - 1) * -2 + 1
  }

  /** The magnitude and sign of every machine integer, the most negative one included. */
  lemma SintParts(z: Sint)
    ensures SintAbs(z) == if z >= 0 then z else -(z as int)
    ensures ToSign(z) == if z >= 0 then 1 else -1
    ensures Signed(ToSign(z), SintAbs(z)) == z
  {
    hide Pow;
    RadixIsPower();
    PowNext(LIMB_BITS - 1);
    if z >= 0 { SmallMod(z, BASE / 2); } else { DivModUnique(z + BASE, BASE / 2, 1, z + BASE / 2); }
  }

  // ----- size -----

  method Grow(X: Mpi, nblimbs: nat)
    modifies X
    ensures X.s == old(X.s) && X.Abs() == old(X.Abs())
    ensures X.p.Length == if old(X.p.Length) < nblimbs then nblimbs else old(X.p.Length)
    ensures if X.p.Length == old(X.p.Length) then X.p == old(X.p) else fresh(X.p)
    ensures forall k :: 0 <= k < old(X.p.Length) ==> X.p[k] == old(X.p[k])
    ensures forall k :: old(X.p.Length) <= k < X.p.Length ==> X.p[k] == 0
  {
    hide Val, Scale;
    if X.p.Length < nblimbs {
      var p := new Limb[nblimbs](_ => 0);
      ghost var x := X.p[..];
      Copy(p, 0, X.p, 0, X.p.Length);
      assert X.p[0..X.p.Length] == x;
      assert p[0..X.p.Length] == x;
      PadTop(p[..], |x|);
      assert p[..|x|] == x;
      X.p := p;
    }
  }

  /** Zero limbs at the top do not change the value. */
  lemma PadTop(s: seq<Limb>, i: nat)
    requires i <= |s| && forall k :: i <= k < |s| ==> s[k] == 0
    ensures Val(s) == Val(s[..i])
  {
    hide Val, Scale;
    ValSplit(s, i);
    ValZero(s[i..]);
    assert Scale(i) * 0 == 0;
  }

  /** The number of limbs up to the highest nonzero one. */
  method SignificantLimbs(p: array<Limb>) returns (i: nat)
    ensures i <= p.Length && forall k :: i <= k < p.Length ==> p[k] == 0
    ensures i > 0 ==> p[i - 1] != 0
    ensures Val(p[..]) == Val(p[..i]) < Scale(i)
    ensures if i > 0 then Scale(i - 1) <= Val(p[..]) else Val(p[..]) == 0
  {
    hide Val, Scale;
    i := p.Length;
    while i > 0
      invariant i <= p.Length && forall k :: i <= k < p.Length ==> p[k] == 0
    {
      if p[i - 1] != 0 {
        break;
      }
      i := i - 1;
    }
    PadTop(p[..], i);
    assert p[..][..i] == p[..i];
    ValBound(p[..i]);
    if i > 0 {
      assert p[..i][i - 1] != 0;
      TopLimb(p[..i]);
    } else {
      ValZero(p[..]);
    }
  }

  lemma TopLimb(s: seq<Limb>)
    requires |s| > 0 && s[|s| - 1] != 0
    ensures Scale(|s| - 1) <= Val(s)
  {
    hide Val, Scale;
    var n := |s| - 1;
    assert s[..n + 1] == s;
    ValPrefix(s, n);
    ScalePos(n);
    MulLe(1, s[n], Scale(n));
  }

  /** Numbers with different limb counts compare like the counts. */
  lemma MoreLimbs(x: nat, y: nat, i: nat, j: nat)
    requires j < i && y < Scale(j) && Scale(i - 1) <= x
    ensures y < x
  {
    hide Scale;
    ScaleMono(j, i - 1);
  }

  lemma ScaleMono(m: nat, n: nat)
    requires m <= n
    ensures Scale(m) <= Scale(n)
  {
    PowMono(BASE, m, n);
  }

  // ----- assignment -----

  /** Copies the significant limbs of Y; X never shrinks. */
  method MpiCopy(X: Mpi, Y: Mpi)
    requires X.Ok() && Y.Ok() && Separate(X, Y)
    modifies X, X.p
    ensures X.Ok() && (X.p == old(X.p) || fresh(X.p))
    ensures X.V() == old(Y.V()) && X.Abs() == old(Y.Abs()) && X.p.Length >= old(X.p.Length)
    ensures X == Y ==> X.p == old(X.p) && X.p[..] == old(X.p[..]) && X.s == old(X.s)
    ensures X != Y ==> (Y.p.Length > 0 ==> X.s == Y.s)
    ensures X != Y && X.p.Length > old(X.p.Length) ==> X.p.Length == 1 || Scale(X.p.Length - 1) <= X.Abs()
    ensures X != Y && Y.p.Length > 0 ==> X.p.Length > 0
    ensures old(X.Normal() && Y.Normal()) ==> X.Normal()
    ensures X.p.Length <= old(X.p.Length) || X.p.Length <= old(Y.p.Length)
  {
    hide Val, Scale;
    if X == Y {
      return;
    }
    if Y.p.Length == 0 {
      if X.p.Length != 0 {
        X.s := 1;
        Zero(X.p, 0, X.p.Length);
      }
      ValZero(X.p[..]);
      ValZero(Y.p[..]);
      return;
    }
    ghost var ys := Y.p[..];
    var i := Y.p.Length - 1;
    while i > 0
      invariant 0 <= i < Y.p.Length && forall k :: i < k < Y.p.Length ==> Y.p[k] == 0
    {
      if Y.p[i] != 0 {
        break;
      }
      i := i - 1;
    }
    i := i + 1;
    X.s := Y.s;
    if X.p.Length < i {
      Grow(X, i);
    } else {
      Zero(X.p, i, X.p.Length - i);
    }
    Copy(X.p, 0, Y.p, 0, i);
    assert Y.p[..] == ys;
    PadTop(ys, i);
    PadTop(X.p[..], i);
    assert X.p[..][..i] == X.p[0..i] == Y.p[0..i] == ys[..i];
    if i > 1 { TopLimb(ys[..i]); }
  }

  /** X := z. */
  method LSet(X: Mpi, z: Sint)
    modifies X, X.p
    ensures X.Ok() && (X.p == old(X.p) || fresh(X.p))
    ensures X.V() == z && X.Abs() == SintAbs(z) && X.s == ToSign(z) && X.Normal()
    ensures X.p.Length == if old(X.p.Length) < 1 then 1 else old(X.p.Length)
    ensures old(X.p.Length) > 0 ==> X.p == old(X.p)
    ensures X.p[0] == SintAbs(z) && forall k :: 0 < k < X.p.Length ==> X.p[k] == 0
  {
    hide Val, Scale, ToSign, SintAbs;
    Grow(X, 1);
    Zero(X.p, 0, X.p.Length);
    SintParts(z);
    X.p[0] := SintAbs(z);
    X.s := ToSign(z);
    PadTop(X.p[..], 1);
    assert X.p[..][..1] == [SintAbs(z)];
    ValOne(SintAbs(z));
  }

  /** A number on the stack with one limb, as cmp_int, add_int, sub_int and div_int build it. */
  method Stack(z: Sint) returns (Y: Mpi)
    ensures fresh(Y) && fresh(Y.p) && Y.Ok() && Y.Normal() && Y.V() == z && Y.p.Length == 1
  {
    hide Val, ToSign, SintAbs;
    Y := new Mpi.Init();
    Y.p := new Limb[1];
    SintParts(z);
    Y.p[0] := SintAbs(z);
    Y.s := ToSign(z);
    assert Y.p[..] == [SintAbs(z)];
    ValOne(SintAbs(z));
  }

  // ----- bits and shifts -----

  method GetBit0(X: Mpi) returns (b: nat)
    ensures b == X.Abs() % 2
  {
    hide Val, Scale;
    if X.p.Length == 0 {
      ValZero(X.p[..]);
      return 0;
    }
    ValParity(X.p[..]);
    b := X.p[0] % 2;
  }

  method Bitlen(X: Mpi) returns (r: nat)
    ensures r == BitLen(X.Abs())
  {
    hide BitLen, Val;
    assert X.p[0..X.p.Length] == X.p[..];
    r := CoreBitlen(X.p, 0, X.p.Length);
  }

  function BitsToLimbs(i: nat): nat
  {
    i / LIMB_BITS + (if i % LIMB_BITS != 0 then 1 else 0)
  }

  /** X := X * 2^count, growing as needed so that no bit is lost. */
  method MpiShiftL(X: Mpi, count: nat)
    modifies X, X.p
    ensures X.s == old(X.s) && (X.p == old(X.p) || fresh(X.p))
    ensures X.Abs() == old(X.Abs()) * Pow(2, count) && X.V() == old(X.V()) * Pow(2, count)
    ensures X.Normal() <==> old(X.Normal())
    ensures X.p.Length == var m := BitsToLimbs(old(BitLen(X.Abs())) + count);
                          if old(X.p.Length) < m then m else old(X.p.Length)
  {
    hide Val, Scale, Pow, BitLen, BitsToLimbs;
    ghost var x := X.Abs();
    var l := Bitlen(X);
    var i := l + count;
    EnoughLimbs(i, X.p.Length);
    if X.p.Length * LIMB_BITS < i {
      Grow(X, BitsToLimbs(i));
    }
    var n := X.p.Length;
    assert X.p[0..n] == X.p[..];
    ShiftL(X.p, 0, n, count);
    assert X.p[0..n] == X.p[..];
    ShiftFits(x, l, count, n);
    SignedScale(X.s, x, Pow(2, count));
    PowPos(2, count);
    if x > 0 { MulPos(x, Pow(2, count)); }
    assert x == 0 ==> x * Pow(2, count) == 0;
  }

  lemma SignedScale(s: int, a: nat, p: nat)
    ensures 0 <= a * p && Signed(s, a * p) == Signed(s, a) * p
  {
    MulNonNeg(a, p);
  }

  lemma EnoughLimbs(i: nat, n: nat)
    ensures n * LIMB_BITS < i <==> n < BitsToLimbs(i)
    ensures i <= BitsToLimbs(i) * LIMB_BITS
  {}

  lemma ShiftFits(x: nat, l: nat, count: nat, n: nat)
    requires l == BitLen(x) && l + count <= n * LIMB_BITS
    ensures Scale(n) > 0 && (x * Pow(2, count)) % Scale(n) == x * Pow(2, count)
  {
    hide BitLen, Pow, Scale;
    BitLenBound(x, l);
    PowPos(2, count);
    PowAdd(2, l, count);
    PowMono(2, l + count, n * LIMB_BITS);
    MulLt(x, Pow(2, l), Pow(2, count));
    MulNonNeg(x, Pow(2, count));
    ScaleIsPower(n);
    SmallMod(x * Pow(2, count), Scale(n));
  }

  /** X := X / 2^count, on the magnitude. A negative number is left with the sign -1 even when nothing remains. */
  method MpiShiftR(X: Mpi, count: nat)
    modifies X.p
    ensures Pow(2, count) > 0 && X.Abs() == old(X.Abs()) / Pow(2, count)
    ensures X.Normal() <==> X.s == 1 || old(X.Abs() >= Pow(2, count))
  {
    hide Val, Scale, Pow;
    QuotientIsZero(X.Abs(), Pow(2, count));
    PowPos(2, count);
    assert X.p[0..X.p.Length] == X.p[..];
    if X.p.Length != 0 {
      ShiftR(X.p, 0, X.p.Length, count);
      assert X.p[0..X.p.Length] == X.p[..];
    } else {
      ValZero(X.p[..]);
      SmallMod(0, Pow(2, count));
    }
  }

  lemma QuotientIsZero(x: nat, p: nat)
    ensures p > 0 ==> (x / p == 0 <==> x < p)
  {
    if p > 0 {
      DivModDef(x, p);
      if x < p { SmallMod(x, p); }
    }
  }

  /** -1 shifted right by one bit is a zero with the sign -1. */
  method MinusZero() returns (X: Mpi)
    ensures X.Ok() && X.s == -1 && X.Abs() == 0 && !X.Normal()
  {
    hide Val, Signed;
    X := Stack(-1);
    MinusOneParts(X.s, X.Abs());
    MpiShiftR(X, 1);
    PowOne();
    QuotientIsZero(1, 2);
  }

  lemma MinusOneParts(s: int, a: nat)
    requires (s == 1 || s == -1) && Signed(s, a) == -1
    ensures s == -1 && a == 1
  {}

  lemma PowOne()
    ensures Pow(2, 1) == 2
  {
    assert Pow(2, 0) == 1;
  }

  // ----- comparison -----

  function Sign(x: int): int
  {
    if x > 0 then 1 else if x < 0 then -1 else 0
  }

  /** Compares i limbs from the top, as the last loop of cmp_abs and cmp_mpi does. */
  method CmpLimbs(p: array<Limb>, q: array<Limb>, n: nat) returns (c: int)
    requires n <= p.Length && n <= q.Length
    ensures c == Sign(Val(p[..n]) - Val(q[..n]))
  {
    hide Val, Scale;
    ghost var ps, qs := p[..n], q[..n];
    var i := n;
    assert ps[i..] == qs[i..] == [];
    while i > 0
      invariant 0 <= i <= n && Val(ps[i..]) == Val(qs[i..])
    {
      var a, b := p[i - 1], q[i - 1];
      assert a == ps[i - 1] && b == qs[i - 1];
      ValSplit(ps, i - 1);
      ValSplit(qs, i - 1);
      ValSuffix(ps, i - 1);
      ValSuffix(qs, i - 1);
      ValBound(ps[..i - 1]);
      ValBound(qs[..i - 1]);
      HighLimbs(Val(ps[..i - 1]), Val(ps[i - 1..]), Val(qs[..i - 1]), Val(qs[i - 1..]), Scale(i - 1));
      if a > b {
        return 1;
      }
      if a < b {
        return -1;
      }
      i := i - 1;
    }
    assert ps[0..] == ps && qs[0..] == qs;
    c := 0;
  }

  lemma HighLimbs(x0: nat, x1: nat, y0: nat, y1: nat, p: nat)
    requires x0 < p && y0 < p
    ensures x1 > y1 ==> x0 + p * x1 > y0 + p * y1
    ensures x1 < y1 ==> x0 + p * x1 < y0 + p * y1
  {
    if x1 > y1 { MulLe(y1 + 1, x1, p); MulDist(p, y1, 1); }
    if x1 < y1 { MulLe(x1 + 1, y1, p); MulDist(p, x1, 1); }
  }

  method CmpAbs(X: Mpi, Y: Mpi) returns (c: int)
    ensures c == Sign(X.Abs() - Y.Abs())
  {
    hide Val, Scale;
    var i := SignificantLimbs(X.p);
    var j := SignificantLimbs(Y.p);
    if i > j {
      MoreLimbs(X.Abs(), Y.Abs(), i, j);
      return 1;
    }
    if j > i {
      MoreLimbs(Y.Abs(), X.Abs(), j, i);
      return -1;
    }
    c := CmpLimbs(X.p, Y.p, i);
  }

  method CmpMpi(X: Mpi, Y: Mpi) returns (c: int)
    requires X.Ok() && Y.Ok()
    ensures c == Sign(X.V() - Y.V())
  {
    hide Val, Scale;
    var i := SignificantLimbs(X.p);
    var j := SignificantLimbs(Y.p);
    if i == 0 && j == 0 {
      return 0;
    }
    if i > j {
      MoreLimbs(X.Abs(), Y.Abs(), i, j);
      return X.s;
    }
    if j > i {
      MoreLimbs(Y.Abs(), X.Abs(), j, i);
      return -Y.s;
    }
    ScalePos(i - 1);
    if X.s > 0 && Y.s < 0 {
      return 1;
    }
    if Y.s > 0 && X.s < 0 {
      return -1;
    }
    c := CmpLimbs(X.p, Y.p, i);
    c := if c > 0 then X.s else if c < 0 then -X.s else 0;
  }

  method CmpInt(X: Mpi, z: Sint) returns (c: int)
    requires X.Ok()
    ensures c == Sign(X.V() - z)
  {
    var Y := Stack(z);
    c := CmpMpi(X, Y);
  }
}
