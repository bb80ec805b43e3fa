/** bignum.c: signed addition, subtraction and multiplication. The result may alias either operand. */
module MpiArith {
  import opened Arith
  import opened Limbs
  import opened Words
  import opened BignumCore
  import opened Mpis

  /** X := |A| + |B|. */
  method AddAbs(X: Mpi, A0: Mpi, B0: Mpi)
    requires X.Ok() && A0.Ok() && B0.Ok() && Separate(X, A0) && Separate(X, B0)
    modifies X, X.p
    ensures X.Ok() && (X.p == old(X.p) || fresh(X.p))
    ensures X.s == 1 && X.Abs() == old(A0.Abs()) + old(B0.Abs())
    ensures X.p.Length >= old(X.p.Length)
  {
    hide Val, Scale;
    var A, B := A0, B0;
    if X == B0 {
      A, B := X, A0;
    }
    if X != A {
      MpiCopy(X, A);
    }
    X.s := 1;
    var j := SignificantLimbs(B.p);
    if j == 0 {
      return;
    }
    AddLimbs(X, B, j);
  }

  /** The rest of AddAbs: adds the j significant limbs of B and propagates the carry. */
  method AddLimbs(X: Mpi, B: Mpi, j: nat)
    requires Separate(X, B) && j <= B.p.Length && Val(B.p[..j]) == B.Abs()
    modifies X, X.p
    ensures X.s == old(X.s) && (X.p == old(X.p) || fresh(X.p)) && X.p.Length >= old(X.p.Length)
    ensures X.Abs() == old(X.Abs()) + old(B.Abs())
  {
    hide Val, Scale;
    ghost var bs := B.p[..j];
    Grow(X, j);
    ghost var xs := X.p[..];
    assert B.p[0..j] == bs && X.p[0..j] == xs[..j];
    var c := Add(X.p, 0, X.p, 0, B.p, 0, j);
    LowPart(xs, X.p[..], j);
    assert X.p[0..j] == X.p[..][..j];
    CarryUp(X, j, c);
  }

  /** Adds the carry c at limb j, growing X if it runs off the end. */
  method CarryUp(X: Mpi, j0: nat, c0: Limb)
    requires c0 <= 1 && j0 <= X.p.Length
    modifies X, X.p
    ensures X.s == old(X.s) && (X.p == old(X.p) || fresh(X.p)) && X.p.Length >= old(X.p.Length)
    ensures X.Abs() == old(X.Abs()) + c0 * Scale(j0)
  {
    hide Val, Scale, WAdd;
    ghost var sum := X.Abs() + c0 * Scale(j0);
    var j: nat, c: Limb := j0, c0;
    while c != 0
      invariant c <= 1 && j <= X.p.Length && X.p.Length >= old(X.p.Length)
      invariant X.s == old(X.s) && (X.p == old(X.p) || fresh(X.p))
      invariant X.Abs() + c * Scale(j) == sum
      decreases if c == 0 then 0 else X.p.Length - j + 1
    {
      if j >= X.p.Length {
        Grow(X, j + 1);
      }
      ghost var ys := X.p[..];
      var y := X.p[j];
      WAddCarry(y, c);
      var t := WAdd(y, c);
      X.p[j] := t;
      ValUpdate(ys, X.p[..], j);
      CarryOn(Val(ys), Val(X.p[..]), y, t, c, Bit(t < c), j, sum);
      c := Bit(t < c);
      j := j + 1;
    }
    assert c * Scale(j) == 0;
  }

  /** Changing only the low j limbs. */
  lemma LowPart(s: seq<Limb>, t: seq<Limb>, j: nat)
    requires j <= |s| == |t| && forall k :: j <= k < |s| ==> t[k] == s[k]
    ensures Val(t) - Val(t[..j]) == Val(s) - Val(s[..j])
  {
    hide Val, Scale;
    ValSplit(s, j);
    ValSplit(t, j);
    assert s[j..] == t[j..];
  }

  lemma CarryOn(v: int, w: int, y: Limb, t: Limb, c: Limb, c': Limb, j: nat, sum: int)
    requires v + c * Scale(j) == sum && w == v + Scale(j) * t - Scale(j) * y
    requires t + c' * BASE == y + c
    ensures w + c' * Scale(j + 1) == sum
  {
    hide *;
    ScaleNext(j);
    assert Scale(j) * (t + c' * BASE) == Scale(j) * (y + c);
    MulAssoc(c', BASE, Scale(j));
  }

  /** X := |A| - |B|, or an error exactly when |A| < |B|. */
  method SubAbs(X: Mpi, A: Mpi, B: Mpi) returns (ret: Ret)
    requires X.Ok() && A.Ok() && B.Ok() && Separate(X, A) && Separate(X, B)
    modifies X, X.p
    ensures X.Ok() && (X.p == old(X.p) || fresh(X.p)) && X.p.Length >= old(X.p.Length)
    ensures ret == if old(A.Abs()) < old(B.Abs()) then NegativeValue else Success
    ensures ret == Success ==> X.s == 1 && X.Abs() == old(A.Abs()) - old(B.Abs())
  {
    hide Val, Scale;
    ghost var a: int, b: int := A.Abs(), B.Abs();
    var n := SignificantLimbs(B.p);
    ValBound(A.p[..]);
    if n > A.p.Length {
      MoreLimbs(b, a, n, A.p.Length);
      return NegativeValue;
    }
    var carry := SubLow(X, A, B, n);
    if carry != 0 {
      ghost var xs := X.p[..];
      assert X.p[n..X.p.Length] == xs[n..];
      carry := SubInt(X.p, n, X.p, n, carry, X.p.Length - n);
      assert X.p[n..X.p.Length] == X.p[..][n..];
      BorrowOn(xs, X.p[..], n, 1, carry, a - b);
      ValBound(X.p[..]);
      if carry != 0 {
        MulLe(1, carry, Scale(X.p.Length));
        return NegativeValue;
      }
    }
    X.s := 1;
    ret := Success;
  }

  /** The part of SubAbs up to the borrow out of the n significant limbs of B. */
  method SubLow(X: Mpi, A: Mpi, B: Mpi, n: nat) returns (carry: Limb)
    requires Separate(X, A) && Separate(X, B) && n <= A.p.Length && n <= B.p.Length
    requires forall k :: n <= k < B.p.Length ==> B.p[k] == 0
    modifies X, X.p
    ensures X.s == old(X.s) && (X.p == old(X.p) || fresh(X.p)) && X.p.Length >= old(X.p.Length)
    ensures carry <= 1 && n <= X.p.Length
    ensures Val(X.p[..]) - carry * Scale(n) == old(Val(A.p[..])) - old(Val(B.p[..n]))
  {
    hide Val, Scale;
    ghost var as_, bs := A.p[..], B.p[..n];
    HighLimbsOf(X, A, n);
    assert B.p[0..n] == bs && A.p[0..n] == as_[..n];
    ghost var ys := X.p[..];
    ghost var xs := as_[..n] + ys[n..];
    LowOf(as_, xs, n);
    carry := Sub(X.p, 0, A.p, 0, B.p, 0, n);
    LowPart(xs, X.p[..], n);
    assert X.p[0..n] == X.p[..][..n] && xs[..n] == as_[..n];
  }

  lemma LowOf(a: seq<Limb>, x: seq<Limb>, n: nat)
    requires n <= |a| <= |x| && a == x[..|a|] && forall k :: |a| <= k < |x| ==> x[k] == 0
    ensures Val(x) == Val(a)
  {
    PadTop(x, |a|);
  }

  /** Sets the limbs of X from n on to those of A, without touching the lower ones. */
  method HighLimbsOf(X: Mpi, A: Mpi, n: nat)
    requires Separate(X, A) && n <= A.p.Length
    modifies X, X.p
    ensures X.s == old(X.s) && (X.p == old(X.p) || fresh(X.p)) && X.p.Length >= old(X.p.Length)
    ensures A.p == old(A.p) && A.p[..] == old(A.p[..]) && A.p.Length <= X.p.Length
    ensures forall k :: n <= k < A.p.Length ==> X.p[k] == A.p[k]
    ensures forall k :: A.p.Length <= k < X.p.Length ==> X.p[k] == 0
    ensures forall k :: 0 <= k < n && k < old(X.p.Length) ==> X.p[k] == old(X.p[k])
  {
    Grow(X, A.p.Length);
    var an := A.p.Length;
    if an > n && A != X {
      ghost var as_ := A.p[..];
      Copy(X.p, n, A.p, n, an - n);
      forall k | n <= k < an
        ensures X.p[k] == as_[k]
      {
        assert X.p[k] == X.p[n..n + (an - n)][k - n];
      }
    }
    if X.p.Length > an {
      Zero(X.p, an, X.p.Length - an);
    }
  }

  lemma BorrowOn(xs: seq<Limb>, ys: seq<Limb>, n: nat, c: Limb, c': Limb, d: int)
    requires n <= |xs| == |ys| && forall k :: 0 <= k < n ==> ys[k] == xs[k]
    requires Val(xs) - c * Scale(n) == d
    requires Val(ys[n..]) - c' * Scale(|xs| - n) == Val(xs[n..]) - c
    ensures Val(ys) - c' * Scale(|xs|) == d
  {
    hide Val, Scale;
    ValSplit(xs, n);
    ValSplit(ys, n);
    assert ys[..n] == xs[..n];
    PowAdd(BASE, n, |xs| - n);
    ScaleSum(n, |xs| - n);
    BorrowArith(Val(xs[n..]), Val(ys[n..]), c, c', Scale(n), Scale(|xs| - n));
  }

  lemma BorrowArith(x: int, y: int, c: int, c': int, p: int, q: int)
    requires y - c' * q == x - c
    ensures p * y - c' * (p * q) == p * x - c * p
  {
    assert p * (y - c' * q) == p * (x - c);
  }

  /** X := A + B when flip is 1, A - B when flip is -1. */
  method AddSub(X: Mpi, A: Mpi, B: Mpi, flip: int)
    requires X.Ok() && A.Ok() && B.Ok() && Separate(X, A) && Separate(X, B) && (flip == 1 || flip == -1)
    modifies X, X.p
    ensures X.Ok() && (X.p == old(X.p) || fresh(X.p)) && X.p.Length >= old(X.p.Length)
    ensures X.V() == old(if flip == 1 then A.V() + B.V() else A.V() - B.V())
    ensures old(A.Normal()) ==> X.Normal()
  {
    hide Val;
    var s := A.s;
    if A.s * B.s * flip < 0 {
      var cmp := CmpAbs(A, B);
      if cmp >= 0 {
        var _ := SubAbs(X, A, B);
        X.s := if cmp == 0 then 1 else s;
      } else {
        var _ := SubAbs(X, B, A);
        X.s := -s;
      }
    } else {
      AddAbs(X, A, B);
      X.s := s;
    }
  }

  method AddMpi(X: Mpi, A: Mpi, B: Mpi)
    requires X.Ok() && A.Ok() && B.Ok() && Separate(X, A) && Separate(X, B)
    modifies X, X.p
    ensures X.Ok() && (X.p == old(X.p) || fresh(X.p)) && X.p.Length >= old(X.p.Length)
    ensures X.V() == old(A.V() + B.V())
    ensures old(A.Normal()) ==> X.Normal()
  {
    AddSub(X, A, B, 1);
  }

  method SubMpi(X: Mpi, A: Mpi, B: Mpi)
    requires X.Ok() && A.Ok() && B.Ok() && Separate(X, A) && Separate(X, B)
    modifies X, X.p
    ensures X.Ok() && (X.p == old(X.p) || fresh(X.p)) && X.p.Length >= old(X.p.Length)
    ensures X.V() == old(A.V() - B.V())
    ensures old(A.Normal()) ==> X.Normal()
  {
    AddSub(X, A, B, -1);
  }

  method AddInt(X: Mpi, A: Mpi, b: Sint)
    requires X.Ok() && A.Ok() && Separate(X, A)
    modifies X, X.p
    ensures X.Ok() && (X.p == old(X.p) || fresh(X.p)) && X.p.Length >= old(X.p.Length)
    ensures X.V() == old(A.V()) + b
    ensures old(A.Normal()) ==> X.Normal()
  {
    var B := Stack(b);
    AddMpi(X, A, B);
  }

  method MpiSubInt(X: Mpi, A: Mpi, b: Sint)
    requires X.Ok() && A.Ok() && Separate(X, A)
    modifies X, X.p
    ensures X.Ok() && (X.p == old(X.p) || fresh(X.p)) && X.p.Length >= old(X.p.Length)
    ensures X.V() == old(A.V()) - b
    ensures old(A.Normal()) ==> X.Normal()
  {
    var B := Stack(b);
    SubMpi(X, A, B);
  }

  // ----- multiplication -----

  /** X := A * B. */
  method MulMpi(X: Mpi, A0: Mpi, B0: Mpi)
    requires X.Ok() && A0.Ok() && B0.Ok() && Separate(X, A0) && Separate(X, B0)
    modifies X, X.p
    ensures X.Ok() && (X.p == old(X.p) || fresh(X.p)) && X.p.Length >= old(X.p.Length)
    ensures X.V() == old(A0.V() * B0.V())
    ensures X.Normal()
  {
    hide Val, Scale, Signed;
    var A, B := A0, B0;
    if X == A0 {
      A := new Mpi.Init();
      MpiCopy(A, A0);
    }
    if X == B0 {
      B := new Mpi.Init();
      MpiCopy(B, B0);
    }
    MulInto(X, A, B);
  }

  /** The multiplication proper, once the operands are separate from the result. */
  method MulInto(X: Mpi, A: Mpi, B: Mpi)
    requires A.Ok() && B.Ok() && Separate(X, A) && Separate(X, B) && X != A && X != B
    modifies X, X.p
    ensures X.Ok() && (X.p == old(X.p) || fresh(X.p)) && X.p.Length >= old(X.p.Length)
    ensures X.V() == A.V() * B.V()
    ensures X.Normal()
  {
    hide Val, Scale, Signed;
    var i := SignificantLimbs(A.p);
    var j := SignificantLimbs(B.p);
    var zero := i == 0 || j == 0;
    Grow(X, i + j);
    LSet(X, 0);
    SintParts(0);
    assert A.p[0..i] == A.p[..i] && B.p[0..j] == B.p[..j];
    MulLimbs(X.p, A.p, i, B.p, j);
    ProductSign(A.s, B.s, A.Abs(), B.Abs(), zero);
    ProductNonzero(i, j, A.Abs(), B.Abs());
    X.s := if zero then 1 else A.s * B.s;
  }

  lemma ProductNonzero(i: nat, j: nat, a: nat, b: nat)
    requires i > 0 ==> Scale(i - 1) <= a
    requires j > 0 ==> Scale(j - 1) <= b
    ensures i > 0 && j > 0 ==> a * b > 0
  {
    hide Scale;
    if i > 0 && j > 0 {
      ScalePos(i - 1);
      ScalePos(j - 1);
      MulPos(a, b);
    }
  }

  method MulLimbs(x: array<Limb>, a: array<Limb>, i: nat, b: array<Limb>, j: nat)
    requires i <= a.Length && j <= b.Length && i + j <= x.Length && x != a && x != b
    requires forall k :: 0 <= k < x.Length ==> x[k] == 0
    modifies x
    ensures Val(x[..]) == Val(a[0..i]) * Val(b[0..j])
  {
    hide Val, Scale;
    Mul(x, 0, a, 0, i, b, 0, j);
    PadTop(x[..], i + j);
    assert x[..][..i + j] == x[0..0 + i + j];
    assert a[0..0 + i] == a[0..i] && b[0..0 + j] == b[0..j];
  }

  lemma ProductSign(s: int, t: int, a: nat, b: nat, zero: bool)
    requires (s == 1 || s == -1) && (t == 1 || t == -1) && (zero ==> a == 0 || b == 0)
    ensures (s * t == 1 || s * t == -1) && 0 <= a * b
    ensures Signed(if zero then 1 else s * t, a * b) == Signed(s, a) * Signed(t, b)
  {
    MulNonNeg(a, b);
    if zero { assert a * b == 0; }
  }

  /** X := A * b for one limb b, as A + A * (b - 1). */
  method MulInt(X: Mpi, A: Mpi, b: Limb)
    requires X.Ok() && A.Ok() && Separate(X, A)
    modifies X, X.p
    ensures X.Ok() && (X.p == old(X.p) || fresh(X.p)) && X.p.Length >= old(X.p.Length)
    ensures X.V() == old(A.V()) * b
    ensures X.Normal()
  {
    hide Val, Scale;
    ghost var va, a := A.V(), A.Abs();
    var n := SignificantLimbs(A.p);
    ghost var as_ := A.p[..n];
    if b == 0 || n == 0 {
      LSet(X, 0);
      return;
    }
    Grow(X, n + 1);
    MpiCopy(X, A);
    assert X.Abs() == a && A.p[0..n] == as_;
    assert X.p[0..X.p.Length] == X.p[..];
    var c := Mla(X.p, 0, X.p.Length, A.p, 0, n, b - 1);
    assert X.p[0..X.p.Length] == X.p[..];
    ValBound(X.p[..]);
    MulIntFits(a, b, n, X.p.Length, Val(X.p[..]), c);
    ProductSign(X.s, 1, a, b, false);
    ScalePos(n - 1);
    MulPos(a, b);
  }

  lemma MulIntFits(a: nat, b: Limb, n: nat, m: nat, x: nat, c: Limb)
    requires b > 0 && n < m && a < Scale(n) && x + c * Scale(m) == a + (b - 1) * a
    ensures x == a * b
  {
    hide *;
    MulLe(b, BASE, a);
    MulLe(a, Scale(n), BASE);
    ScaleNext(n);
    ScaleMono(n + 1, m);
    MulDist(a, b, 1);
    if c > 0 { MulLe(1, c, Scale(m)); MulLt(a, Scale(n), BASE); }
  }
}
