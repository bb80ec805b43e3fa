/** bignum.c: modular exponentiation of signed numbers. */
module MpiExpMod {
  import opened Arith
  import opened NumberTheory
  import opened Limbs
  import opened BignumCore
  import opened Montgomery
  import opened MontForm
  import opened ExpMod
  import opened ModRaw
  import opened Mpis
  import opened MpiArith
  import opened Division
  import opened MpiMod
  import opened MpiGcd

  /** MBEDTLS_MPI_MAX_BITS, a build option. */
  const MPI_MAX_BITS: nat

  // ----- what the function computes -----

  /** a^e for any integer a. */
  function IntPow(a: int, e: nat): int
  {
    if e == 0 then 1 else a * IntPow(a, e - 1)
  }

  /** The number the function returns: s and x are the sign and magnitude of the base, empty says that the
      exponent has no limbs at all, and same that the result aliases the base. */
  ghost function Result(s: int, x: nat, e: nat, n: nat, empty: bool, same: bool): int
    requires n > 0
  {
    if empty then 1
    else if s == -1 && e % 2 == 1 && !same then n - Pow(x, e) % n
    else Pow(x, e) % n
  }

  /** The arguments for which that is not A^E mod N. */
  predicate Exceptional(s: int, x: nat, e: nat, n: nat, empty: bool, same: bool)
    requires n > 0
  {
    if empty then n == 1
    else s == -1 && e % 2 == 1 && ((Pow(x, e) % n == 0) != same)
  }

  lemma {:induction false} SignedPower(s: int, x: nat, e: nat)
    requires s == 1 || s == -1
    ensures IntPow(Signed(s, x), e) == Signed(if e % 2 == 1 then s else 1, Pow(x, e))
  {
    if e > 0 {
      SignedPower(s, x, e - 1);
      SignOfProduct(x, Pow(x, e - 1));
    }
  }

  lemma SignOfProduct(x: int, y: int)
    ensures (-x) * y == -(x * y) && (-x) * (-y) == x * y
  {}

  /** For an odd modulus, the result is A^E mod N exactly outside the exceptional cases: an exponent without
      limbs and N = 1; or a negative base with an odd exponent, where the result is N instead of 0 when N divides
      the power, and, when the result aliases the base, the sign is lost unless N divides the power. */
  lemma ResultCorrectIff(s: int, x: nat, e: nat, n: nat, empty: bool, same: bool)
    requires n % 2 == 1 && (s == 1 || s == -1) && (empty ==> e == 0)
    ensures Result(s, x, e, n, empty, same) == IntPow(Signed(s, x), e) % n <==> !Exceptional(s, x, e, n, empty, same)
  {
    hide Pow;
    SignedPower(s, x, e);
    var p := Pow(x, e);
    if empty {
      PowStart(x);
      if n > 1 { SmallMod(1, n); }
    } else if s == -1 && e % 2 == 1 {
      NegResidue(p, n);
    }
  }

  /** A non-negative base or an even exponent, neither without limbs: always right. */
  lemma RightWithoutSign(s: int, x: nat, e: nat, n: nat, same: bool)
    requires n % 2 == 1 && (s == 1 || s == -1) && (s == 1 || e % 2 == 0)
    ensures Result(s, x, e, n, false, same) == IntPow(Signed(s, x), e) % n
  {
    ResultCorrectIff(s, x, e, n, false, same);
  }

  /** A negative base without common factor with N > 1 and an odd exponent: right exactly when the result does
      not overwrite the base. */
  lemma RightForCoprimeIff(x: nat, e: nat, n: nat, same: bool)
    requires n % 2 == 1 && n > 1 && e % 2 == 1 && Gcd(x, n) == 1
    ensures Result(-1, x, e, n, false, same) == IntPow(Signed(-1, x), e) % n <==> !same
  {
    hide Gcd, Pow, Signed;
    ResultCorrectIff(-1, x, e, n, false, same);
    CoprimePower(x, e, n);
  }

  /** A negative multiple of N and an odd exponent: right exactly when the result does overwrite the base. */
  lemma RightForMultipleIff(x: nat, e: nat, n: nat, same: bool)
    requires n % 2 == 1 && e % 2 == 1 && x % n == 0
    ensures Result(-1, x, e, n, false, same) == IntPow(Signed(-1, x), e) % n <==> same
  {
    hide Pow, Signed;
    ResultCorrectIff(-1, x, e, n, false, same);
    MultiplePower(x, e, n);
  }

  lemma MultiplePower(x: nat, e: nat, n: nat)
    requires e > 0 && n > 0 && x % n == 0
    ensures Pow(x, e) % n == 0
  {
    DividesMul(n, x, Pow(x, e - 1));
  }

  lemma {:induction false} CoprimePower(x: nat, e: nat, n: nat)
    requires n > 1 && Gcd(x, n) == 1
    ensures Pow(x, e) % n != 0
  {
    hide Gcd;
    if e == 0 {
      SmallMod(1, n);
    } else {
      if Pow(x, e) % n == 0 {
        CoprimeDivides(n, x, Pow(x, e - 1));
      }
      CoprimePower(x, e - 1, n);
    }
  }

  /** (-3)^1 mod 3 comes out as 3 instead of 0. */
  lemma ModulusForZero()
    ensures Result(-1, 3, 1, 3, false, false) == 3 && IntPow(Signed(-1, 3), 1) % 3 == 0
  {
    assert Pow(3, 1) == 3 && IntPow(-3, 1) == -3;
  }

  /** (-2)^1 mod 3, written over the base, comes out as 2 instead of 1. */
  lemma SignLost()
    ensures Result(-1, 2, 1, 3, false, true) == 2 && IntPow(Signed(-1, 2), 1) % 3 == 1
  {
    assert Pow(2, 1) == 2 && IntPow(-2, 1) == -2;
  }

  /** An exponent without limbs and N = 1 give 1 instead of 0. */
  lemma OneModuloOne(s: int, x: nat, same: bool)
    requires s == 1 || s == -1
    ensures Result(s, x, 0, 1, true, same) == 1 && IntPow(Signed(s, x), 0) % 1 == 0
  {}

  lemma PowStart(x: nat)
    ensures Pow(x, 0) == 1
  {}

  lemma NegResidue(p: nat, n: nat)
    requires n % 2 == 1
    ensures 0 <= p % n < n
    ensures (-(p as int)) % n == if p % n == 0 then 0 else n - p % n
    ensures (-(p as int)) % n == p % n <==> p % n == 0
  {
    DivModDef(p, n);
    var q := p / n;
    SignOfProduct(q, n);
    MulDist(n, -q, 1);
    if p % n == 0 { DivModUnique(-(p as int), n, -q, 0); } else { DivModUnique(-(p as int), n, -q - 1, n - p % n); }
  }

  // ----- the constant R^2 mod N -----

  /** Sizes X down to its significant limbs, but at least nblimbs. */
  method Shrink(X: Mpi, nblimbs: nat)
    modifies X
    ensures X.s == old(X.s) && X.Abs() == old(X.Abs()) && X.p.Length >= nblimbs
    ensures X.p == old(X.p) || fresh(X.p)
    ensures X.p.Length == nblimbs || X.p.Length == 1 || Scale(X.p.Length - 1) <= X.Abs()
  {
    hide Val, Scale;
    if X.p.Length <= nblimbs {
      Grow(X, nblimbs);
      return;
    }
    var i := X.p.Length - 1;
    while i > 0
      invariant 0 <= i < X.p.Length && forall k :: i < k < X.p.Length ==> X.p[k] == 0
    {
      if X.p[i] != 0 {
        break;
      }
      i := i - 1;
    }
    i := i + 1;
    var top := i;
    if i < nblimbs {
      i := nblimbs;
    }
    ghost var xs := X.p[..];
    var p := new Limb[i];
    Copy(p, 0, X.p, 0, i);
    assert X.p[0..i] == xs[..i];
    PadTop(xs, i);
    assert p[..] == p[0..i] == xs[..i];
    if top > nblimbs && top > 1 { TopLimb(xs[..i]); }
    X.p := p;
  }

  /** X := R^2 mod N, where R = 2^(biL * n) and n is the limb count of N. */
  method GetMontR2Unsafe(X: Mpi, N: Mpi)
    requires X.Ok() && N.Ok() && X != N && X.p != N.p && N.V() > 0
    modifies X, X.p
    ensures X.Ok() && (X.p == old(X.p) || fresh(X.p)) && X.p.Length >= N.p.Length
    ensures X.V() == (Scale(N.p.Length) * Scale(N.p.Length)) % N.V()
    ensures X.Normal()
  {
    hide Val, Scale, Pow, Signed;
    var n := N.p.Length;
    LSet(X, 1);
    MpiShiftL(X, n * 2 * LIMB_BITS);
    ScaleIsPower(2 * n);
    ScaleSum(n, n);
    SameBits(n);
    var _ := ModMpi(X, X, N);
    Shrink(X, n);
  }

  lemma SameBits(n: nat)
    ensures n * 2 * LIMB_BITS == LIMB_BITS * (2 * n)
  {}

  /** What prec_RR must hold when it is not empty: the value set by an earlier call for the same modulus. */
  ghost predicate Cached(RR: Mpi, N: Mpi)
    reads RR, RR.p, N, N.p
  {
    N.V() > 0 && RR.V() == (Scale(N.p.Length) * Scale(N.p.Length)) % N.V()
  }

  /** Computes R^2 mod N, or takes it from prec_RR; leaves it there if prec_RR was empty. */
  method PrepareRR(N: Mpi, prec: Mpi?) returns (rr: array<Limb>)
    requires N.Ok() && N.V() > 0
    requires prec != null ==> prec.Ok() && prec != N && prec.p != N.p && (prec.p.Length > 0 ==> Cached(prec, N))
    modifies if prec == null then {} else {prec}
    ensures N.p.Length <= rr.Length && rr != N.p && (fresh(rr) || (prec != null && rr == old(prec.p)))
    ensures Val(rr[..N.p.Length]) == (Scale(N.p.Length) * Scale(N.p.Length)) % N.V()
    ensures prec != null ==> prec.Ok() && Cached(prec, N) && prec.p == rr
  {
    hide Val, Scale, Signed;
    var RR;
    if prec == null || prec.p.Length == 0 {
      RR := new Mpi.Init();
      GetMontR2Unsafe(RR, N);
      if prec != null {
        prec.s, prec.p := RR.s, RR.p;
      }
    } else {
      Grow(prec, N.p.Length);
      RR := prec;
    }
    rr := RR.p;
    PositiveV(N.s, N.Abs());
    DivModDef(Scale(N.p.Length) * Scale(N.p.Length), N.V());
    PositiveV(RR.s, RR.Abs());
    ValBound(N.p[..]);
    TopZeros(rr[..], N.p.Length);
    assert rr[..][..N.p.Length] == rr[..N.p.Length];
  }

  // ----- the exponentiation -----

  /** X := |A| mod N, with at least as many limbs as N. */
  method ReduceBase(X: Mpi, A: Mpi, N: Mpi)
    requires X.Ok() && A.Ok() && N.Ok() && Separate(X, A) && X != N && X.p != N.p && N.V() > 0
    modifies X, X.p
    ensures X.s == 1 && (X.p == old(X.p) || fresh(X.p)) && X.p.Length >= N.p.Length
    ensures X.Abs() == old(A.Abs()) % N.V() < N.V()
  {
    hide Val;
    ghost var a, n := A.Abs(), N.V();
    DivModDef(a, n);
    MpiCopy(X, A);
    X.s := 1;
    var c := CmpMpi(X, N);
    if c >= 0 {
      var _ := ModMpi(X, X, N);
      PositiveV(X.s, X.Abs());
      X.s := 1;
    } else {
      SmallMod(a, n);
    }
    Grow(X, N.p.Length);
  }

  /** x := x^E mod N on limbs, through Montgomery form. */
  method PowLimbs(x: array<Limb>, N: array<Limb>, E: array<Limb>, rr: array<Limb>, public: bool)
    requires 0 < N.Length <= x.Length && N.Length <= rr.Length && E.Length > 0
    requires x != N && x != E && x != rr && N[0] % 2 == 1
    requires Val(x[..]) < Val(N[..]) && Val(rr[..N.Length]) == (Scale(N.Length) * Scale(N.Length)) % Val(N[..])
    modifies x
    ensures Val(x[..]) == old(Pow(Val(x[..]), Val(E[..])) % Val(N[..]))
  {
    hide Val, Scale, Pow, Cong, Rep, WorkingLimbs;
    var n := N.Length;
    ghost var v, m, e := Val(x[..]), Val(N[..]), Val(E[..]);
    var T := new Limb[WorkingLimbs(n, E.Length)];
    WorkFits(n, E.Length);
    LowLimbs(x[..], N[..], n);
    assert N[..n] == N[..] && x[..][..n] == x[0..n] && E[0..0 + E.Length] == E[..];
    DivModDef(Scale(n) * Scale(n), m);
    CongMod(Scale(n) * Scale(n), m);
    var mm := MontmulInit(N);
    ToMontRep(x, x, N, n, mm, rr, T);
    assert x[..n] == x[0..n] && N[..n] == N[..] && E[0..0 + E.Length] == E[..];
    if public {
      CoreExpModUnsafe(x, x, N, n, E, 0, E.Length, rr, T, 0, v);
    } else {
      CoreExpMod(x, x, N, n, E, 0, E.Length, rr, T, 0, v);
    }
    assert N[..n] == N[..];
    FromMontRep(x, x, N, n, mm, T, Pow(v, e));
    assert x[..][..n] == x[0..n];
    PadTop(x[..], n);
  }

  lemma WorkFits(n: nat, Elimbs: nat)
    ensures 2 * n + 1 <= WorkingLimbs(n, Elimbs)
  {
    MulNonNeg(Welem(Elimbs * LIMB_BITS), n);
  }

  /** A number below N has no nonzero limbs above those of N. */
  lemma LowLimbs(x: seq<Limb>, N: seq<Limb>, n: nat)
    requires n == |N| <= |x| && Val(x) < Val(N)
    ensures Val(x[..n]) == Val(x) && forall k :: n <= k < |x| ==> x[k] == 0
  {
    hide Val, Scale;
    ValBound(N);
    TopZeros(x, n);
    ValSplit(x, n);
    ScalePos(n);
    if Val(x[n..]) > 0 { MulPos(Scale(n), Val(x[n..])); }
    ValIsZero(x[n..]);
    forall k | n <= k < |x|
      ensures x[k] == 0
    {
      assert x[k] == x[n..][k - n];
    }
  }

  /** X := A^E mod N for odd N, with the sign put right afterwards. */
  method MpiExpMod(X: Mpi, A: Mpi, E: Mpi, public: bool, N: Mpi, prec: Mpi?) returns (ret: Ret)
    requires X.Ok() && A.Ok() && E.Ok() && N.Ok() && Separate(X, A)
    requires X != E && X.p != E.p && X != N && X.p != N.p
    requires prec != null ==> prec.Ok() && prec != X && prec != A && prec != E && prec != N
    requires prec != null ==> prec.p != X.p && prec.p != N.p && (prec.p.Length > 0 ==> Cached(prec, N))
    modifies X, X.p, if prec == null then {} else {prec}
    ensures X.Ok() && (X.p == old(X.p) || fresh(X.p))
    ensures ret == if N.V() <= 0 || N.V() % 2 == 0 || E.V() < 0 || BitLen(E.Abs()) > MPI_MAX_BITS || BitLen(N.Abs()) > MPI_MAX_BITS
                   then BadInputData else Success
    ensures ret == Success ==> X.V() == Result(old(A.s), old(A.Abs()), E.Abs(), N.Abs(), E.p.Length == 0, X == A)
    ensures ret == Success && prec != null && E.p.Length > 0 ==> prec.Ok() && Cached(prec, N)
    ensures ret == Success ==> X.Normal()
  {
    hide Val, BitLen, Pow, Cached, Signed, Scale;
    var c := CmpInt(N, 0);
    if c <= 0 {
      return BadInputData;
    }
    PositiveV(N.s, N.Abs());
    AbsParity(N.s, N.Abs());
    NonzeroHasLimbs(N.p[..]);
    ValParity(N.p[..]);
    if N.p[0] % 2 == 0 {
      return BadInputData;
    }
    c := CmpInt(E, 0);
    if c < 0 {
      return BadInputData;
    }
    var le := Bitlen(E);
    var ln := Bitlen(N);
    if le > MPI_MAX_BITS || ln > MPI_MAX_BITS {
      return BadInputData;
    }
    ret := Success;
    if E.p.Length == 0 {
      LSet(X, 1);
      return;
    }
    var rr := PrepareRR(N, prec);
    PowAndSign(X, A, E, public, N, rr);
  }

  /** The rest of MpiExpMod, once the arguments are checked. */
  method PowAndSign(X: Mpi, A: Mpi, E: Mpi, public: bool, N: Mpi, rr: array<Limb>)
    requires X.Ok() && A.Ok() && E.Ok() && N.Ok() && Separate(X, A)
    requires X != E && X.p != E.p && X != N && X.p != N.p && X.p != rr && E.p.Length > 0
    requires N.V() > 0 && N.p.Length > 0 && N.p[0] % 2 == 1 && N.p.Length <= rr.Length
    requires Val(rr[..N.p.Length]) == (Scale(N.p.Length) * Scale(N.p.Length)) % N.V()
    modifies X, X.p
    ensures X.Ok() && (X.p == old(X.p) || fresh(X.p))
    ensures X.V() == Result(old(A.s), old(A.Abs()), E.Abs(), N.Abs(), false, X == A)
    ensures X.Normal()
  {
    hide Val, Scale, Pow, Signed;
    ghost var x, n, e := A.Abs(), N.Abs(), E.Abs();
    PositiveV(N.s, N.Abs());
    ReduceBase(X, A, N);
    PowLimbs(X.p, N.p, E.p, rr, public);
    PowReduced(x, e, n);
    DivModDef(Pow(x, e), n);
    ValParity(E.p[..]);
    assert X.p[0..X.p.Length] == X.p[..];
    PositiveSign(X.Abs());
    if A.s == -1 && E.p[0] % 2 != 0 {
      var nonzero := CheckZero(X.p, 0, X.p.Length);
      X.s := if nonzero then -1 else 1;
      NegativeSign(X.Abs());
      AddMpi(X, N, X);
    }
  }

  lemma NegativeSign(a: nat)
    ensures Signed(-1, a) == -(a as int) && (a == 0 ==> Signed(1, a) == 0)
  {}

  lemma PowReduced(x: nat, e: nat, n: nat)
    requires n > 0
    ensures 0 <= x % n && Pow(x % n, e) % n == Pow(x, e) % n
  {
    DivModDef(x, n);
    CongMod(x, n);
    CongPow(x % n, x, e, n);
  }
}
