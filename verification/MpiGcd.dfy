/** bignum.c: greatest common divisor and modular inverse of signed numbers of any size. */
module MpiGcd {
  import opened Arith
  import opened NumberTheory
  import opened Limbs
  import opened Words
  import opened BignumCore
  import opened GcdModinv
  import opened IntDiv
  import opened Mpis
  import opened Division

  // ----- the wrapper of the odd core -----

  /** The limbs of A to hand to the core: a single zero limb if A has none, and no more than n. */
  method CoreOperand(A: Mpi, n: nat, ghost bound: nat) returns (Ap: array<Limb>, An: nat)
    requires 0 < n && A.Abs() <= bound < Scale(n)
    ensures 0 < An <= n && An <= Ap.Length && Val(Ap[..An]) == A.Abs() && (Ap == A.p || fresh(Ap))
  {
    hide Val, Scale;
    if A.p.Length == 0 {
      Ap := new Limb[1];
      Ap[0] := 0;
      ValZero(Ap[..1]);
      ValZero(A.p[..]);
    } else {
      Ap := A.p;
    }
    An := if A.p.Length >= n then n else if A.p.Length != 0 then A.p.Length else 1;
    if A.p.Length >= n {
      TopZeros(A.p[..], n);
      assert A.p[..][..n] == A.p[..n];
    } else if A.p.Length != 0 {
      assert A.p[..A.p.Length] == A.p[..];
    }
  }

  /** Whether the wrapper accepts its arguments. */
  predicate Acceptable(a: int, n: int, inverse: bool)
  {
    0 <= a <= n && n % 2 == 1 && (inverse ==> n > 1)
  }

  /** gcd(A, N) in G and, unless I is null, a number I in [0, N) with A * I = G modulo N. */
  method MpiGcdModinv(G: Mpi?, I: Mpi?, A: Mpi, N: Mpi) returns (ret: Ret)
    requires A.Ok() && N.Ok() && Separate(A, N)
    requires G != null ==> G.Ok() && Separate(G, A) && Separate(G, N)
    requires I != null ==> I.Ok() && Separate(I, A) && Separate(I, N)
    requires G != null && I != null ==> G != I && G.p != I.p
    modifies if G == null then {} else {G, G.p}, if I == null then {} else {I, I.p}
    ensures ret == if old(Acceptable(A.V(), N.V(), I != null)) && A != N && (I == null || (I != N && G != N))
                   then Success else BadInputData
    ensures G != null ==> G.Ok() && (G.p == old(G.p) || fresh(G.p))
    ensures I != null ==> I.Ok() && (I.p == old(I.p) || fresh(I.p))
    ensures G != null && I != null ==> G.p != I.p
    ensures ret == Success && G != null ==> G.V() == old(Gcd(A.Abs(), N.Abs()))
    ensures ret == Success && I != null ==> 0 <= I.V() < N.V() && N.V() == old(N.V())
    ensures ret == Success && I != null ==> Cong(old(Gcd(A.Abs(), N.Abs())), old(A.V()) * I.V(), N.V())
    ensures ret == Success && G != null ==> G.Normal()
    ensures ret == Success && I != null ==> I.Normal()
  {
    hide Val, Scale, Gcd, Cong, Signed;
    var c := CmpInt(A, 0);
    if c < 0 {
      return BadInputData;
    }
    c := CmpMpi(A, N);
    if c > 0 {
      return BadInputData;
    }
    var bit := GetBit0(N);
    AbsParity(N.s, N.Abs());
    if bit != 1 {
      return BadInputData;
    }
    if I != null {
      c := CmpInt(N, 1);
      if c == 0 {
        return BadInputData;
      }
    }
    if A == N || (I != null && (I == N || G == N)) {
      return BadInputData;
    }
    PositiveV(A.s, A.Abs());
    PositiveV(N.s, N.Abs());
    var H := G;
    if H == null {
      H := new Mpi.Init();
    }
    if I == null {
      GcdOnly(H, A, N);
    } else {
      GcdAndInverse(H, I, A, N);
    }
    ret := Success;
  }

  lemma AbsParity(s: int, a: nat)
    requires s == 1 || s == -1
    ensures Signed(s, a) % 2 == a % 2
  {}

  /** The wrapper without an inverse. */
  method GcdOnly(G: Mpi, A: Mpi, N: Mpi)
    requires G.Ok() && A != N && A.p != N.p && Separate(G, A) && Separate(G, N)
    requires A.Abs() <= N.Abs() && N.Abs() % 2 == 1
    modifies G, G.p
    ensures G.Ok() && (G.p == old(G.p) || fresh(G.p))
    ensures G.V() == old(Gcd(A.Abs(), N.Abs()))
    ensures G.Normal()
  {
    hide Val, Scale, Gcd;
    OddHasLimbs(N.p[..]);
    var n := N.p.Length;
    Grow(G, n);
    ValBound(N.p[..]);
    assert N.p[..n] == N.p[..];
    var T := new Limb[n * 4];
    var Ap, An := CoreOperand(A, n, N.Abs());
    GcdModinvOdd(G.p, null, Ap, An, N.p, n, T);
    G.s := 1;
    ClearTop(G.p, n);
  }

  /** The wrapper with an inverse. */
  method GcdAndInverse(G: Mpi, I: Mpi, A: Mpi, N: Mpi)
    requires G.Ok() && I.Ok() && A != N && A.p != N.p && G != N && I != N && G != I && G.p != I.p && G.p != N.p && I.p != N.p
    requires Separate(G, A) && Separate(I, A) && A.Abs() <= N.Abs() && N.Abs() % 2 == 1 && N.Abs() > 1
    modifies G, G.p, I, I.p
    ensures G.Ok() && (G.p == old(G.p) || fresh(G.p))
    ensures I.Ok() && (I.p == old(I.p) || fresh(I.p)) && G.p != I.p
    ensures G.V() == old(Gcd(A.Abs(), N.Abs()))
    ensures 0 <= I.V() < N.Abs() && Cong(G.V(), old(A.Abs()) * I.V(), N.Abs())
    ensures G.Normal() && I.Normal()
  {
    hide Val, Scale, Gcd, Cong;
    OddHasLimbs(N.p[..]);
    var n := N.p.Length;
    Grow(G, n);
    Grow(I, n);
    ValBound(N.p[..]);
    assert N.p[..n] == N.p[..];
    var T := new Limb[n * 5];
    var Ap, An := CoreOperand(A, n, N.Abs());
    GcdModinvOdd(G.p, I.p, Ap, An, N.p, n, T);
    assert N.p[..n] == N.p[..];
    G.s := 1;
    I.s := 1;
    ClearTop(G.p, n);
    ClearTop(I.p, n);
  }

  lemma OddHasLimbs(s: seq<Limb>)
    requires Val(s) % 2 == 1
    ensures |s| > 0
  {}

  /** Zeroes the limbs the core did not write. */
  method ClearTop(p: array<Limb>, n: nat)
    requires n <= p.Length
    modifies p
    ensures Val(p[..]) == old(Val(p[..n]))
  {
    hide Val;
    ghost var low := p[..n];
    if p.Length > n {
      Zero(p, n, p.Length - n);
    }
    PadTop(p[..], n);
    assert p[..][..n] == low;
  }

  // ----- trailing zero bits -----

  /** 2^k is the highest power of two dividing x. */
  ghost predicate TwoPart(x: nat, k: nat)
  {
    Pow(2, k) > 0 && x % Pow(2, k) == 0 && (x / Pow(2, k)) % 2 == 1
  }

  /** The number of trailing zero bits, biL for zero. */
  method Ctz(x: Limb) returns (count: nat)
    ensures if x == 0 then count == LIMB_BITS else count < LIMB_BITS && TwoPart(x, count)
  {
    hide Pow, Shr, TwoPart;
    count := 0;
    var done := false;
    PowZero();
    for i := 0 to LIMB_BITS
      invariant done ==> count < i && TwoPart(x, count)
      invariant !done ==> count == i && Pow(2, i) > 0 && x % Pow(2, i) == 0
    {
      ShrDef(x, i);
      var nonZero := Shr(x, i) % 2 == 1;
      if !done {
        NextZeroBit(x, i);
      }
      done := done || nonZero;
      count := if done then count else i + 1;
    }
    if done {
      NonzeroPart(x, count);
    } else {
      RadixIsPower();
      SmallMod(x, BASE);
    }
  }

  lemma NextZeroBit(x: nat, i: nat)
    requires Pow(2, i) > 0 && x % Pow(2, i) == 0
    ensures Pow(2, i + 1) > 0
    ensures if (x / Pow(2, i)) % 2 == 1 then TwoPart(x, i) else x % Pow(2, i + 1) == 0
  {
    hide Pow;
    PowPos(2, i + 1);
    PowNext(i);
    EvenQuotient(x, Pow(2, i));
  }

  lemma NonzeroPart(x: nat, k: nat)
    requires TwoPart(x, k)
    ensures x != 0
  {
    hide Pow;
    if x == 0 { SmallMod(0, Pow(2, k)); }
  }

  lemma EvenQuotient(x: nat, p: nat)
    requires p > 0 && x % p == 0
    ensures (x / p) % 2 == 0 ==> x % (2 * p) == 0
  {
    DivModDef(x, p);
    if (x / p) % 2 == 0 {
      var h := (x / p) / 2;
      MulAssoc(h, 2, p);
      DivModUnique(x, 2 * p, h, 0);
    }
  }

  /** The number of trailing zero bits of a nonzero number. */
  method Lsb(X: Mpi) returns (r: nat)
    ensures X.Abs() != 0 ==> TwoPart(X.Abs(), r)
    ensures X.Abs() == 0 ==> r == 0
  {
    hide Val, Scale, Pow, TwoPart;
    ghost var s := X.p[..];
    for i := 0 to X.p.Length
      invariant forall k :: 0 <= k < i ==> s[k] == 0
    {
      var x := X.p[i];
      assert x == s[i];
      if x != 0 {
        var c := Ctz(x);
        LowestLimb(s, i, c);
        NonzeroPart(Val(s), i * LIMB_BITS + c);
        return i * LIMB_BITS + c;
      }
    }
    ValZero(s);
    r := 0;
  }

  lemma LowestLimb(s: seq<Limb>, i: nat, c: nat)
    requires i < |s| && (forall k :: 0 <= k < i ==> s[k] == 0) && c < LIMB_BITS && TwoPart(s[i], c)
    ensures TwoPart(Val(s), i * LIMB_BITS + c)
  {
    hide Val, Scale, Pow;
    ValSplit(s, i);
    ValZero(s[..i]);
    ValSuffix(s, i);
    ScaleIsPower(i);
    PowAdd(2, i * LIMB_BITS, c);
    PowPos(2, i * LIMB_BITS);
    OddPart(s[i], c, Val(s[i + 1..]), Scale(i), Val(s), i * LIMB_BITS + c);
  }

  lemma OddPart(x: Limb, c: nat, t: nat, scale: nat, v: nat, k: nat)
    requires c < LIMB_BITS && TwoPart(x, c) && scale > 0 && v == scale * (x + BASE * t) && Pow(2, k) == scale * Pow(2, c)
    ensures TwoPart(v, k)
  {
    hide Pow;
    var p, q, u := Pow(2, c), Pow(2, LIMB_BITS - c - 1), x / Pow(2, c);
    PowAdd(2, c + 1, LIMB_BITS - c - 1);
    PowNext(c);
    RadixIsPower();
    PowPos(2, c);
    MulPos(scale, p);
    DivModDef(x, p);
    LowestArith(x, t, u, p, q, scale, v);
    DivModUnique(v, scale * p, u + 2 * (q * t), 0);
    CongIntro(u + 2 * (q * t), u, 2, q * t);
  }

  lemma LowestArith(x: nat, t: nat, u: nat, p: nat, q: nat, s: nat, v: nat)
    requires x == u * p && BASE == (2 * p) * q && v == s * (x + BASE * t)
    ensures v == (u + 2 * (q * t)) * (s * p)
  {
    hide *;
    calc {
      BASE * t;
      { MulAssoc(2 * p, q, t); }
      (2 * p) * (q * t);
      { MulAssoc(2, p, q * t); MulComm(p, q * t); MulAssoc(2, q * t, p); }
      (2 * (q * t)) * p;
    }
    MulDist(p, u, 2 * (q * t));
    MulComm(s, p);
    MulAssoc(u + 2 * (q * t), p, s);
    MulComm((u + 2 * (q * t)) * p, s);
  }

  // ----- greatest common divisor -----

  lemma {:induction false} GcdDouble(a: nat, b: nat)
    ensures Gcd(2 * a, 2 * b) == 2 * Gcd(a, b)
    decreases b
  {
    if b > 0 {
      DivModDef(a, b);
      MulAssoc(2, a / b, b);
      MulAssoc(a / b, 2, b);
      DivModUnique(2 * a, 2 * b, a / b, 2 * (a % b));
      GcdDouble(b, a % b);
    }
  }

  lemma {:induction false} GcdScale(a: nat, b: nat, k: nat)
    ensures Gcd(a * Pow(2, k), b * Pow(2, k)) == Gcd(a, b) * Pow(2, k)
  {
    hide Gcd;
    if k > 0 {
      GcdScale(a, b, k - 1);
      var p := Pow(2, k - 1);
      GcdDouble(a * p, b * p);
      TwiceOver(a, p);
      TwiceOver(b, p);
      TwiceOver(Gcd(a, b), p);
    } else {
      PowZero();
    }
  }

  lemma TwiceOver(a: int, p: int)
    ensures a * (2 * p) == 2 * (a * p)
  {}

  lemma {:induction false} GcdStripOdd(a: nat, b: nat, k: nat)
    requires a % 2 == 1
    ensures Gcd(a, b * Pow(2, k)) == Gcd(a, b)
  {
    hide Gcd;
    if k > 0 {
      GcdStripOdd(a, b, k - 1);
      GcdHalf(a, b * Pow(2, k - 1));
      TwiceOver(b, Pow(2, k - 1));
    } else {
      PowZero();
    }
  }

  /** The gcd is that of the odd parts times the smaller of the two powers of two. */
  lemma GcdOddParts(a: nat, b: nat, j: nat, k: nat)
    requires TwoPart(a, j) && TwoPart(b, k)
    ensures var m := if j > k then k else j;
            Gcd(a, b) == Gcd(a / Pow(2, j), b / Pow(2, k)) * Pow(2, m)
  {
    hide Gcd;
    DivModDef(a, Pow(2, j));
    DivModDef(b, Pow(2, k));
    OddPartsGcd(a / Pow(2, j), b / Pow(2, k), j, k);
  }

  lemma OddPartsGcd(u: nat, v: nat, j: nat, k: nat)
    requires u % 2 == 1 && v % 2 == 1
    ensures Gcd(u * Pow(2, j), v * Pow(2, k)) == Gcd(u, v) * Pow(2, if j > k then k else j)
  {
    hide Gcd, Pow;
    if j > k {
      GcdSym(u * Pow(2, j), v * Pow(2, k));
      GcdSym(u, v);
      OddPartsOrdered(v, u, k, j);
    } else {
      OddPartsOrdered(u, v, j, k);
    }
  }

  lemma OddPartsOrdered(u: nat, v: nat, j: nat, k: nat)
    requires u % 2 == 1 && j <= k
    ensures Gcd(u * Pow(2, j), v * Pow(2, k)) == Gcd(u, v) * Pow(2, j)
  {
    hide Gcd, Pow;
    var d := k - j;
    PowAdd(2, d, j);
    MulAssoc(v, Pow(2, d), Pow(2, j));
    GcdScale(u, v * Pow(2, d), j);
    GcdStripOdd(u, v, d);
  }

  lemma GcdZero(a: nat)
    ensures Gcd(0, a) == a && Gcd(a, 0) == a
  {
    if a > 0 { SmallMod(0, a); }
  }

  /** G := gcd(A, B), for all integers. */
  method MpiGcd(G: Mpi, A: Mpi, B: Mpi)
    requires G.Ok() && A.Ok() && B.Ok() && Separate(G, A) && Separate(G, B)
    modifies G, G.p
    ensures G.Ok() && (G.p == old(G.p) || fresh(G.p))
    ensures G.V() == old(Gcd(A.Abs(), B.Abs()))
    ensures G.Normal()
  {
    hide Val, Gcd;
    var TA, TB := EqualSizes(A, B);
    assert TA.p[0..TA.p.Length] == TA.p[..] && TB.p[0..TB.p.Length] == TB.p[..];
    var nonzero := CheckZero(TA.p, 0, TA.p.Length);
    if !nonzero {
      GcdZero(TB.Abs());
      MpiCopy(G, TB);
      return;
    }
    nonzero := CheckZero(TB.p, 0, TB.p.Length);
    if !nonzero {
      GcdZero(TA.Abs());
      MpiCopy(G, TA);
      return;
    }
    OddGcd(G, TA, TB);
  }

  /** Copies of |A| and |B| with the same, nonzero, number of limbs. */
  method EqualSizes(A: Mpi, B: Mpi) returns (TA: Mpi, TB: Mpi)
    requires A.Ok() && B.Ok()
    ensures fresh(TA) && fresh(TA.p) && fresh(TB) && fresh(TB.p) && TA != TB && TA.p != TB.p
    ensures TA.s == 1 && TB.s == 1 && TA.Abs() == A.Abs() && TB.Abs() == B.Abs() && TA.p.Length == TB.p.Length > 0
  {
    hide Val, Signed;
    TA := new Mpi.Init();
    TB := new Mpi.Init();
    MpiCopy(TA, A);
    MpiCopy(TB, B);
    TA.s, TB.s := 1, 1;
    Grow(TA, if TB.p.Length != 0 then TB.p.Length else 1);
    Grow(TB, TA.p.Length);
  }

  /** The rest of MpiGcd, for two nonzero numbers with the same number of limbs. */
  method OddGcd(G: Mpi, TA: Mpi, TB: Mpi)
    requires G.Ok() && TA != TB && TA != G && TB != G && TA.p != TB.p && TA.p != G.p && TB.p != G.p
    requires TA.s == 1 && TB.s == 1 && TA.p.Length == TB.p.Length && TA.Abs() > 0 && TB.Abs() > 0
    modifies G, G.p, TA, TA.p, TB, TB.p
    ensures G.Ok() && (G.p == old(G.p) || fresh(G.p))
    ensures G.V() == old(Gcd(TA.Abs(), TB.Abs()))
    ensures G.Normal()
  {
    hide Val, Gcd, Pow, TwoPart;
    ghost var a, b := TA.Abs(), TB.Abs();
    var za := Lsb(TA);
    var zb := Lsb(TB);
    MpiShiftR(TA, za);
    MpiShiftR(TB, zb);
    GcdOddParts(a, b, za, zb);
    TwoPartOdd(a, za);
    TwoPartOdd(b, zb);
    OrderAndCore(G, TA, TB);
    var zg := if za > zb then zb else za;
    MpiShiftL(G, zg);
  }

  lemma TwoPartOdd(x: nat, k: nat)
    requires TwoPart(x, k)
    ensures Pow(2, k) > 0 && (x / Pow(2, k)) % 2 == 1
  {}

  /** Orders two odd numbers and runs the odd core on them. */
  method OrderAndCore(G: Mpi, TA: Mpi, TB: Mpi)
    requires G.Ok() && TA != TB && TA != G && TB != G && TA.p != TB.p && TA.p != G.p && TB.p != G.p
    requires TA.s == 1 && TB.s == 1 && TA.p.Length == TB.p.Length && TA.Abs() % 2 == 1 && TB.Abs() % 2 == 1
    modifies G, G.p, TA, TA.p, TB, TB.p
    ensures G.Ok() && (G.p == old(G.p) || fresh(G.p))
    ensures G.V() == old(Gcd(TA.Abs(), TB.Abs()))
    ensures G.Normal()
  {
    hide Val, Gcd;
    ghost var a, b := TA.Abs(), TB.Abs();
    var n := TA.p.Length;
    assert TA.p[0..n] == TA.p[..] && TB.p[0..n] == TB.p[..];
    var swap := LtCt(TB.p, 0, TA.p, 0, n);
    CondSwap(TA.p, 0, TB.p, 0, n, swap);
    assert TA.p[0..n] == TA.p[..] && TB.p[0..n] == TB.p[..];
    GcdSym(a, b);
    var _ := MpiGcdModinv(G, null, TA, TB);
  }
}
