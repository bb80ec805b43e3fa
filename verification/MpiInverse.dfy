/** bignum.c: modular inverse for any modulus above one, odd or even. */
module MpiInverse {
  import opened Arith
  import opened NumberTheory
  import opened Limbs
  import opened Mpis
  import opened MpiArith
  import opened Division
  import opened MpiMod
  import opened MpiGcd

  /** x is the inverse of a modulo n, in the range the documentation promises. */
  ghost predicate IsInverse(x: int, a: int, n: int)
  {
    n > 1 && 1 <= x < n && Cong(a * x, 1, n)
  }

  /** Reducing a number modulo n does not change its gcd with n. */
  lemma GcdOfResidue(a: int, n: nat)
    requires n > 0
    ensures 0 <= a % n && Gcd(a % n, n) == Gcd(Mag(a), n)
  {
    hide Divides, Gcd;
    DivModDef(a, n);
    var m, q := Mag(a), a / n;
    forall e: nat
      ensures Divides(e, a % n) && Divides(e, n) <==> Divides(e, m) && Divides(e, n)
    {
      DividesMag(e, a);
      if Divides(e, n) {
        if Divides(e, a % n) { DividesLinear(e, n, a % n, q, 1); }
        if Divides(e, a) { DividesLinear(e, a, n, 1, -q); ResidueForm(a, n, q); }
      }
    }
    GcdSame(a % n, n, m, n);
  }

  lemma ResidueForm(a: int, n: int, q: int)
    requires n > 0 && q == a / n
    ensures 1 * a + -q * n == a % n && q * n + 1 * (a % n) == a
  {
    DivModDef(a, n);
  }

  lemma DividesMag(e: nat, a: int)
    ensures Divides(e, a) <==> Divides(e, Mag(a))
  {
    hide Divides;
    if Divides(e, a) { DividesMul(e, a, -1); }
    if Divides(e, Mag(a)) { DividesMul(e, Mag(a), -1); }
  }

  /** What the odd core returns for a residue is an inverse once the gcd is one. */
  lemma CoreGivesInverse(g: nat, r: nat, x: int, a: int, n: int)
    requires n > 1 && 0 <= x < n && g == 1 && r == a % n && Cong(g, r * x, n)
    ensures IsInverse(x, a, n)
  {
    hide Cong;
    CongMod(a, n);
    CongRefl(x, n);
    CongMul(a, r, x, x, n);
    CongSwap(1, r * x, n);
    CongTrans(a * x, r * x, 1, n);
    if x == 0 { ZeroNotOne(a, n); }
  }

  lemma CongSwap(x: int, y: int, n: int)
    requires n > 0 && Cong(x, y, n)
    ensures Cong(y, x, n)
  {}

  lemma ZeroNotOne(a: int, n: int)
    requires n > 1
    ensures !Cong(a * 0, 1, n)
  {
    SmallMod(0, n);
    SmallMod(1, n);
  }

  /** Odd modulus. */
  method InvModOdd(X: Mpi, A: Mpi, N: Mpi) returns (ret: Ret)
    requires X.Ok() && A.Ok() && N.Ok() && Separate(X, A) && Separate(X, N)
    requires N.V() > 1 && N.V() % 2 == 1
    modifies X, X.p
    ensures X.Ok() && (X.p == old(X.p) || fresh(X.p))
    ensures ret == if old(Gcd(A.Abs(), N.Abs())) == 1 then Success else NotAcceptable
    ensures ret == Success ==> old(N.V()) > 1 && IsInverse(X.V(), old(A.V()), old(N.V()))
  {
    hide Val, Gcd, Cong, Signed, IsInverse;
    ghost var a, n := A.V(), N.V();
    PositiveV(N.s, N.Abs());
    MagAbs(A.s, A.Abs());
    GcdOfResidue(a, n);
    var T := new Mpi.Init();
    var G := new Mpi.Init();
    var _ := ModMpi(T, A, N);
    PositiveV(T.s, T.Abs());
    DivModDef(a, n);
    var r2 := MpiGcdModinv(G, T, T, N);
    var c := CmpInt(G, 1);
    if c != 0 {
      return NotAcceptable;
    }
    CoreGivesInverse(1, a % n, T.V(), a, n);
    MpiCopy(X, T);
    ret := Success;
  }

  lemma MagAbs(s: int, a: nat)
    requires s == 1 || s == -1
    ensures Mag(Signed(s, a)) == a
  {}

  // ----- even modulus -----

  /** Inverting N modulo A gives the inverse of A modulo N as the other Bezout coefficient. */
  lemma OtherCoefficient(a: int, n: int, i: int, k: int)
    requires 1 < a < n && IsInverse(i, n, a) && k == TQuot(i * n - 1, a)
    ensures IsInverse(n - k, a, n)
  {
    hide Cong;
    var j := CongElim(n * i, 1, a);
    MulComm(n, i);
    MulLe(1, i, n);
    MulLe(i, a - 1, n);
    MulDist(n, a, 1);
    if j < 0 { MulLe(j, -1, a); }
    DivModUnique(i * n - 1, a, j, 0);
    if j >= n { MulLe(n, j, a); MulComm(n, a); }
    MulDist(a, n, j);
    MulDist(i, n, 0);
    CongIntro(a * (n - j), 1, n, a - i);
    MulDist(n, a, i);
    MulComm(a, n);
    MulComm(a, j);
  }

  /** Even modulus N, odd A in range. */
  method InvModEvenInRange(X: Mpi, A: Mpi, N: Mpi) returns (ret: Ret)
    requires X.Ok() && A.Ok() && N.Ok() && Separate(X, A) && Separate(X, N)
    requires 1 < A.V() < N.V() && A.V() % 2 == 1
    modifies X, X.p
    ensures X.Ok() && (X.p == old(X.p) || fresh(X.p))
    ensures ret == if old(Gcd(A.Abs(), N.Abs())) == 1 then Success else NotAcceptable
    ensures ret == Success ==> old(N.V()) > 1 && IsInverse(X.V(), old(A.V()), old(N.V()))
  {
    hide Val, Gcd, Cong, Signed, IsInverse, TQuot;
    ghost var a, n := A.V(), N.V();
    var I := new Mpi.Init();
    var G := new Mpi.Init();
    var ok := InverseOfModulus(G, I, A, N);
    if !ok {
      return NotAcceptable;
    }
    OtherInverse(X, G, I, A, N);
    ret := Success;
  }

  /** The second part: X := N - (I * N - 1) / A. */
  method OtherInverse(X: Mpi, G: Mpi, I: Mpi, A: Mpi, N: Mpi)
    requires X.Ok() && G.Ok() && I.Ok() && A.Ok() && N.Ok() && Separate(X, A) && Separate(X, N)
    requires G != I && G != A && G != N && I != A && I != N && X != G && X != I
    requires G.p != I.p && G.p != A.p && G.p != N.p && I.p != A.p && I.p != N.p && X.p != G.p && X.p != I.p
    requires 1 < A.V() < N.V() && IsInverse(I.V(), N.V(), A.V())
    modifies X, X.p, G, G.p, I, I.p
    ensures X.Ok() && (X.p == old(X.p) || fresh(X.p)) && IsInverse(X.V(), old(A.V()), old(N.V()))
  {
    hide Val, Cong, Signed, IsInverse, TQuot;
    ghost var a, n, i := A.V(), N.V(), I.V();
    MulMpi(I, I, N);
    MpiSubInt(I, I, 1);
    var _ := DivMpi(G, null, I, A);
    OtherCoefficient(a, n, i, G.V());
    SubMpi(X, N, G);
  }

  /** The first part: I := N^-1 mod A. */
  method InverseOfModulus(G: Mpi, I: Mpi, A: Mpi, N: Mpi) returns (ok: bool)
    requires G.Ok() && I.Ok() && A.Ok() && N.Ok() && G != I && G != A && G != N && I != A && I != N
    requires G.p != I.p && G.p != A.p && G.p != N.p && I.p != A.p && I.p != N.p
    requires 1 < A.V() < N.V() && A.V() % 2 == 1
    modifies G, G.p, I, I.p
    ensures G.Ok() && (G.p == old(G.p) || fresh(G.p)) && I.Ok() && (I.p == old(I.p) || fresh(I.p)) && G.p != I.p
    ensures ok <==> Gcd(A.Abs(), N.Abs()) == 1
    ensures ok ==> IsInverse(I.V(), N.V(), A.V())
  {
    hide Val, Gcd, Cong, Signed, IsInverse;
    ghost var a, n := A.V(), N.V();
    PositiveV(A.s, A.Abs());
    PositiveV(N.s, N.Abs());
    GcdOfResidue(n, a);
    GcdSym(a, n);
    var _ := ModMpi(I, N, A);
    PositiveV(I.s, I.Abs());
    DivModDef(n, a);
    var r := MpiGcdModinv(G, I, I, A);
    var c := CmpInt(G, 1);
    ok := c == 0;
    if ok {
      CoreGivesInverse(1, n % a, I.V(), n, a);
    }
  }

  /** Even modulus, odd A of any size and sign. */
  method InvModEven(X: Mpi, A: Mpi, N: Mpi) returns (ret: Ret)
    requires X.Ok() && A.Ok() && N.Ok() && Separate(X, A) && Separate(X, N)
    requires N.V() > 1 && N.V() % 2 == 0 && A.V() % 2 == 1
    modifies X, X.p
    ensures X.Ok() && (X.p == old(X.p) || fresh(X.p))
    ensures ret == if old(Gcd(A.Abs(), N.Abs())) == 1 then Success else NotAcceptable
    ensures ret == Success ==> old(N.V()) > 1 && IsInverse(X.V(), old(A.V()), old(N.V()))
  {
    hide Val, Gcd, Cong, Signed, IsInverse;
    ghost var a, n := A.V(), N.V();
    PositiveV(N.s, N.Abs());
    MagAbs(A.s, A.Abs());
    GcdOfResidue(a, n);
    var AA := new Mpi.Init();
    var _ := ModMpi(AA, A, N);
    PositiveV(AA.s, AA.Abs());
    DivModDef(a, n);
    var cmp := CmpInt(AA, 1);
    if cmp < 0 {
      GcdZero(n);
      return NotAcceptable;
    }
    if cmp == 0 {
      GcdOne(n);
      OneIsInverse(a, n);
      LSet(X, 1);
      return Success;
    }
    ParityOfResidue(a, n);
    ret := InvModEvenInRange(X, AA, N);
    if ret == Success { InverseOfResidue(X.V(), a, n); }
  }

  lemma GcdOne(n: nat)
    ensures Gcd(1, n) == 1
  {
    DividesIntro(1, n, n);
    DividesIntro(1, 1, 1);
    GcdIs(1, 1, n, 1, 0);
  }

  lemma OneIsInverse(a: int, n: int)
    requires n > 1 && a % n == 1
    ensures IsInverse(1, a, n)
  {
    SmallMod(1, n);
  }

  lemma ParityOfResidue(a: int, n: int)
    requires n > 0 && n % 2 == 0 && a % 2 == 1
    ensures (a % n) % 2 == 1
  {
    DivModDef(a, n);
    var h := n / 2;
    MulAssoc(a / n, 2, h);
    MulAssoc(2, a / n, h);
    CongIntro(a, a % n, 2, (a / n) * h);
  }

  lemma InverseOfResidue(x: int, a: int, n: int)
    requires n > 1 && IsInverse(x, a % n, n)
    ensures IsInverse(x, a, n)
  {
    hide Cong;
    CongMod(a, n);
    CongRefl(x, n);
    CongMul(a, a % n, x, x, n);
    CongTrans(a * x, (a % n) * x, 1, n);
  }

  /** X := A^-1 mod N: succeeds exactly when A and N are coprime. */
  method InvMod(X: Mpi, A: Mpi, N: Mpi) returns (ret: Ret)
    requires X.Ok() && A.Ok() && N.Ok() && Separate(X, A) && Separate(X, N)
    modifies X, X.p
    ensures X.Ok() && (X.p == old(X.p) || fresh(X.p))
    ensures ret == if old(N.V()) <= 1 then BadInputData
                   else if old(Gcd(A.Abs(), N.Abs())) == 1 then Success else NotAcceptable
    ensures ret == Success ==> IsInverse(X.V(), old(A.V()), old(N.V()))
  {
    hide Val, Gcd, Cong, Signed, IsInverse;
    var c := CmpInt(N, 1);
    if c <= 0 {
      return BadInputData;
    }
    AbsParity(N.s, N.Abs());
    AbsParity(A.s, A.Abs());
    var bit := GetBit0(N);
    if bit == 1 {
      ret := InvModOdd(X, A, N);
      return;
    }
    bit := GetBit0(A);
    if bit == 1 {
      ret := InvModEven(X, A, N);
      return;
    }
    BothEven(A.Abs(), N.Abs());
    ret := NotAcceptable;
  }

  lemma BothEven(a: nat, n: nat)
    requires a % 2 == 0 && n % 2 == 0
    ensures Gcd(a, n) != 1
  {
    hide Gcd;
    GcdDouble(a / 2, n / 2);
  }

  /** Exactly the numbers coprime to n have an inverse modulo n, and only one in range. */
  lemma InverseExistsIff(a: int, n: int)
    requires n > 1
    ensures (exists x :: IsInverse(x, a, n)) <==> Gcd(Mag(a), n) == 1
  {
    hide Gcd, Cong;
    var m := Mag(a);
    if x :| IsInverse(x, a, n) {
      if a < 0 { SignSwap(a, x); }
      InverseImpliesCoprime(m, if a < 0 then -x else x, n);
    }
    if Gcd(m, n) == 1 {
      var u, v := Bezout(m, n);
      var w := if a < 0 then -u else u;
      if a < 0 { SignSwap(a, u); }
      CongIntro(a * w, 1, n, -v);
      var x := w % n;
      CongMod(w, n);
      CongRefl(a, n);
      CongMul(a, a, x, w, n);
      CongTrans(a * x, a * w, 1, n);
      if x == 0 { ZeroNotOne(a, n); }
      assert IsInverse(x, a, n);
    }
  }

  lemma SignSwap(a: int, x: int)
    ensures (-a) * (-x) == a * x && a * (-x) == (-a) * x && (-a) * x == -(a * x)
  {}

  lemma InverseUnique(x: int, y: int, a: int, n: int)
    requires IsInverse(x, a, n) && IsInverse(y, a, n)
    ensures x == y
  {
    hide Cong;
    CongRefl(x, n);
    CongRefl(y, n);
    CongMul(a * y, 1, x, x, n);
    CongMul(a * x, 1, y, y, n);
    Rotate(a, x, y);
    CongSwap((a * y) * x, 1 * x, n);
    CongTrans(1 * x, (a * x) * y, 1 * y, n);
    CongUnique(x, y, n);
  }

  lemma Rotate(a: int, x: int, y: int)
    ensures (a * y) * x == (a * x) * y
  {}
}
