/** bignum_mod_raw.c: arithmetic on residues held as limb arrays of the modulus' size. */
module ModRaw {
  import opened Arith
  import opened NumberTheory
  import opened Fermat
  import opened Limbs
  import opened BignumCore
  import opened GcdSteps
  import opened GcdModinv
  import opened Montgomery
  import opened MontForm
  import opened ExpMod

  /** X := A - B mod N. */
  method RawSub(X: array<Limb>, A: array<Limb>, B: array<Limb>, N: array<Limb>, n: nat)
    requires n <= X.Length && n <= A.Length && n <= B.Length && n <= N.Length && X != N
    requires Val(A[0..n]) < Val(N[..n]) && Val(B[0..n]) < Val(N[..n])
    modifies X
    ensures Val(X[0..n]) == old(Val(A[0..n]) - Val(B[0..n])) % Val(N[..n])
    ensures OnlyWrites(X, 0, n)
  {
    hide Val;
    ghost var a, b, m := Val(A[0..n]), Val(B[0..n]), Val(N[..n]);
    SubModN(X, 0, A, 0, B, 0, N, n);
    SubModIsMod(a, b, m);
  }

  lemma SubModIsMod(a: nat, b: nat, m: nat)
    requires a < m && b < m
    ensures SubMod(a, b, m) == (a - b) % m
  {
    DivModUnique(a - b, m, if a >= b then 0 else -1, SubMod(a, b, m));
  }

  /** Subtracts N, and adds it back if that borrowed: reduces X from [0, 2N). */
  method FixQuasiReduction(X: array<Limb>, N: array<Limb>, n: nat)
    requires n <= X.Length && n <= N.Length && X != N
    requires 0 < Val(N[..n]) && Val(X[0..n]) < 2 * Val(N[..n])
    modifies X
    ensures Val(X[0..n]) == old(Val(X[0..n])) % Val(N[..n])
    ensures OnlyWrites(X, 0, n)
  {
    hide Val, Scale;
    ghost var x, m := Val(X[0..n]), Val(N[..n]);
    assert N[0..n] == N[..n];
    var c := Sub(X, 0, X, 0, N, 0, n);
    ghost var y := Val(X[0..n]);
    ValBound(X[0..n]);
    ValBound(N[..n]);
    BorrowIs(y, c, Scale(n), x, m);
    assert N[0..n] == N[..n];
    var c2 := AddIf(X, 0, N, 0, n, c == 1);
    ValBound(X[0..n]);
    QuasiReduced(x, m, Scale(n), y, c, Val(X[0..n]), c2);
  }

  lemma QuasiReduced(x: nat, m: nat, s: nat, y: nat, c: Limb, z: nat, c2: Limb)
    requires x < 2 * m && m < s && z < s && c2 <= 1 && c <= 1
    requires (c == 1 <==> x < m) && y == x - m + (if c == 1 then s else 0)
    requires z + c2 * s == y + (if c == 1 then m else 0)
    requires m > 0
    ensures z == x % m
  {
    if x < m {
      DivModUnique(x, m, 0, x);
    } else {
      DivModUnique(x, m, 1, x - m);
    }
  }

  /** X := A + B mod N. */
  method RawAdd(X: array<Limb>, A: array<Limb>, B: array<Limb>, N: array<Limb>, n: nat)
    requires n <= X.Length && n <= A.Length && n <= B.Length && n <= N.Length && X != N
    requires Val(A[0..n]) < Val(N[..n]) && Val(B[0..n]) < Val(N[..n])
    modifies X
    ensures Val(X[0..n]) == old(Val(A[0..n]) + Val(B[0..n])) % Val(N[..n])
    ensures OnlyWrites(X, 0, n)
  {
    hide Val, Scale;
    ghost var a, b, m := Val(A[0..n]), Val(B[0..n]), Val(N[..n]);
    var carry := Add(X, 0, A, 0, B, 0, n);
    ghost var x := Val(X[0..n]);
    ValBound(X[0..n]);
    ValBound(N[..n]);
    assert N[0..n] == N[..n];
    var borrow := Sub(X, 0, X, 0, N, 0, n);
    ghost var y := Val(X[0..n]);
    ValBound(X[0..n]);
    BorrowIs(y, borrow, Scale(n), x, m);
    assert N[0..n] == N[..n];
    var c2 := AddIf(X, 0, N, 0, n, carry != borrow);
    ValBound(X[0..n]);
    AddReduced(a, b, m, Scale(n), carry, x, borrow, y, Val(X[0..n]), c2);
  }

  lemma AddReduced(a: nat, b: nat, m: nat, s: nat, carry: Limb, x: nat, borrow: Limb, y: nat, z: nat, c2: Limb)
    requires a < m && b < m && m < s && x < s && y < s && z < s && carry <= 1 && borrow <= 1 && c2 <= 1
    requires x + carry * s == a + b
    requires (borrow == 1 <==> x < m) && y == x - m + (if borrow == 1 then s else 0)
    requires z + c2 * s == y + (if carry != borrow then m else 0)
    ensures z == (a + b) % m
  {
    if a + b < m {
      assert carry == 0 && borrow == 1 && c2 == 1;
      DivModUnique(a + b, m, 0, a + b);
    } else {
      assert carry == borrow && c2 == 0;
      DivModUnique(a + b, m, 1, a + b - m);
    }
  }

  /** X := -A mod N. */
  method RawNeg(X: array<Limb>, A: array<Limb>, N: array<Limb>, n: nat)
    requires n <= X.Length && n <= A.Length && n <= N.Length && X != N
    requires Val(A[0..n]) < Val(N[..n])
    modifies X
    ensures Val(X[0..n]) == (0 - old(Val(A[0..n])) as int) % Val(N[..n])
    ensures OnlyWrites(X, 0, n)
  {
    hide Val, Scale;
    ghost var a, m := Val(A[0..n]), Val(N[..n]);
    assert N[0..n] == N[..n];
    var c := Sub(X, 0, N, 0, A, 0, n);
    ValBound(X[0..n]);
    BorrowIs(Val(X[0..n]), c, Scale(n), m, a);
    assert N[0..n] == N[..n];
    FixQuasiReduction(X, N, n);
    NegMod(a, m);
  }

  lemma NegMod(a: nat, m: nat)
    requires a < m
    ensures (m - a) % m == -(a as int) % m
  {
    CongIntro(m - a, -(a as int), m, 1);
  }

  /** A := Montgomery form of A. */
  method ToMontRep(X: array<Limb>, A: array<Limb>, N: array<Limb>, n: nat, mm: Limb, rr: array<Limb>, T: array<Limb>)
    requires 0 < n <= N.Length && n <= X.Length && n <= A.Length && n <= rr.Length && 2 * n + 1 <= T.Length
    requires T != X && T != A && T != rr && T != N && X != N && X != rr
    requires N[0] % 2 == 1 && Cong(N[0] * mm, -1, BASE)
    requires Val(rr[..n]) < Val(N[..n]) && Cong(Val(rr[..n]), Scale(n) * Scale(n), Val(N[..n]))
    modifies X, T
    ensures Rep(Val(X[0..n]), old(Val(A[0..n])), n, Val(N[..n]))
    ensures OnlyWrites(X, 0, n)
  {
    hide Val, Scale, Cong, Rep;
    ghost var ns, rs, a := N[..n], rr[..n], Val(A[0..n]);
    assert rr[0..n] == rs;
    ValBound(A[0..n]);
    ValBound(ns);
    ValParity(ns);
    CanonicalFits(a, Val(rs), n, Val(ns));
    Montmul(X, 0, A, 0, rr, 0, n, N, n, mm, T, 0);
    assert N[..n] == ns;
    RepTo(Val(X[0..n]), a, Val(rs), n, Val(ns));
  }

  /** A := the number A is the Montgomery form of, reduced modulo N. */
  method FromMontRep(X: array<Limb>, A: array<Limb>, N: array<Limb>, n: nat, mm: Limb, T: array<Limb>, ghost v: nat)
    requires 0 < n <= N.Length && n <= X.Length && n <= A.Length && 2 * n + 1 <= T.Length
    requires T != X && T != A && T != N && X != N
    requires N[0] % 2 == 1 && Cong(N[0] * mm, -1, BASE)
    requires Rep(Val(A[0..n]), v, n, Val(N[..n]))
    modifies X, T
    ensures Val(X[0..n]) == v % Val(N[..n])
    ensures OnlyWrites(X, 0, n)
  {
    hide Val, Scale, Cong, Rep;
    ghost var ns, a := N[..n], Val(A[0..n]);
    var one := new Limb[1];
    one[0] := 1;
    OneLimb(one[0..1]);
    ValBound(ns);
    ValParity(ns);
    RepLess(a, v, n, Val(ns));
    OneFits(a, n, Val(ns));
    Montmul(X, 0, A, 0, one, 0, 1, N, n, mm, T, 0);
    assert N[..n] == ns;
    RepFrom(Val(X[0..n]), a, v, n, Val(ns));
  }

  lemma OneFits(a: nat, n: nat, m: nat)
    requires a < m
    ensures a * 1 < Scale(n) * m
  {
    ScalePos(n);
    MulLe(1, Scale(n), m);
  }

  function InvPrimeWorkingLimbs(n: nat): nat
  {
    n + WorkingLimbs(n, n)
  }

  /** The inverse modulo a prime, as the power N - 2. w is the number whose Montgomery form X holds. */
  method InvPrime(X: array<Limb>, A: array<Limb>, N: array<Limb>, n: nat, RR: array<Limb>, T: array<Limb>, ghost v: nat)
    returns (ghost w: nat)
    requires 0 < n <= N.Length && n <= X.Length && n <= A.Length && n <= RR.Length
    requires InvPrimeWorkingLimbs(n) <= T.Length
    requires T != X && T != A && T != N && T != RR && X != N && X != RR
    requires N[0] % 2 == 1 && Prime(Val(N[..n]))
    requires Rep(Val(A[..n]), v, n, Val(N[..n])) && Val(A[..n]) != 0
    requires Val(RR[..n]) < Val(N[..n]) && Cong(Val(RR[..n]), Scale(n) * Scale(n), Val(N[..n]))
    modifies X, T
    ensures Rep(Val(X[0..n]), w, n, Val(N[..n])) && Cong(v * w, 1, Val(N[..n]))
    ensures w == Pow(v, Val(N[..n]) - 2)
    ensures OnlyWrites(X, 0, n)
  {
    hide Val, Scale, Cong, Rep, Pow, Prime, Divides, WorkingLimbs;
    ghost var ns := N[..n];
    ghost var m := Val(ns);
    ValParity(ns);
    OddPrime(m);
    assert N[0..n] == ns;
    var c := SubInt(T, 0, N, 0, 2, n);
    ValBound(T[0..n]);
    NoBorrow(Val(T[0..n]), c, Scale(n), m);
    assert N[..n] == ns;
    NonzeroRep(Val(A[..n]), v, n, m);
    CoreExpMod(X, A, N, n, T, 0, n, RR, T, n, v);
    assert N[..n] == ns;
    FermatLittle(m, v);
    w := Pow(v, m - 2);
  }

  lemma OddPrime(m: nat)
    requires Prime(m) && m % 2 == 1
    ensures m >= 3
  {}

  lemma NoBorrow(x: nat, c: Limb, s: nat, m: nat)
    requires x < s && c <= 1 && x - c * s == m - 2 && m >= 3
    ensures x == m - 2
  {}

  lemma NonzeroRep(x: nat, v: nat, n: nat, m: nat)
    requires Rep(x, v, n, m) && x != 0
    ensures !Divides(m, v)
  {
    hide Scale;
    if Divides(m, v) {
      var k := DividesElim(m, v);
      assert (k * m) * Scale(n) == (k * Scale(n)) * m;
      CongIntro(v * Scale(n), 0, m, k * Scale(n));
      CongUnique(x, 0, m);
    }
  }
}
