/** bignum_core.c: arithmetic modulo an odd number, and the constant-time gcd and
    modular inverse, on the limb arrays the library works on. */
module GcdModinv {
  import opened Arith
  import opened NumberTheory
  import opened Limbs
  import opened Words
  import opened BignumCore
  import opened Shifts
  import opened GcdSteps
  import BitLength

  /** X := A - B mod N, for A and B in [0, N). */
  method SubModN(X: array<Limb>, xo: nat, A: array<Limb>, ao: nat, B: array<Limb>, bo: nat, N: array<Limb>, limbs: nat)
    requires xo + limbs <= X.Length && ao + limbs <= A.Length && bo + limbs <= B.Length && limbs <= N.Length
    requires SameOrApart(X, xo, A, ao, limbs) && SameOrApart(X, xo, B, bo, limbs) && X != N
    requires Val(A[ao..ao + limbs]) < Val(N[..limbs]) && Val(B[bo..bo + limbs]) < Val(N[..limbs])
    modifies X
    ensures Val(X[xo..xo + limbs]) == SubMod(old(Val(A[ao..ao + limbs])), old(Val(B[bo..bo + limbs])), Val(N[..limbs]))
    ensures OnlyWrites(X, xo, limbs)
  {
    hide Val, Scale;
    ghost var a, b, m := Val(A[ao..ao + limbs]), Val(B[bo..bo + limbs]), Val(N[..limbs]);
    var c := Sub(X, xo, A, ao, B, bo, limbs);
    ghost var x := Val(X[xo..xo + limbs]);
    ValBound(X[xo..xo + limbs]);
    ValBound(N[..limbs]);
    BorrowIs(x, c, Scale(limbs), a, b);
    var c2 := AddIf(X, xo, N, 0, limbs, c == 1);
    assert N[0..0 + limbs] == N[..limbs];
    ValBound(X[xo..xo + limbs]);
    AddBack(Val(X[xo..xo + limbs]), c2, Scale(limbs), x, if c == 1 then m else 0, a - b + c * Scale(limbs), c);
  }

  lemma BorrowIs(x: nat, c: Limb, s: nat, a: nat, b: nat)
    requires x < s && c <= 1 && x - c * s == a - b
    ensures c == 1 <==> a < b
    ensures x == a - b + (if c == 1 then s else 0)
  {}

  lemma AddBack(y: nat, c2: Limb, s: nat, x: nat, m: nat, x': int, c: Limb)
    requires y < s && c2 <= 1 && y + c2 * s == x + m && x == x' && c <= 1
    ensures y == x + m || y == x + m - s
  {}

  /** X := X / 2 mod N in place, for odd N and X in [0, N). */
  method Div2ModOdd(X: array<Limb>, xo: nat, N: array<Limb>, limbs: nat)
    requires xo + limbs <= X.Length && 0 < limbs <= N.Length && X != N
    requires Val(N[..limbs]) % 2 == 1
    modifies X
    ensures Val(X[xo..xo + limbs]) == HalfMod(old(Val(X[xo..xo + limbs])), Val(N[..limbs]))
    ensures OnlyWrites(X, xo, limbs)
  {
    hide Val, Scale, Pow, BitOr, Shl;
    ghost var x, m := Val(X[xo..xo + limbs]), Val(N[..limbs]);
    ValParity(X[xo..xo + limbs]);
    var odd := X[xo] % 2 == 1;
    var c := AddIf(X, xo, N, 0, limbs, odd);
    assert N[0..0 + limbs] == N[..limbs];
    ghost var s := X[xo..xo + limbs];
    ShiftR(X, xo, limbs, 1);
    ghost var h := X[xo..xo + limbs];
    ValBound(s);
    PowOne();
    TopBit(s, h, c);
    X[xo + limbs - 1] := BitOr(X[xo + limbs - 1], Shl(c, LIMB_BITS - 1));
    assert X[xo..xo + limbs] == h[limbs - 1 := X[xo + limbs - 1]];
    HalfExact(Val(X[xo..xo + limbs]), Val(s), c, Scale(limbs), x, if odd then m else 0);
  }

  lemma HalfExact(y: nat, v: nat, c: Limb, s: nat, x: nat, m: nat)
    requires c <= 1 && s % 2 == 0 && v + c * s == x + m && (x + m) % 2 == 0
    requires 2 * y == 2 * (v / 2) + c * s
    ensures 2 * y == x + m
  {
    if c == 1 { assert v % 2 == 0; }
  }

  /** Putting the carry of the addition into the bit the shift has freed. */
  lemma TopBit(s: seq<Limb>, h: seq<Limb>, c: Limb)
    requires |h| == |s| > 0 && c <= 1 && Val(h) == Val(s) / 2
    ensures Scale(|s|) % 2 == 0
    ensures BitOr(h[|s| - 1], Shl(c, LIMB_BITS - 1)) < BASE
    ensures 2 * Val(h[|s| - 1 := BitOr(h[|s| - 1], Shl(c, LIMB_BITS - 1))]) == 2 * (Val(s) / 2) + c * Scale(|s|)
  {
    hide Val, Scale, BitOr, Shl;
    var n, half := |s| - 1, BASE / 2;
    var top := h[n];
    HalfScale(n, half);
    TopFree(s, h, n, half);
    OrTop(top, c);
    ValUpdate(h, h[n := top + c * half], n);
    TopArith(top, c, half, Scale(n), top + c * half);
  }

  lemma HalfScale(n: nat, half: nat)
    requires half == BASE / 2
    ensures Scale(n + 1) == 2 * (half * Scale(n)) && BASE == 2 * half
  {
    hide Scale;
    ScaleNext(n);
    assert BASE == 2 * half;
    MulAssoc(2, half, Scale(n));
  }

  /** Half of a number leaves the highest bit free. */
  lemma TopFree(s: seq<Limb>, h: seq<Limb>, n: nat, half: nat)
    requires |h| == |s| == n + 1 && Val(h) == Val(s) / 2 && half == BASE / 2
    ensures h[n] < half
  {
    hide Val, Scale;
    HalfScale(n, half);
    ValBound(s);
    ValPrefix(h, n);
    assert h[..n + 1] == h;
    TopSmall(h[n], Scale(n), half, Val(h));
  }

  lemma TopSmall(top: nat, p: nat, half: nat, v: nat)
    requires 2 * v < 2 * (half * p) && p * top <= v
    ensures top < half
  {
    if top >= half { MulLe(half, top, p); }
  }

  lemma TopArith(top: int, c: int, half: int, p: int, y: int)
    requires y == top + c * half
    ensures 2 * (p * y) == 2 * (p * top) + c * (2 * (half * p))
  {
    hide *;
    MulDist(p, top, c * half);
    MulAssoc(p, c, half);
    MulAssoc(c, p, half);
    MulAssoc(c, 2, half * p);
  }

  lemma OrTop(top: Limb, c: Limb)
    requires top < BASE / 2 && c <= 1
    ensures BitOr(top, Shl(c, LIMB_BITS - 1)) == top + c * (BASE / 2) < BASE
  {
    hide Pow, BitOr, Shl, Shr;
    ShlSplit(c, LIMB_BITS - 1);
    PowOne();
    assert LIMB_BITS - (LIMB_BITS - 1) == 1;
    assert c % 2 == c;
    OrSwap(top, Shl(c, LIMB_BITS - 1));
    OrDisjoint(c, top, LIMB_BITS - 1);
  }

  // ----- the loop body -----

  /** X := cond ? B : A, by a copy and a conditional assignment. */
  method Select(X: array<Limb>, xo: nat, A: array<Limb>, ao: nat, B: array<Limb>, bo: nat, cond: bool, n: nat)
    requires xo + n <= X.Length && ao + n <= A.Length && bo + n <= B.Length
    requires Apart(X, xo, n, A, ao, n) && Apart(X, xo, n, B, bo, n)
    modifies X
    ensures X[xo..xo + n] == old(if cond then B[bo..bo + n] else A[ao..ao + n])
    ensures OnlyWrites(X, xo, n)
  {
    ghost var bs := B[bo..bo + n];
    Copy(X, xo, A, ao, n);
    assert B[bo..bo + n] == bs;
    CondAssign(X, xo, B, bo, n, cond);
  }

  /** First half of an iteration on u = T[0..n] and v = G: leaves d, t1 (what is kept)
      and t2 (what is halved) in the next three slices of T. */
  method SelectUV(T: array<Limb>, G: array<Limb>, n: nat, uOdd: bool, vOdd: bool)
    requires 0 < n <= G.Length && 4 * n <= T.Length && T != G
    requires Val(T[0..n]) <= Val(G[0..n])
    requires uOdd == (Val(T[0..n]) % 2 == 1) && vOdd == (Val(G[0..n]) % 2 == 1)
    modifies T
    ensures Val(T[2 * n..2 * n + n]) == old(Kept(Val(T[0..n]), Val(G[0..n])))
    ensures Val(T[3 * n..3 * n + n]) == old(Halved(Val(T[0..n]), Val(G[0..n]))) / 2
    ensures OnlyWrites(T, n, 3 * n)
  {
    hide Val, Scale;
    ghost var us, vs := T[0..n], G[0..n];
    var c := Sub(T, n, G, 0, T, 0, n);
    ghost var ds := T[n..n + n];
    ValBound(ds);
    BorrowIs(Val(ds), c, Scale(n), Val(vs), Val(us));
    assert T[0..n] == us;
    Select(T, 2 * n, T, n, T, 0, uOdd && vOdd, n);
    ghost var ks := T[2 * n..2 * n + n];
    assert T[0..n] == us && T[n..n + n] == ds;
    SelectHalve(T, 3 * n, T, 0, G, 0, uOdd && !vOdd, T, n, uOdd && vOdd, n);
    assert T[2 * n..2 * n + n] == ks;
  }

  /** X := (condC ? C : condB ? B : A) >> 1. */
  method SelectHalve(X: array<Limb>, xo: nat, A: array<Limb>, ao: nat, B: array<Limb>, bo: nat, condB: bool,
                     C: array<Limb>, co: nat, condC: bool, n: nat)
    requires xo + n <= X.Length && ao + n <= A.Length && bo + n <= B.Length && co + n <= C.Length
    requires Apart(X, xo, n, A, ao, n) && Apart(X, xo, n, B, bo, n) && Apart(X, xo, n, C, co, n)
    modifies X
    ensures Val(X[xo..xo + n])
         == old(Val(if condC then C[co..co + n] else if condB then B[bo..bo + n] else A[ao..ao + n])) / 2
    ensures OnlyWrites(X, xo, n)
  {
    hide Val;
    ghost var cs := C[co..co + n];
    Select(X, xo, A, ao, B, bo, condB, n);
    assert C[co..co + n] == cs;
    CondAssign(X, xo, C, co, n, condC);
    PowOne();
    ShiftR(X, xo, n, 1);
  }

  /** Second half: u, v := t1, t2, swapped if that is needed to keep u <= v. */
  method UpdateUV(T: array<Limb>, G: array<Limb>, n: nat) returns (swap: bool)
    requires 0 < n <= G.Length && 4 * n <= T.Length && T != G
    modifies T, G
    ensures Pair(Val(T[0..n]), Val(G[0..n])) == old(Ordered(Val(T[2 * n..2 * n + n]), Val(T[3 * n..3 * n + n])))
    ensures swap == old(Val(T[3 * n..3 * n + n]) < Val(T[2 * n..2 * n + n]))
    ensures OnlyWrites(T, 0, n) && OnlyWrites(G, 0, n)
  {
    hide Val;
    ghost var t2 := T[3 * n..3 * n + n];
    Copy(T, 0, T, 2 * n, n);
    assert T[3 * n..3 * n + n] == t2;
    Copy(G, 0, T, 3 * n, n);
    swap := LtCt(G, 0, T, 0, n);
    CondSwap(T, 0, G, 0, n, swap);
  }

  /** The same selection on q = I and r = T[4n..5n], modulo N. */
  method SelectQR(T: array<Limb>, I: array<Limb>, N: array<Limb>, n: nat, uOdd: bool, vOdd: bool)
    requires 0 < n <= I.Length && 5 * n <= T.Length && n <= N.Length
    requires T != I && N != T && N != I
    requires Val(N[..n]) % 2 == 1 && Val(I[0..n]) < Val(N[..n]) && Val(T[4 * n..4 * n + n]) < Val(N[..n])
    modifies T
    ensures var m, q, r := Val(N[..n]), old(Val(I[0..n])), old(Val(T[4 * n..4 * n + n]));
            var d := SubMod(q, r, m);
            Val(T[2 * n..2 * n + n]) == (if uOdd && vOdd then r else d) &&
            Val(T[3 * n..3 * n + n]) == HalfMod(if uOdd && vOdd then d else if uOdd then q else r, m)
    ensures OnlyWrites(T, n, 3 * n)
  {
    hide Val, SubMod, HalfMod;
    ghost var qs, rs, ns := I[0..n], T[4 * n..4 * n + n], N[..n];
    SubModN(T, n, I, 0, T, 4 * n, N, n);
    assert T[4 * n..4 * n + n] == rs && I[0..n] == qs && N[..n] == ns;
    SubModRange(Val(qs), Val(rs), Val(ns));
    SelectBoth(T, n, 2 * n, 3 * n, 4 * n, I, N, n, uOdd, vOdd);
    assert N[..n] == ns;
  }

  /** The two selections, into t1 and t2, once d = q - r is there. */
  method SelectBoth(T: array<Limb>, d: nat, t1: nat, t2: nat, r: nat, I: array<Limb>, N: array<Limb>, n: nat, uOdd: bool, vOdd: bool)
    requires 0 < n <= I.Length && d + n <= t1 && t1 + n == t2 && t2 + n <= r && r + n <= T.Length && n <= N.Length
    requires T != I && N != T && N != I && Val(N[..n]) % 2 == 1
    modifies T
    ensures var ds, qs, rs := old(T[d..d + n]), old(I[0..n]), old(T[r..r + n]);
            T[t1..t1 + n] == (if uOdd && vOdd then rs else ds) &&
            Val(T[t2..t2 + n]) == HalfMod(Val(if uOdd && vOdd then ds else if uOdd then qs else rs), Val(N[..n]))
    ensures OnlyWrites(T, t1, 2 * n)
  {
    hide Val, HalfMod;
    ghost var t0 := T[..];
    Select(T, t1, T, d, T, r, uOdd && vOdd, n);
    KeptSlice(T, t0, r, r + n);
    KeptSlice(T, t0, d, d + n);
    ghost var t3 := T[..];
    SelectHalveMod(T, t2, T, r, I, 0, uOdd && !vOdd, T, d, uOdd && vOdd, N, n);
    KeptSlice(T, t3, t1, t1 + n);
  }

  /** X := (condC ? C : condB ? B : A) / 2 mod N. */
  method SelectHalveMod(X: array<Limb>, xo: nat, A: array<Limb>, ao: nat, B: array<Limb>, bo: nat, condB: bool,
                        C: array<Limb>, co: nat, condC: bool, N: array<Limb>, n: nat)
    requires xo + n <= X.Length && ao + n <= A.Length && bo + n <= B.Length && co + n <= C.Length && 0 < n <= N.Length
    requires Apart(X, xo, n, A, ao, n) && Apart(X, xo, n, B, bo, n) && Apart(X, xo, n, C, co, n) && X != N
    requires Val(N[..n]) % 2 == 1
    modifies X
    ensures Val(X[xo..xo + n])
         == old(HalfMod(Val(if condC then C[co..co + n] else if condB then B[bo..bo + n] else A[ao..ao + n]), Val(N[..n])))
    ensures OnlyWrites(X, xo, n)
  {
    hide Val, HalfMod;
    ghost var cs, ns := C[co..co + n], N[..n];
    Select(X, xo, A, ao, B, bo, condB, n);
    assert C[co..co + n] == cs;
    CondAssign(X, xo, C, co, n, condC);
    assert N[..n] == ns;
    Div2ModOdd(X, xo, N, n);
  }

  method UpdateQR(T: array<Limb>, t1: nat, t2: nat, r: nat, I: array<Limb>, n: nat, swap: bool)
    requires 0 < n <= I.Length && t1 + n <= t2 && t2 + n <= r && r + n <= T.Length && T != I
    modifies T, I
    ensures T[r..r + n] == old(if swap then T[t2..t2 + n] else T[t1..t1 + n])
    ensures I[0..n] == old(if swap then T[t1..t1 + n] else T[t2..t2 + n])
    ensures OnlyWrites(T, r, n) && OnlyWrites(I, 0, n)
  {
    ghost var t0 := T[..];
    Copy(T, r, T, t1, n);
    KeptSlice(T, t0, t2, t2 + n);
    Copy(I, 0, T, t2, n);
    CondSwap(T, r, I, 0, n, swap);
  }

  /** One iteration: u, v take a step, and q, r, if present, follow it. */
  method Iterate(G: array<Limb>, I: array?<Limb>, N: array<Limb>, n: nat, T: array<Limb>, ghost a: nat)
    requires 0 < n <= N.Length && n <= G.Length && T.Length >= (if I == null then 4 else 5) * n
    requires T != G && T != I && T != N
    requires I != null ==> I.Length >= n && I != G && I != N && G != N && Val(N[..n]) % 2 == 1
    requires Reducible(Pair(Val(T[0..n]), Val(G[0..n])))
    requires I != null ==> Mirrors(Pair(Val(T[0..n]), Val(G[0..n])), a, Val(I[0..n]), Val(T[4 * n..4 * n + n]), Val(N[..n]))
    modifies G, T, if I == null then {} else {I}
    ensures Pair(Val(T[0..n]), Val(G[0..n])) == old(Step(Pair(Val(T[0..n]), Val(G[0..n]))))
    ensures I != null ==> Mirrors(Pair(Val(T[0..n]), Val(G[0..n])), a, Val(I[0..n]), Val(T[4 * n..4 * n + n]), Val(N[..n]))
    ensures OnlyWrites(G, 0, n) && (I != null ==> OnlyWrites(I, 0, n) && N[..n] == old(N[..n]))
  {
    hide Val, Gcd, Cong, SubMod, HalfMod;
    ghost var p := Pair(Val(T[0..n]), Val(G[0..n]));
    ValParity(T[0..n]);
    ValParity(G[0..n]);
    var uOdd, vOdd := T[0] % 2 == 1, G[0] % 2 == 1;
    ghost var rs := if I != null then T[4 * n..4 * n + n] else [];
    SelectUV(T, G, n, uOdd, vOdd);
    if I == null {
      var swap := UpdateUV(T, G, n);
    } else {
      assert T[4 * n..4 * n + n] == rs;
      var swap := UpdateUV(T, G, n);
      assert T[4 * n..4 * n + n] == rs;
      ghost var t0 := T[..];
      FollowQR(T, I, N, n, uOdd, vOdd, swap, p, a);
      KeptSlice(T, t0, 0, n);
    }
  }

  /** q and r take the step that u and v = p have taken. */
  method FollowQR(T: array<Limb>, I: array<Limb>, N: array<Limb>, n: nat, uOdd: bool, vOdd: bool, swap: bool, ghost p: Pair, ghost a: nat)
    requires 0 < n <= I.Length && 5 * n <= T.Length && n <= N.Length && T != I && N != T && N != I
    requires Val(N[..n]) % 2 == 1 && Reducible(p) && uOdd == (p.u % 2 == 1) && vOdd == (p.v % 2 == 1)
    requires swap == (Halved(p.u, p.v) / 2 < Kept(p.u, p.v))
    requires Mirrors(p, a, Val(I[0..n]), Val(T[4 * n..4 * n + n]), Val(N[..n]))
    modifies T, I
    ensures Mirrors(Step(p), a, Val(I[0..n]), Val(T[4 * n..4 * n + n]), Val(N[..n]))
    ensures OnlyWrites(T, n, 4 * n) && OnlyWrites(I, 0, n)
  {
    hide Val, Gcd, Cong, SubMod, HalfMod, Step;
    ghost var ns := N[..n];
    StepMirrors(p, a, Val(I[0..n]), Val(T[4 * n..4 * n + n]), Val(ns));
    SelectQR(T, I, N, n, uOdd, vOdd);
    assert N[..n] == ns;
    UpdateQR(T, 2 * n, 3 * n, 4 * n, I, n, swap);
    assert N[..n] == ns;
  }

  /** u, v := A, N and q, r := 0, 1. */
  method Initialise(G: array<Limb>, I: array?<Limb>, A: array<Limb>, Alimbs: nat, N: array<Limb>, n: nat, T: array<Limb>)
    requires Alimbs <= A.Length && Alimbs <= n && 0 < n <= N.Length && n <= G.Length
    requires T.Length >= (if I == null then 4 else 5) * n
    requires T != G && T != I && T != A && T != N
    requires I != null ==> I.Length >= n && I != G && I != N && G != N
    modifies G, T, if I == null then {} else {I}
    ensures Val(T[0..n]) == old(Val(A[..Alimbs])) && Val(G[0..n]) == old(Val(N[..n]))
    ensures I != null ==> Val(I[0..n]) == 0 && Val(T[4 * n..4 * n + n]) == 1 && N[..n] == old(N[..n]) && OnlyWrites(I, 0, n)
    ensures OnlyWrites(G, 0, n)
  {
    hide Val;
    ghost var low := A[0..Alimbs];
    assert A[..Alimbs] == low && N[..n] == N[0..n];
    Copy(T, 0, A, 0, Alimbs);
    Zero(T, Alimbs, n - Alimbs);
    assert T[0..n] == low + T[Alimbs..n];
    PadZero(low, T[Alimbs..n]);
    if G != N {
      Copy(G, 0, N, 0, n);
    }
    if I != null {
      ghost var t0 := T[..];
      StartQR(T, 4 * n, I, n);
      KeptSlice(T, t0, 0, n);
    }
  }

  method StartQR(T: array<Limb>, r: nat, I: array<Limb>, n: nat)
    requires 0 < n <= I.Length && r + n <= T.Length && T != I
    modifies T, I
    ensures Val(I[0..n]) == 0 && Val(T[r..r + n]) == 1 && OnlyWrites(I, 0, n) && OnlyWrites(T, r, n)
  {
    hide Val;
    Zero(I, 0, n);
    Zero(T, r, n);
    T[r] := 1;
    OneLimb(T[r..r + n]);
    ValZero(I[0..n]);
  }

  /** GCD(A, N) and, unless I is null, a number I in [0, N) with A * I = GCD(A, N) mod N,
      in a number of iterations that depends only on the limb counts. */
  method GcdModinvOdd(G: array<Limb>, I: array?<Limb>, A: array<Limb>, Alimbs: nat, N: array<Limb>, Nlimbs: nat, T: array<Limb>)
    requires Clamped(Alimbs, Nlimbs) <= A.Length && 0 < Nlimbs <= N.Length && Nlimbs <= G.Length
    requires T.Length >= (if I == null then 4 else 5) * Nlimbs
    requires T != G && T != I && T != A && T != N
    requires I != null ==> I.Length >= Nlimbs && I != G && I != N && G != N && Val(N[..Nlimbs]) > 1
    requires Val(N[..Nlimbs]) % 2 == 1 && Val(A[..Clamped(Alimbs, Nlimbs)]) <= Val(N[..Nlimbs])
    modifies G, T, if I == null then {} else {I}
    ensures Val(G[..Nlimbs]) == old(Gcd(Val(A[..Clamped(Alimbs, Nlimbs)]), Val(N[..Nlimbs])))
    ensures I != null ==> N[..Nlimbs] == old(N[..Nlimbs]) && Val(I[..Nlimbs]) < Val(N[..Nlimbs])
    ensures I != null ==> Cong(Val(G[..Nlimbs]), old(Val(A[..Clamped(Alimbs, Nlimbs)])) * Val(I[..Nlimbs]), Val(N[..Nlimbs]))
    ensures OnlyWrites(G, 0, Nlimbs) && (I != null ==> OnlyWrites(I, 0, Nlimbs))
  {
    var limbs := Alimbs;
    if limbs > Nlimbs {
      limbs := Nlimbs;
    }
    GcdLoop(G, I, A, limbs, N, Nlimbs, T);
  }

  /** Limbs of A above those of N are not read. */
  function Clamped(Alimbs: nat, Nlimbs: nat): nat
  {
    if Alimbs > Nlimbs then Nlimbs else Alimbs
  }

  /** The initial values and the loop. */
  method GcdLoop(G: array<Limb>, I: array?<Limb>, A: array<Limb>, Alimbs: nat, N: array<Limb>, n: nat, T: array<Limb>)
    requires Alimbs <= A.Length && Alimbs <= n && 0 < n <= N.Length && n <= G.Length
    requires T.Length >= (if I == null then 4 else 5) * n
    requires T != G && T != I && T != A && T != N
    requires I != null ==> I.Length >= n && I != G && I != N && G != N && Val(N[..n]) > 1
    requires Val(N[..n]) % 2 == 1 && Val(A[..Alimbs]) <= Val(N[..n])
    modifies G, T, if I == null then {} else {I}
    ensures Val(G[..n]) == old(Gcd(Val(A[..Alimbs]), Val(N[..n])))
    ensures I != null ==> N[..n] == old(N[..n]) && Val(I[..n]) < Val(N[..n])
    ensures I != null ==> Cong(Val(G[..n]), old(Val(A[..Alimbs])) * Val(I[..n]), Val(N[..n]))
    ensures OnlyWrites(G, 0, n) && (I != null ==> OnlyWrites(I, 0, n))
  {
    hide Val, Gcd, Steps, Step, BitLen, Cong;
    ghost var a, m := Val(A[..Alimbs]), Val(N[..n]);
    ghost var p := Pair(a, m);
    BitLength.LimbsBits(A[..Alimbs]);
    BitLength.LimbsBits(N[..n]);
    MulDist(LIMB_BITS, Alimbs, n);
    EnoughSteps(a, m, (Alimbs + n) * LIMB_BITS);
    Initialise(G, I, A, Alimbs, N, n, T);
    if m > 1 { StartMirrors(a, m); }
    GcdOdd(a, m);
    StepsNone(p);
    for i := 0 to (Alimbs + n) * LIMB_BITS
      invariant Pair(Val(T[0..n]), Val(G[0..n])) == Steps(p, i) && Reducible(Steps(p, i))
      invariant I != null ==> N[..n] == old(N[..n]) && Mirrors(Steps(p, i), a, Val(I[0..n]), Val(T[4 * n..4 * n + n]), m)
      invariant OnlyWrites(G, 0, n) && (I != null ==> OnlyWrites(I, 0, n))
    {
      StepsNext(p, i);
      StepGcd(Steps(p, i));
      Iterate(G, I, N, n, T, a);
    }
    assert G[..n] == G[0..n];
    if I != null { assert I[..n] == I[0..n]; }
  }

  lemma PadZero(s: seq<Limb>, z: seq<Limb>)
    requires forall k :: 0 <= k < |z| ==> z[k] == 0
    ensures Val(s + z) == Val(s)
  {
    hide Val, Scale;
    ValConcat(s, z);
    ValZero(z);
    assert Scale(|s|) * 0 == 0;
  }

  lemma StartMirrors(a: nat, m: nat)
    requires m > 1
    ensures Mirrors(Pair(a, m), a, 0, 1, m)
  {
    DivModUnique(m, m, 1, 0);
    SmallMod(0, m);
  }

  lemma StepsNone(p: Pair)
    requires p.u <= p.v
    ensures Steps(p, 0) == p
  {}

  lemma StepsNext(p: Pair, i: nat)
    requires p.u <= p.v
    ensures Steps(p, i + 1) == Step(Steps(p, i))
  {}
}
