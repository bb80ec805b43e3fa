/** bignum_core.c: Montgomery multiplication and its initialisation. */
module Montgomery {
  import opened Arith
  import opened NumberTheory
  import opened Limbs
  import opened Words
  import opened BignumCore

  // ----- the constant -N^-1 mod 2^biL -----

  /** y & 4. */
  function AndFour(y: Limb): Limb
  {
    ((y / 4) % 2) * 4
  }

  /** n + (((n + 2) & 4) << 1). */
  function Seed(n: Limb): Limb
  {
    WAdd(n, 2 * AndFour(WAdd(n, 2)))
  }

  /** -N^-1 mod 2^biL for odd N: a seed right modulo 2^4, then Newton passes that
      each double the number of right bits. */
  method MontmulInit(N: array<Limb>) returns (mm: Limb)
    requires N.Length > 0 && N[0] % 2 == 1
    ensures Cong(N[0] * mm, -1, BASE)
  {
    hide WAdd, WSub, WMul, Pow2, Cong, Seed;
    var n0 := N[0];
    SeedRight(n0);
    var x := Seed(n0);
    var i := LIMB_BITS;
    ghost var k := 4;
    while i >= 8
      invariant i == 4 || i == 8 || i == 16 || i == 32 || i == 64
      invariant i <= LIMB_BITS && i * k == 4 * LIMB_BITS
      invariant Cong((n0 as int) * x, 1, Pow2(k))
    {
      Newton(n0, x, k);
      x := WMul(x, WSub(2, WMul(n0, x)));
      i := i / 2;
      k := 2 * k;
    }
    Negate(n0, x);
    mm := WAdd(BASE - 1 - x, 1);
  }

  function Pow2(k: nat): (p: nat)
    ensures p > 0
  {
    PowPos(2, k);
    Pow(2, k)
  }

  lemma WAddCong(x: Limb, y: Limb)
    ensures Cong(WAdd(x, y), x + y, BASE)
  {
    CongIntro(WAdd(x, y), x + y, BASE, if x + y < BASE then 0 else -1);
  }

  lemma WSubCong(x: Limb, y: Limb)
    ensures Cong(WSub(x, y), x - y, BASE)
  {
    CongIntro(WSub(x, y), x - y, BASE, if x >= y then 0 else 1);
  }

  lemma WMulCong(x: Limb, y: Limb)
    ensures Cong(WMul(x, y), x * y, BASE)
  {
    CongMod(x * y, BASE);
  }

  /** A congruence modulo m holds modulo every divisor of m. */
  lemma CongDivisor(x: int, y: int, m: nat, d: nat, e: nat)
    requires m > 0 && d > 0 && m == e * d && Cong(x, y, m)
    ensures Cong(x, y, d)
  {
    hide Cong;
    var k := CongElim(x, y, m);
    MulAssoc(k, e, d);
    CongIntro(x, y, d, k * e);
  }

  /** The seed is an inverse modulo 16. */
  lemma SeedRight(n0: Limb)
    requires n0 % 2 == 1
    ensures Cong(n0 * Seed(n0), 1, Pow2(4))
  {
    hide *;
    PowFour();
    var r := n0 % 16;
    SeedDigit(n0, r);
    var s := 8 * (((r + 2) / 4) % 2);
    CongMod(n0, 16);
    CongMul(n0, r, Seed(n0), r + s, 16);
    SeedTable(n0, r, s);
    CongTrans(n0 * Seed(n0), r * (r + s), 1, 16);
  }

  /** Modulo 16 the seed depends on the low four bits only. */
  lemma SeedDigit(n0: Limb, r: nat)
    requires r == n0 % 16
    ensures Cong(Seed(n0), r + 8 * (((r + 2) / 4) % 2), 16)
  {
    hide Cong, WAdd;
    var y := WAdd(n0, 2);
    assert BASE % 16 == 0 && BASE == (BASE / 16) * 16;
    WAddCong(n0, 2);
    CongDivisor(y, n0 + 2, BASE, 16, BASE / 16);
    LowBits(n0, y, r);
    var s := 2 * AndFour(y);
    WAddCong(n0, s);
    CongDivisor(Seed(n0), n0 + s, BASE, 16, BASE / 16);
    CongMod(n0, 16);
    CongRefl(s, 16);
    CongAdd(n0, r, s, s, 16);
    CongTrans(Seed(n0), n0 + s, r + s, 16);
  }

  lemma PowFour()
    ensures Pow2(4) == 16
  {
    assert Pow(2, 0) == 1 && Pow(2, 1) == 2 && Pow(2, 2) == 4 && Pow(2, 3) == 8;
  }

  lemma LowBits(n0: Limb, y: Limb, r: nat)
    requires r == n0 % 16 && Cong(y, n0 + 2, 16)
    ensures 2 * AndFour(y) == 8 * (((r + 2) / 4) % 2)
  {
    hide Cong;
    CongMod(n0, 16);
    CongRefl(2, 16);
    CongAdd(n0, r, 2, 2, 16);
    CongTrans(y, n0 + 2, r + 2, 16);
    var k := CongElim(y, r + 2, 16);
    var q := (r + 2) / 4;
    DivModUnique(y, 4, q + 4 * k, (r + 2) % 4);
    DivModUnique(q + 4 * k, 2, q / 2 + 2 * k, q % 2);
  }

  lemma SeedTable(n0: nat, r: nat, s: nat)
    requires n0 % 2 == 1 && r == n0 % 16 && s == 8 * (((r + 2) / 4) % 2)
    ensures Cong(r * (r + s), 1, 16)
  {
    if r == 1 || r == 7 || r == 9 || r == 15 {
      assert s == 0;
    } else {
      assert r == 3 || r == 5 || r == 11 || r == 13;
      assert s == 8;
    }
  }

  /** The wrapping arithmetic of a pass agrees with exact arithmetic modulo 2^biL. */
  lemma NewtonWraps(n0: Limb, x: Limb, g: int, xg: int)
    requires g == 2 - n0 * x && xg == x * g
    ensures Cong(n0 * WMul(x, WSub(2, WMul(n0, x))), n0 * xg, BASE)
  {
    hide *;
    var p := WMul(n0, x);
    var f := WSub(2, p);
    var y := WMul(x, f);
    WMulCong(n0, x);
    WSubCong(2, p);
    CongRefl(2, BASE);
    CongSub(2, 2, p, n0 * x, BASE);
    CongTrans(f, 2 - (p as int), g, BASE);
    WMulCong(x, f);
    CongRefl(x, BASE);
    CongRefl(n0, BASE);
    CongMul(x, x, f, g, BASE);
    CongTrans(y, x * f, xg, BASE);
    CongMul(n0, n0, y, xg, BASE);
  }

  /** From an inverse modulo 2^k to one modulo 2^2k. */
  lemma Newton(n0: Limb, x: Limb, k: nat)
    requires 2 * k <= LIMB_BITS && Cong(n0 * x, 1, Pow2(k))
    ensures Cong(n0 * WMul(x, WSub(2, WMul(n0, x))), 1, Pow2(2 * k))
  {
    hide *;
    var g := 2 - (n0 as int) * x;
    var xg := (x as int) * g;
    var next := (n0 as int) * WMul(x, WSub(2, WMul(n0, x)));
    var exact := (n0 as int) * xg;
    var j := CongElim(n0 * x, 1, Pow2(k));
    NewtonArith(n0, x, j, Pow2(k), g, xg);
    NewtonWraps(n0, x, g, xg);
    PowersDivide(k);
    CongDivisor(next, exact, BASE, Pow2(2 * k), Pow2(LIMB_BITS - 2 * k));
    CongIntro(exact, 1, Pow2(2 * k), -(j * j));
    CongTrans(next, exact, 1, Pow2(2 * k));
  }

  lemma PowersDivide(k: nat)
    requires 2 * k <= LIMB_BITS
    ensures Pow2(2 * k) == Pow2(k) * Pow2(k) && BASE == Pow2(LIMB_BITS - 2 * k) * Pow2(2 * k)
  {
    PowAdd(2, k, k);
    PowAdd(2, LIMB_BITS - 2 * k, 2 * k);
    RadixIsPower();
  }

  lemma NewtonArith(n: int, x: int, j: int, m: int, g: int, xg: int)
    requires n * x == 1 + j * m && g == 2 - n * x && xg == x * g
    ensures n * xg == 1 + -(j * j) * (m * m)
  {
    hide *;
    MulAssoc(n, x, g);
    SquareProduct(j, m);
    DiffOfSquares(j * m, n * x, g);
  }

  lemma DiffOfSquares(t: int, a: int, b: int)
    requires a == 1 + t && b == 1 - t
    ensures a * b == 1 - t * t
  {}

  lemma SquareProduct(j: int, m: int)
    ensures (j * m) * (j * m) == (j * j) * (m * m)
  {}

  lemma Negate(n0: Limb, x: Limb)
    requires Cong(n0 * x, 1, Pow2(LIMB_BITS))
    ensures Cong(n0 * WAdd(BASE - 1 - x, 1), -1, BASE)
  {
    hide Cong, Pow, WAdd;
    RadixIsPower();
    var y := WAdd(BASE - 1 - x, 1);
    WAddCong(BASE - 1 - x, 1);
    CongIntro(BASE - x, -(x as int), BASE, 1);
    CongTrans(y, BASE - x, -(x as int), BASE);
    CongRefl(n0, BASE);
    CongMul(n0, n0, y, -(x as int), BASE);
    CongRefl(0, BASE);
    CongSub(0, 0, n0 * x, 1, BASE);
    assert n0 * -(x as int) == 0 - n0 * x;
    CongTrans(n0 * y, n0 * -(x as int), -1, BASE);
  }

  // ----- multiplication -----

  /** After i limbs of A: w * 2^(biL * i) = A[..i] * B + k * N. */
  ghost predicate Folded(w: nat, s: nat, a: nat, b: nat, k: nat, m: nat)
  {
    w * s == a * b + k * m && k < s && a < s
  }

  lemma FoldedStart(b: nat, m: nat)
    ensures Folded(0, Scale(0), Val([]), b, 0, m)
  {}

  /** The work area stays below B + N. */
  lemma FoldedBound(w: nat, s: nat, a: nat, b: nat, k: nat, m: nat)
    requires Folded(w, s, a, b, k, m) && m > 0
    ensures w < b + m
  {
    MulLe(a, s - 1, b);
    MulLe(k, s - 1, m);
    MulDist(s - 1, b, m);
    MulDist(b + m, s, 1);
    MulCancelLt(w, b + m, s);
  }

  lemma FoldedStep(w: nat, s: nat, a: nat, b: nat, k: nat, m: nat, u0: Limb, u1: Limb, w2: nat)
    requires Folded(w, s, a, b, k, m) && w2 * BASE == w + u0 * b + u1 * m
    ensures Folded(w2, BASE * s, a + s * u0, b, k + s * u1, m)
  {
    hide *;
    FoldedDef(w, s, a, b, k, m);
    FoldedDef(w2, BASE * s, a + s * u0, b, k + s * u1, m);
    ScaledSum(w2, w, u0 * b, u1 * m, s);
    Rotate(u0, b, s);
    Rotate(u1, m, s);
    MulDist(b, a, s * u0);
    MulDist(m, k, s * u1);
    GrowBound(a, s, u0);
    GrowBound(k, s, u1);
  }

  lemma ScaledSum(w2: int, w: int, x: int, y: int, s: int)
    requires w2 * BASE == w + x + y
    ensures w2 * (BASE * s) == w * s + x * s + y * s
  {
    MulAssoc(w2, BASE, s);
    MulDist(s, w + x, y);
    MulDist(s, w, x);
  }

  lemma Rotate(u: int, b: int, s: int)
    ensures (u * b) * s == (s * u) * b
  {}

  lemma FoldedDef(w: nat, s: nat, a: nat, b: nat, k: nat, m: nat)
    ensures Folded(w, s, a, b, k, m) <==> w * s == a * b + k * m && k < s && a < s
  {}

  lemma GrowBound(a: nat, s: nat, u: Limb)
    requires a < s
    ensures 0 <= a + s * u < BASE * s
  {
    MulLe(u + 1, BASE, s);
    MulDist(s, u, 1);
  }

  /** The choice of u1 makes the low limb of the sum zero. */
  lemma LowCancels(w: nat, b: nat, m: nat, t0: Limb, b0: Limb, n0: Limb, u0: Limb, mm: Limb, u1: Limb)
    requires w % BASE == t0 && b % BASE == b0 && m % BASE == n0
    requires Cong(n0 * mm, -1, BASE) && u1 == WMul(WAdd(t0, WMul(u0, b0)), mm)
    ensures (w + u0 * b + u1 * m) % BASE == 0
  {
    hide *;
    var x := (t0 as int) + u0 * b0;
    WMulCong(u0, b0);
    CongRefl(t0, BASE);
    WAddCong(t0, WMul(u0, b0));
    CongAdd(t0, t0, WMul(u0, b0), u0 * b0, BASE);
    CongTrans(WAdd(t0, WMul(u0, b0)), t0 + WMul(u0, b0), x, BASE);
    CongRefl(mm, BASE);
    WMulCong(WAdd(t0, WMul(u0, b0)), mm);
    CongMul(WAdd(t0, WMul(u0, b0)), x, mm, mm, BASE);
    CongTrans(u1, WAdd(t0, WMul(u0, b0)) * mm, x * mm, BASE);
    CongMod(m, BASE); CongMod(w, BASE); CongMod(b, BASE);
    CongCancel(w, t0, u0, b, b0, u1, m, n0, mm, x);
    CongZero(w + u0 * b + u1 * m);
  }

  lemma CongZero(x: int)
    requires Cong(x, 0, BASE)
    ensures x % BASE == 0
  {
    SmallMod(0, BASE);
  }

  lemma CongCancel(w: int, t0: int, u0: int, b: int, b0: int, u1: int, m: int, n0: int, mm: int, x: int)
    requires Cong(w, t0, BASE) && Cong(b, b0, BASE) && Cong(m, n0, BASE)
    requires Cong(u1, x * mm, BASE) && Cong(n0 * mm, -1, BASE) && x == t0 + u0 * b0
    ensures Cong(w + u0 * b + u1 * m, 0, BASE)
  {
    hide *;
    CongRefl(u0, BASE);
    CongRefl(x, BASE);
    CongMul(u0, u0, b, b0, BASE);
    CongAdd(w, t0, u0 * b, u0 * b0, BASE);
    CongMul(u1, x * mm, m, n0, BASE);
    assert (x * mm) * n0 == x * (n0 * mm);
    CongMul(x, x, n0 * mm, -1, BASE);
    CongTrans(u1 * m, x * (n0 * mm), x * -1, BASE);
    CongAdd(w + u0 * b, x, u1 * m, x * -1, BASE);
  }

  lemma CarryZero(v: nat, c: nat, s: nat, total: nat)
    requires v + c * s == total < s
    ensures c == 0 && v == total
  {
    if c > 0 { MulLe(1, c, s); }
  }

  /** One pass never needs more than n + 2 limbs, so the carries the source ignores are zero. */
  lemma PassFits(w: nat, b: nat, m: nat, u0: Limb, u1: Limb, n: nat)
    requires w < b + m && b < Scale(n) && m < Scale(n)
    ensures u0 * b >= 0 && u1 * m >= 0 && w + u0 * b + u1 * m < Scale(n + 2)
  {
    hide *;
    MulNonNeg(u0, b);
    MulNonNeg(u1, m);
    MulLe(u0, BASE - 1, b);
    MulLe(u1, BASE - 1, m);
    MulDist(BASE - 1, b, m);
    MulDist(b + m, BASE, 1);
    ScaleNext(n);
    ScaleNext(n + 1);
    MulLt(b + m, 2 * Scale(n), BASE);
    MulLe(2, BASE, Scale(n));
    MulLe(2 * Scale(n), BASE * Scale(n), BASE);
  }

  lemma ShorterBound(b: seq<Limb>, n: nat)
    requires |b| <= n
    ensures Val(b) < Scale(n)
  {
    ValBound(b);
    PowMono(BASE, |b|, n);
  }

  /** T += u0 * B + u1 * N on n + 2 limbs. */
  method Pass(T: array<Limb>, p: nat, B: array<Limb>, bo: nat, Bl: nat, N: array<Limb>, n: nat, u0: Limb, u1: Limb)
    requires p + n + 2 <= T.Length && bo + Bl <= B.Length && Bl <= n <= N.Length
    requires Apart(T, p, n + 2, B, bo, Bl) && N != T
    requires T[p + n + 1] == 0 && Val(T[p..p + n + 1]) < Val(B[bo..bo + Bl]) + Val(N[..n])
    modifies T
    ensures Val(T[p..p + n + 2]) == old(Val(T[p..p + n + 1])) + u0 * old(Val(B[bo..bo + Bl])) + u1 * Val(N[..n])
    ensures OnlyWrites(T, p, n + 2)
  {
    hide Val, Scale;
    ghost var ws, bs, ns := T[p..p + n + 2], B[bo..bo + Bl], N[..n];
    assert ws[..n + 1] == T[p..p + n + 1];
    TopZero(ws, n + 1);
    ShorterBound(bs, n);
    ShorterBound(ns, n);
    PassFits(Val(ws), Val(bs), Val(ns), u0, u1, n);
    var c := Mla(T, p, n + 2, B, bo, Bl, u0);
    CarryZero(Val(T[p..p + n + 2]), c, Scale(n + 2), Val(ws) + u0 * Val(bs));
    assert N[0..n] == ns;
    c := Mla(T, p, n + 2, N, 0, n, u1);
    CarryZero(Val(T[p..p + n + 2]), c, Scale(n + 2), Val(ws) + u0 * Val(bs) + u1 * Val(ns));
    assert N[..n] == ns;
  }

  /** w2 = (w + u0 * B + u1 * N) / 2^biL, exactly. */
  ghost predicate Passed(w2: nat, w: nat, u0: nat, b: nat, u1: nat, m: nat)
  {
    w2 * BASE == w + u0 * b + u1 * m
  }

  /** One iteration: T := (T + u0 * B + u1 * N) / 2^biL, by moving the start of T up one limb. */
  method FoldOne(T: array<Limb>, p: nat, B: array<Limb>, bo: nat, Bl: nat, N: array<Limb>, n: nat, u0: Limb, mm: Limb)
    returns (u1: Limb)
    requires 0 < Bl <= n <= N.Length && p + n + 2 <= T.Length && bo + Bl <= B.Length
    requires Apart(T, p, n + 2, B, bo, Bl) && N != T
    requires Cong(N[0] * mm, -1, BASE)
    requires T[p + n + 1] == 0 && Val(T[p..p + n + 1]) < Val(B[bo..bo + Bl]) + Val(N[..n])
    modifies T
    ensures Passed(Val(T[p + 1..p + 1 + n + 1]), old(Val(T[p..p + n + 1])), u0, old(Val(B[bo..bo + Bl])), u1, Val(N[..n]))
    ensures OnlyWrites(T, p, n + 2)
  {
    hide Val, Scale, Cong, WAdd, WMul;
    ghost var ws, bs, ns := T[p..p + n + 1], B[bo..bo + Bl], N[..n];
    ghost var w, b, m := Val(ws), Val(bs), Val(ns);
    u1 := WMul(WAdd(T[p], WMul(u0, B[bo])), mm);
    LowLimbs(ws, bs, ns);
    LowCancels(w, b, m, T[p], B[bo], N[0], u0, mm, u1);
    Pass(T, p, B, bo, Bl, N, n, u0, u1);
    assert N[..n] == ns;
    ghost var t := T[p..p + n + 2];
    assert T[p + 1..p + 1 + n + 1] == t[1..];
    DropLimb(t, w + u0 * b + u1 * m);
  }

  lemma FoldNext(w: nat, a: seq<Limb>, i: nat, b: nat, k: nat, m: nat, u1: Limb, w2: nat)
    requires i < |a| && Folded(w, Scale(i), Val(a[..i]), b, k, m) && Passed(w2, w, a[i], b, u1, m)
    ensures k + Scale(i) * u1 >= 0
    ensures Folded(w2, Scale(i + 1), Val(a[..i + 1]), b, k + Scale(i) * u1, m)
  {
    hide Val, Scale, Folded;
    FoldedStep(w, Scale(i), Val(a[..i]), b, k, m, a[i], u1, w2);
    ValPrefix(a, i);
    ScaleNext(i);
  }

  /** Round i of the main loop: keeps the equation between the work area, the digits used and the multiple of N. */
  method FoldRound(T: array<Limb>, p: nat, i: nat, A: array<Limb>, ao: nat, B: array<Limb>, bo: nat, Bl: nat,
                   N: array<Limb>, n: nat, mm: Limb, ghost As: seq<Limb>, ghost k: nat) returns (ghost k': nat)
    requires 0 < Bl <= n <= N.Length && p + n + 2 <= T.Length && ao + i < A.Length && bo + Bl <= B.Length
    requires Apart(T, p, n + 2, B, bo, Bl) && N != T && i < |As| && A[ao + i] == As[i]
    requires N[0] % 2 == 1 && Cong(N[0] * mm, -1, BASE) && T[p + n + 1] == 0
    requires Folded(Val(T[p..p + n + 1]), Scale(i), Val(As[..i]), Val(B[bo..bo + Bl]), k, Val(N[..n]))
    modifies T
    ensures Folded(Val(T[p + 1..p + 1 + n + 1]), Scale(i + 1), Val(As[..i + 1]), old(Val(B[bo..bo + Bl])), k', Val(N[..n]))
    ensures OnlyWrites(T, p, n + 2)
  {
    hide Val, Scale, Folded, Cong, Passed;
    ghost var w, b, ns := Val(T[p..p + n + 1]), Val(B[bo..bo + Bl]), N[..n];
    var u0 := A[ao + i];
    OddPositive(ns);
    FoldedBound(w, Scale(i), Val(As[..i]), b, k, Val(ns));
    var u1 := FoldOne(T, p, B, bo, Bl, N, n, u0, mm);
    assert N[..n] == ns;
    FoldNext(w, As, i, b, k, Val(ns), u1, Val(T[p + 1..p + 1 + n + 1]));
    k' := k + Scale(i) * u1;
  }

  /** The main loop: T[n..] times R is A * B plus a multiple of N. */
  method Fold(T: array<Limb>, tp: nat, A: array<Limb>, ao: nat, B: array<Limb>, bo: nat, Bl: nat,
              N: array<Limb>, n: nat, mm: Limb) returns (ghost k: nat)
    requires 0 < Bl <= n <= N.Length && tp + 2 * n + 1 <= T.Length && ao + n <= A.Length && bo + Bl <= B.Length
    requires Apart(T, tp, 2 * n + 1, A, ao, n) && Apart(T, tp, 2 * n + 1, B, bo, Bl) && N != T
    requires N[0] % 2 == 1 && Cong(N[0] * mm, -1, BASE)
    modifies T
    ensures Folded(Val(T[tp + n..tp + 2 * n + 1]), Scale(n), old(Val(A[ao..ao + n])), old(Val(B[bo..bo + Bl])), k, Val(N[..n]))
    ensures OnlyWrites(T, tp, 2 * n + 1)
  {
    hide Val, Scale, Folded, Cong;
    ghost var As, bs, ns := A[ao..ao + n], B[bo..bo + Bl], N[..n];
    Zero(T, tp, 2 * n + 1);
    ValZero(T[tp..tp + n + 1]);
    FoldedStart(Val(bs), Val(ns));
    assert As[..0] == [] && As[..n] == As;
    k := 0;
    var p := tp;
    for i := 0 to n
      invariant p == tp + i && OnlyWrites(T, tp, 2 * n + 1)
      invariant forall j :: p + n + 1 <= j < tp + 2 * n + 1 ==> T[j] == 0
      invariant Folded(Val(T[p..p + n + 1]), Scale(i), Val(As[..i]), Val(bs), k, Val(ns))
    {
      assert B[bo..bo + Bl] == bs && N[..n] == ns;
      k := FoldRound(T, p, i, A, ao, B, bo, Bl, N, n, mm, As, k);
      assert N[..n] == ns;
      p := p + 1;
    }
  }

  lemma OddPositive(s: seq<Limb>)
    requires |s| > 0 && s[0] % 2 == 1
    ensures Val(s) > 0
  {
    ValParity(s);
  }

  lemma LowLimbs(w: seq<Limb>, b: seq<Limb>, n: seq<Limb>)
    requires |w| > 0 && |b| > 0 && |n| > 0
    ensures Val(w) % BASE == w[0] && Val(b) % BASE == b[0] && Val(n) % BASE == n[0]
  {
    ValLow(w);
    ValLow(b);
    ValLow(n);
  }

  lemma DropLimb(ws: seq<Limb>, v: nat)
    requires |ws| > 0 && Val(ws) == v && v % BASE == 0
    ensures Val(ws[1..]) * BASE == v
  {
    hide Val;
    ValLow(ws);
    DivModDef(v, BASE);
  }

  /** T < 2N: the result needs at most one subtraction. */
  lemma BelowTwice(w: nat, s: nat, a: nat, b: nat, k: nat, m: nat)
    requires Folded(w, s, a, b, k, m) && a * b < s * m
    ensures w < 2 * m
  {
    MulLe(k, s, m);
    MulCancelLt(w, 2 * m, s);
  }

  /** Which of T and T - N is the result; (carry, borrow) = (1, 0) does not occur. */
  lemma FinalChoice(w: nat, t: nat, carry: Limb, s: nat, m: nat, x: nat, borrow: Limb)
    requires w == t + s * carry && t < s && w < 2 * m && m < s
    requires x < s && borrow <= 1 && x - borrow * s == t - m
    ensures carry <= 1 && !(carry == 1 && borrow == 0)
    ensures (if carry != borrow then t else x) == (if w < m then w else w - m)
  {
    if carry >= 2 { MulLe(2, carry, s); }
  }

  /** X := A * B / R mod N, in [0, N). X may be any of the operands. */
  method Montmul(X: array<Limb>, xo: nat, A: array<Limb>, ao: nat, B: array<Limb>, bo: nat, Bl: nat,
                 N: array<Limb>, n: nat, mm: Limb, T: array<Limb>, tp: nat)
    requires 0 < Bl <= n <= N.Length && tp + 2 * n + 1 <= T.Length
    requires xo + n <= X.Length && ao + n <= A.Length && bo + Bl <= B.Length
    requires Apart(T, tp, 2 * n + 1, X, xo, n) && Apart(T, tp, 2 * n + 1, A, ao, n)
    requires Apart(T, tp, 2 * n + 1, B, bo, Bl) && N != T && (X == N ==> xo == 0)
    requires N[0] % 2 == 1 && Cong(N[0] * mm, -1, BASE)
    requires Val(A[ao..ao + n]) * Val(B[bo..bo + Bl]) < Scale(n) * Val(N[..n])
    modifies X, T
    ensures Val(X[xo..xo + n]) < old(Val(N[..n]))
    ensures Cong(Val(X[xo..xo + n]) * Scale(n), old(Val(A[ao..ao + n])) * old(Val(B[bo..bo + Bl])), old(Val(N[..n])))
    ensures forall j :: 0 <= j < X.Length && !(xo <= j < xo + n) && (X != T || !(tp <= j < tp + 2 * n + 1)) ==> X[j] == old(X[j])
    ensures forall j :: 0 <= j < T.Length && !(tp <= j < tp + 2 * n + 1) && (X != T || !(xo <= j < xo + n)) ==> T[j] == old(T[j])
  {
    hide Val, Scale, Folded, Cong;
    ghost var a, b := Val(A[ao..ao + n]), Val(B[bo..bo + Bl]);
    ghost var ns := N[..n];
    var k := Fold(T, tp, A, ao, B, bo, Bl, N, n, mm);
    assert N[..n] == ns;
    ghost var w := Val(T[tp + n..tp + n + n + 1]);
    BelowTwice(w, Scale(n), a, b, k, Val(ns));
    SubtractOnce(X, xo, T, tp + n, N, n);
    Reduced(Val(X[xo..xo + n]), w, Scale(n), a, b, k, Val(ns));
  }

  /** X := T or T - N, whichever is below N. */
  method SubtractOnce(X: array<Limb>, xo: nat, T: array<Limb>, p: nat, N: array<Limb>, n: nat)
    requires 0 < n <= N.Length && p + n + 1 <= T.Length && xo + n <= X.Length && Apart(T, p, n + 1, X, xo, n)
    requires N != T && (X == N ==> xo == 0)
    requires Val(T[p..p + n + 1]) < 2 * Val(N[..n])
    modifies X
    ensures var w, m := old(Val(T[p..p + n + 1])), old(Val(N[..n])); Val(X[xo..xo + n]) == if w < m then w else w - m
    ensures OnlyWrites(X, xo, n)
  {
    hide Val, Scale;
    ghost var ns, ws, ts := N[..n], T[p..p + n + 1], T[p..p + n];
    assert ws[..n] == ts && ws[n] == T[p + n] && ws[..n + 1] == ws;
    ValPrefix(ws, n);
    ValBound(ts);
    ValBound(ns);
    var carry := T[p + n];
    assert N[0..n] == ns;
    var borrow := Sub(X, xo, T, p, N, 0, n);
    assert T[p..p + n] == ts;
    ValBound(X[xo..xo + n]);
    FinalChoice(Val(ws), Val(ts), carry, Scale(n), Val(ns), Val(X[xo..xo + n]), borrow);
    CondAssign(X, xo, T, p, n, carry != borrow);
  }

  lemma Reduced(x: nat, w: nat, s: nat, a: nat, b: nat, k: nat, m: nat)
    requires Folded(w, s, a, b, k, m) && w < 2 * m && x == (if w < m then w else w - m)
    ensures x < m && Cong(x * s, a * b, m)
  {
    var c := if w < m then 0 else 1;
    assert x == w - c * m;
    MulDist(s, w, c * m);
    MulAssoc(s, c, m);
    MulDist(m, k, s * c);
    CongIntro(x * s, a * b, m, k - s * c);
  }
}
