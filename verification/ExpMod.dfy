/** bignum_core.c: modular exponentiation with a precomputed table, left to right. */
module ExpMod {
  import opened Arith
  import opened NumberTheory
  import opened Limbs
  import opened Words
  import opened BignumCore
  import opened Montgomery
  import opened MontForm
  import opened BitLength

  /** MBEDTLS_MPI_WINDOW_SIZE, a build option; every setting is covered. */
  const MPI_WINDOW_SIZE: nat

  function WindowSize(ebits: nat): (w: nat)
    ensures 1 <= w <= 6
  {
    if MPI_WINDOW_SIZE >= 6 then
      if ebits > 671 then 6 else if ebits > 239 then 5 else if ebits > 79 then 4 else 1
    else if MPI_WINDOW_SIZE == 5 then
      if ebits > 239 then 5 else if ebits > 79 then 4 else 1
    else if MPI_WINDOW_SIZE > 1 then
      if ebits > 79 then MPI_WINDOW_SIZE else 1
    else 1
  }

  /** 1 << wsize. */
  function Welem(ebits: nat): nat
  {
    Pow(2, WindowSize(ebits))
  }

  /** The working memory callers are told to provide. */
  function WorkingLimbs(n: nat, Elimbs: nat): nat
  {
    Welem(Elimbs * LIMB_BITS) * n + n + (2 * n + 1)
  }

  /** The table for an exponent with fewer limbs fits in the memory sized for more limbs. */
  lemma TableFits(n: nat, limbIndex: nat, Elimbs: nat)
    requires limbIndex <= Elimbs
    ensures Welem(limbIndex * LIMB_BITS) * n + n + (2 * n + 1) <= WorkingLimbs(n, Elimbs)
  {
    hide Pow;
    var e, f := limbIndex * LIMB_BITS, Elimbs * LIMB_BITS;
    MulLe(limbIndex, Elimbs, LIMB_BITS);
    WindowMono(e, f);
    PowMono(2, WindowSize(e), WindowSize(f));
    MulLe(Welem(e), Welem(f), n);
  }

  lemma WindowMono(e: nat, f: nat)
    requires e <= f
    ensures WindowSize(e) <= WindowSize(f)
  {}

  lemma WelemBounds(ebits: nat)
    ensures 2 <= Welem(ebits) <= 64
  {
    PowMono(2, 1, WindowSize(ebits));
    PowMono(2, WindowSize(ebits), 6);
    assert Pow(2, 1) == 2 && Pow(2, 2) == 4 && Pow(2, 3) == 8 && Pow(2, 4) == 16 && Pow(2, 5) == 32 && Pow(2, 6) == 64;
  }

  // ----- the table of powers -----

  /** Where entry j of a table of n-limb numbers starts. */
  function Slot(j: nat, n: nat): nat
  {
    MulNonNeg(j, n);
    j * n
  }

  lemma SlotNext(j: nat, n: nat)
    ensures Slot(j + 1, n) == Slot(j, n) + n
  {}

  lemma SlotMono(j: nat, k: nat, n: nat)
    requires j <= k
    ensures Slot(j, n) <= Slot(k, n)
  {
    MulLe(j, k, n);
  }

  lemma SlotStart(n: nat)
    ensures Slot(0, n) == 0 && Slot(1, n) == n
  {}

  /** The first count entries of the table at tp are the Montgomery forms of v^0, v^1, ... */
  ghost predicate PowersIn(ts: seq<Limb>, tp: nat, count: nat, v: nat, n: nat, m: nat)
  {
    forall j: nat :: j < count ==> PowerIn(ts, tp, j, v, n, m)
  }

  ghost predicate PowerIn(ts: seq<Limb>, tp: nat, j: nat, v: nat, n: nat, m: nat)
  {
    tp + Slot(j, n) + n <= |ts| && Rep(Val(ts[tp + Slot(j, n)..tp + Slot(j, n) + n]), Pow(v, j), n, m)
  }

  lemma PowersInAt(ts: seq<Limb>, tp: nat, count: nat, j: nat, v: nat, n: nat, m: nat)
    requires PowersIn(ts, tp, count, v, n, m) && j < count
    ensures tp + Slot(j, n) + n <= |ts| && Rep(Val(ts[tp + Slot(j, n)..tp + Slot(j, n) + n]), Pow(v, j), n, m)
  {
    hide Rep, Val, Pow, Slot;
    assert PowerIn(ts, tp, j, v, n, m);
  }

  /** One more entry at the end of the table. */
  lemma PowersGrow(ts: seq<Limb>, us: seq<Limb>, tp: nat, count: nat, v: nat, n: nat, m: nat)
    requires PowersIn(ts, tp, count, v, n, m) && |ts| == tp + Slot(count, n)
    requires |us| == |ts| + n && us[..|ts|] == ts && Rep(Val(us[|ts|..|ts| + n]), Pow(v, count), n, m)
    ensures PowersIn(us, tp, count + 1, v, n, m)
  {
    hide Rep, Val, Pow, Slot;
    forall j: nat | j < count + 1
      ensures PowerIn(us, tp, j, v, n, m)
    {
      if j < count {
        PowersInAt(ts, tp, count, j, v, n, m);
        var k := tp + Slot(j, n);
        PrefixSlice(us, |ts|, k, k + n);
      }
    }
  }

  /** T holds the table, starting at tp: W[0] = 1, W[1] = A, W[i] = W[i-1] * W[1]. */
  method PrecomputeWindow(A: array<Limb>, N: array<Limb>, n: nat, mm: Limb, RR: array<Limb>, welem: nat,
                          T: array<Limb>, tp: nat, temp: nat, ghost v: nat)
    requires 0 < n <= N.Length && n <= A.Length && n <= RR.Length && 2 <= welem
    requires tp + Slot(welem, n) <= temp && temp + 2 * n + 1 <= T.Length
    requires T != A && T != N && T != RR
    requires N[0] % 2 == 1 && Cong(N[0] * mm, -1, BASE)
    requires Rep(Val(A[..n]), v, n, Val(N[..n]))
    requires Val(RR[..n]) < Val(N[..n]) && Cong(Val(RR[..n]), Scale(n) * Scale(n), Val(N[..n]))
    modifies T
    ensures PowersIn(T[..tp + Slot(welem, n)], tp, welem, v, n, Val(N[..n]))
    ensures forall j :: 0 <= j < T.Length && !(tp <= j < tp + Slot(welem, n)) && !(temp <= j < temp + 2 * n + 1) ==> T[j] == old(T[j])
  {
    hide Val, Scale, Pow, Rep, Cong, PowersIn, Slot;
    ghost var ns := N[..n];
    SlotStart(n);
    SlotNext(1, n);
    SlotMono(2, welem, n);
    FirstTwo(A, N, n, mm, RR, T, tp, temp, v);
    var cur := tp + n + n;
    for i := 2 to welem
      invariant cur == tp + Slot(i, n) <= tp + Slot(welem, n)
      invariant N[..n] == ns && PowersIn(T[..cur], tp, i, v, n, Val(ns))
      invariant forall j :: 0 <= j < T.Length && !(tp <= j < tp + Slot(welem, n)) && !(temp <= j < temp + 2 * n + 1) ==> T[j] == old(T[j])
    {
      SlotNext(i, n);
      SlotMono(i, welem, n);
      SlotMono(i + 1, welem, n);
      NextPower(T, tp, i, cur, N, n, mm, temp, v);
      assert N[..n] == ns;
      cur := cur + n;
    }
  }

  /** Entries 0 and 1. */
  method FirstTwo(A: array<Limb>, N: array<Limb>, n: nat, mm: Limb, RR: array<Limb>,
                  T: array<Limb>, tp: nat, temp: nat, ghost v: nat)
    requires 0 < n <= N.Length && n <= A.Length && n <= RR.Length
    requires tp + 2 * n <= temp && temp + 2 * n + 1 <= T.Length
    requires T != A && T != N && T != RR
    requires N[0] % 2 == 1 && Cong(N[0] * mm, -1, BASE)
    requires Rep(Val(A[..n]), v, n, Val(N[..n]))
    requires Val(RR[..n]) < Val(N[..n]) && Cong(Val(RR[..n]), Scale(n) * Scale(n), Val(N[..n]))
    modifies T
    ensures PowersIn(T[..tp + n + n], tp, 2, v, n, Val(N[..n]))
    ensures forall j :: 0 <= j < T.Length && !(tp <= j < tp + 2 * n) && !(temp <= j < temp + 2 * n + 1) ==> T[j] == old(T[j])
  {
    hide Val, Scale, Rep, Cong, Slot;
    ghost var ns, vs := N[..n], A[..n];
    FirstEntry(T, tp, RR, N, n, mm, temp);
    assert N[..n] == ns;
    ghost var e0 := T[tp..tp + n];
    assert A[0..n] == vs;
    Copy(T, tp + n, A, 0, n);
    assert T[tp + n..tp + n + n] == vs && T[tp..tp + n] == e0 && N[..n] == ns;
    TwoEntries(T[..tp + n + n], tp, v, n, Val(ns), e0, vs);
  }

  lemma TwoEntries(ts: seq<Limb>, tp: nat, v: nat, n: nat, m: nat, e0: seq<Limb>, e1: seq<Limb>)
    requires |ts| == tp + n + n && ts[tp..tp + n] == e0 && ts[tp + n..tp + n + n] == e1
    requires Rep(Val(e0), 1, n, m) && Rep(Val(e1), v, n, m)
    ensures PowersIn(ts, tp, 2, v, n, m)
  {
    hide Val, Rep, Slot;
    assert Pow(v, 0) == 1 && Pow(v, 1) == v * 1;
    SlotStart(n);
    assert PowerIn(ts, tp, 0, v, n, m);
    assert PowerIn(ts, tp, 1, v, n, m);
  }

  /** Entry i, which starts at cur, given the entries before it. */
  method NextPower(T: array<Limb>, tp: nat, i: nat, cur: nat, N: array<Limb>, n: nat, mm: Limb, temp: nat, ghost v: nat)
    requires 0 < n <= N.Length && cur + n <= temp && temp + 2 * n + 1 <= T.Length && T != N
    requires i >= 2 && cur == tp + Slot(i, n)
    requires N[0] % 2 == 1 && Cong(N[0] * mm, -1, BASE)
    requires PowersIn(T[..cur], tp, i, v, n, Val(N[..n]))
    modifies T
    ensures PowersIn(T[..cur + n], tp, i + 1, v, n, Val(N[..n]))
    ensures forall j :: 0 <= j < T.Length && !(cur <= j < cur + n) && !(temp <= j < temp + 2 * n + 1) ==> T[j] == old(T[j])
  {
    hide Val, Scale, Pow, Rep, Cong, Slot, PowersIn;
    ghost var ns, ts, e := N[..n], T[..cur], i - 1;
    PowersInAt(ts, tp, i, e, v, n, Val(ns));
    PowersInAt(ts, tp, i, 1, v, n, Val(ns));
    SlotStart(n);
    SlotNext(e, n);
    var prev := cur - n;
    assert ts[prev..prev + n] == T[prev..prev + n] && ts[tp + n..tp + n + n] == T[tp + n..tp + n + n];
    NextEntry(T, cur, prev, tp + n, N, n, mm, temp, v, e);
    assert N[..n] == ns;
    ghost var us := T[..cur + n];
    assert us[..cur] == ts && us[cur..cur + n] == T[cur..cur + n];
    PowersGrow(ts, us, tp, i, v, n, Val(ns));
  }

  /** W[0] := 1 in Montgomery form. */
  method FirstEntry(T: array<Limb>, tp: nat, RR: array<Limb>, N: array<Limb>, n: nat, mm: Limb, temp: nat)
    requires 0 < n <= N.Length && n <= RR.Length && tp + n <= temp && temp + 2 * n + 1 <= T.Length && T != N && T != RR
    requires N[0] % 2 == 1 && Cong(N[0] * mm, -1, BASE)
    requires Val(RR[..n]) < Val(N[..n]) && Cong(Val(RR[..n]), Scale(n) * Scale(n), Val(N[..n]))
    modifies T
    ensures Rep(Val(T[tp..tp + n]), 1, n, Val(N[..n]))
    ensures forall j :: 0 <= j < T.Length && !(tp <= j < tp + n) && !(temp <= j < temp + 2 * n + 1) ==> T[j] == old(T[j])
  {
    hide Val, Scale, Cong, Rep;
    ghost var ns, rs := N[..n], RR[..n];
    Zero(T, tp, n);
    T[tp] := 1;
    OneLimb(T[tp..tp + n]);
    assert RR[0..n] == rs && N[..n] == ns;
    ValBound(T[tp..tp + n]);
    ValBound(ns);
    ValParity(ns);
    CanonicalFits(Val(T[tp..tp + n]), Val(rs), n, Val(ns));
    Montmul(T, tp, T, tp, RR, 0, n, N, n, mm, T, temp);
    assert N[..n] == ns;
    RepTo(Val(T[tp..tp + n]), 1, Val(rs), n, Val(ns));
  }

  /** W[e + 1] := W[e] * W[1]. */
  method NextEntry(T: array<Limb>, cur: nat, prev: nat, one: nat, N: array<Limb>, n: nat, mm: Limb, temp: nat,
                   ghost v: nat, ghost e: nat)
    requires 0 < n <= N.Length && cur + n <= temp && prev + n <= temp && one + n <= temp && temp + 2 * n + 1 <= T.Length && T != N
    requires N[0] % 2 == 1 && Cong(N[0] * mm, -1, BASE)
    requires Rep(Val(T[prev..prev + n]), Pow(v, e), n, Val(N[..n])) && Rep(Val(T[one..one + n]), Pow(v, 1), n, Val(N[..n]))
    modifies T
    ensures Rep(Val(T[cur..cur + n]), Pow(v, e + 1), n, Val(N[..n]))
    ensures forall j :: 0 <= j < T.Length && !(cur <= j < cur + n) && !(temp <= j < temp + 2 * n + 1) ==> T[j] == old(T[j])
  {
    hide Val, Scale, Cong, Rep, Pow;
    ghost var ns := N[..n];
    ghost var a, b := Val(T[prev..prev + n]), Val(T[one..one + n]);
    RepLess(a, Pow(v, e), n, Val(ns));
    RepLess(b, Pow(v, 1), n, Val(ns));
    ValBound(ns);
    ValParity(ns);
    CanonicalFits(a, b, n, Val(ns));
    Montmul(T, cur, T, prev, T, one, n, N, n, mm, T, temp);
    assert N[..n] == ns;
    RepMul(Val(T[cur..cur + n]), a, b, Pow(v, e), Pow(v, 1), n, Val(ns));
    PowAdd(v, e, 1);
  }

  // ----- the exponentiation -----

  /** Where to start in the exponent: at its top bit if it is public, else at its top limb. */
  method FirstBit(E: array<Limb>, eo: nat, Elimbs: nat, public: bool) returns (limb: nat, bit: nat)
    requires eo + Elimbs <= E.Length && Elimbs > 0
    ensures bit < LIMB_BITS && limb * LIMB_BITS + bit > 0
    ensures limb < Elimbs || (limb == Elimbs && bit == 0)
    ensures Val(E[eo..eo + Elimbs]) < Pow(2, limb * LIMB_BITS + bit)
  {
    hide Val, BitLen, Pow;
    ghost var s := E[eo..eo + Elimbs];
    ghost var top := BitLen(Val(s));
    LimbsBits(s);
    if public {
      var bits := CoreBitlen(E, eo, Elimbs);
      if bits == 0 {
        bits := 1;
      }
      limb, bit := bits / LIMB_BITS, bits % LIMB_BITS;
      DivModDef(bits, LIMB_BITS);
      BitLenBound(Val(s), bits);
      if limb > Elimbs { MulLe(Elimbs + 1, limb, LIMB_BITS); }
    } else {
      limb, bit := Elimbs, 0;
      BitLenBound(Val(s), Elimbs * LIMB_BITS);
      MulLe(1, Elimbs, LIMB_BITS);
    }
  }

  /** dest := table[window], directly if the window is public, else by visiting every entry. */
  method TableLookup(T: array<Limb>, so: nat, tp: nat, n: nat, welem: nat, window: nat, public: bool)
    requires window < welem && tp + Slot(welem, n) <= so && so + n <= T.Length
    modifies T
    ensures tp + Slot(window, n) + n <= so
    ensures T[so..so + n] == old(T[tp + Slot(window, n)..tp + Slot(window, n) + n])
    ensures OnlyWrites(T, so, n)
  {
    hide Slot;
    SlotNext(window, n);
    SlotMono(window + 1, welem, n);
    ghost var w0 := tp + Slot(window, n);
    ghost var entry := T[w0..w0 + n];
    if public {
      Copy(T, so, T, tp + Slot(window, n), n);
    } else {
      var p := tp;
      SlotStart(n);
      for i := 0 to welem
        invariant p == tp + Slot(i, n)
        invariant forall k :: 0 <= k < T.Length && !(so <= k < so + n) ==> T[k] == old(T[k])
        invariant i > window ==> T[so..so + n] == entry
      {
        SlotNext(i, n);
        SlotMono(i + 1, welem, n);
        assert T[w0..w0 + n] == entry;
        assert i == window ==> p == w0;
        CondAssign(T, so, T, p, n, i == window);
        p := p + n;
      }
    }
  }

  /** (window << 1) | bit. */
  lemma WindowPush(window: Limb, b: nat)
    requires window < 64 && b < 2
    ensures BitOr(Shl(window, 1), b) == 2 * window + b < BASE
  {
    hide Pow, Shl;
    ShlSplit(window, 1);
    PowOne();
    HalfPower();
    SmallMod(window, BASE / 2);
    OrDisjoint(window, b, 1);
  }

  lemma HalfPower()
    ensures Pow(2, LIMB_BITS - 1) == BASE / 2 && BASE / 2 > 64
  {
    hide Pow;
    RadixIsPower();
    PowNext(LIMB_BITS - 1);
    if BASE == 0x1_0000_0000 {
      assert BASE / 2 == 0x8000_0000;
    } else {
      assert BASE / 2 == 0x8000_0000_0000_0000;
    }
  }

  /** X := X^2 in Montgomery form. */
  method Square(X: array<Limb>, N: array<Limb>, n: nat, mm: Limb, T: array<Limb>, temp: nat, ghost v: nat, ghost e: nat)
    requires 0 < n <= N.Length && n <= X.Length && temp + 2 * n + 1 <= T.Length && T != N && X != N && X != T
    requires N[0] % 2 == 1 && Cong(N[0] * mm, -1, BASE) && Rep(Val(X[0..n]), Pow(v, e), n, Val(N[..n]))
    modifies X, T
    ensures Rep(Val(X[0..n]), Pow(v, 2 * e), n, Val(N[..n]))
    ensures OnlyWrites(X, 0, n) && OnlyWrites(T, temp, 2 * n + 1)
  {
    hide Val, Scale, Cong, Rep, Pow;
    ghost var ns, x := N[..n], Val(X[0..n]);
    RepLess(x, Pow(v, e), n, Val(ns));
    ValBound(ns);
    ValParity(ns);
    CanonicalFits(x, x, n, Val(ns));
    Montmul(X, 0, X, 0, X, 0, n, N, n, mm, T, temp);
    assert N[..n] == ns;
    RepMul(Val(X[0..n]), x, x, Pow(v, e), Pow(v, e), n, Val(ns));
    PowAdd(v, e, e);
  }

  /** X := X * T[so..] in Montgomery form. */
  method MulBy(X: array<Limb>, so: nat, N: array<Limb>, n: nat, mm: Limb, T: array<Limb>, temp: nat, ghost v: nat, ghost e: nat, ghost w: nat)
    requires 0 < n <= N.Length && n <= X.Length && so + n <= temp && temp + 2 * n + 1 <= T.Length && T != N && X != N && X != T
    requires N[0] % 2 == 1 && Cong(N[0] * mm, -1, BASE)
    requires Rep(Val(X[0..n]), Pow(v, e), n, Val(N[..n])) && Rep(Val(T[so..so + n]), Pow(v, w), n, Val(N[..n]))
    modifies X, T
    ensures Rep(Val(X[0..n]), Pow(v, e + w), n, Val(N[..n]))
    ensures OnlyWrites(X, 0, n) && OnlyWrites(T, temp, 2 * n + 1)
  {
    hide Val, Scale, Cong, Rep, Pow;
    ghost var ns, x, y := N[..n], Val(X[0..n]), Val(T[so..so + n]);
    RepLess(x, Pow(v, e), n, Val(ns));
    RepLess(y, Pow(v, w), n, Val(ns));
    ValBound(ns);
    ValParity(ns);
    CanonicalFits(x, y, n, Val(ns));
    Montmul(X, 0, X, 0, T, so, n, N, n, mm, T, temp);
    assert N[..n] == ns;
    RepMul(Val(X[0..n]), x, y, Pow(v, e), Pow(v, w), n, Val(ns));
    PowAdd(v, e, w);
  }

  /** The window is full, or the exponent is used up: X := X * W[window]. */
  method Flush(X: array<Limb>, N: array<Limb>, n: nat, mm: Limb, T: array<Limb>, tp: nat, so: nat, temp: nat,
               welem: nat, window: nat, public: bool, ghost v: nat, ghost e: nat)
    requires 0 < n <= N.Length && n <= X.Length && so + n <= temp && temp + 2 * n + 1 <= T.Length && T != N && X != N && X != T
    requires window < welem && tp + Slot(welem, n) <= so
    requires N[0] % 2 == 1 && Cong(N[0] * mm, -1, BASE)
    requires Rep(Val(X[0..n]), Pow(v, e), n, Val(N[..n])) && PowersIn(T[..so], tp, welem, v, n, Val(N[..n]))
    modifies X, T
    ensures Rep(Val(X[0..n]), Pow(v, e + window), n, Val(N[..n]))
    ensures OnlyWrites(X, 0, n) && T[..so] == old(T[..so])
  {
    hide Val, Scale, Cong, Rep, Pow, Slot, PowersIn;
    ghost var ns, ts := N[..n], T[..so];
    PowersInAt(ts, tp, welem, window, v, n, Val(ns));
    ghost var k := tp + Slot(window, n);
    assert ts[k..k + n] == T[k..k + n];
    TableLookup(T, so, tp, n, welem, window, public);
    assert N[..n] == ns && T[..so] == ts;
    MulBy(X, so, N, n, mm, T, temp, v, e, window);
    assert T[..so] == ts;
  }

  /** The exponent bits read so far, as a number. */
  function Prefix(x: nat, pos: nat): nat
  {
    PowPos(2, pos);
    PrefixBound(x, Pow(2, pos));
    x / Pow(2, pos)
  }

  lemma PrefixBound(x: nat, m: nat)
    requires m > 0
    ensures x / m >= 0
  {
    DivModDef(x, m);
    if x / m < 0 { MulLe(x / m, -1, m); }
  }

  lemma PrefixEnds(x: nat, pos: nat)
    ensures x < Pow(2, pos) ==> Prefix(x, pos) == 0
    ensures Prefix(x, 0) == x
  {
    if x < Pow(2, pos) { SmallMod(x, Pow(2, pos)); }
  }

  /** Reading bit `bit` of limb `limb` extends the prefix. */
  lemma PrefixNext(s: seq<Limb>, limb: nat, bit: nat)
    requires limb < |s| && bit < LIMB_BITS
    ensures Prefix(Val(s), limb * LIMB_BITS + bit) == 2 * Prefix(Val(s), limb * LIMB_BITS + bit + 1) + BitAt(s[limb], bit)
  {
    hide Val, Pow;
    LimbBit(s, limb, bit);
    NextBit(Val(s), limb * LIMB_BITS + bit);
  }

  /** (E[limb] >> bit) & 1. */
  function BitOf(x: Limb, bit: nat): (b: nat)
    ensures b < 2
  {
    Shr(x, bit) % 2
  }

  /** The square-and-multiply loop. After each pass X = A^(P - window), where P is the
      exponent prefix read so far and window its last bits, not yet multiplied in. */
  method ExpLoop(X: array<Limb>, N: array<Limb>, n: nat, mm: Limb, T: array<Limb>, tp: nat, so: nat, temp: nat,
                 welem: nat, wsize: nat, E: array<Limb>, eo: nat, Elimbs: nat, limb0: nat, bit0: nat, public: bool, ghost v: nat)
    requires 0 < n <= N.Length && n <= X.Length && so + n <= temp && temp + 2 * n + 1 <= T.Length && T != N && X != N && X != T
    requires eo + Elimbs <= E.Length && E != X && (E != T || eo + Elimbs <= tp)
    requires eo + Elimbs <= E.Length && tp <= so && tp + Slot(welem, n) <= so && 1 <= wsize <= 6 && welem == Pow(2, wsize)
    requires N[0] % 2 == 1 && Cong(N[0] * mm, -1, BASE)
    requires bit0 < LIMB_BITS && limb0 * LIMB_BITS + bit0 > 0 && (limb0 < Elimbs || (limb0 == Elimbs && bit0 == 0))
    requires Val(E[eo..eo + Elimbs]) < Pow(2, limb0 * LIMB_BITS + bit0)
    requires Rep(Val(X[0..n]), 1, n, Val(N[..n])) && PowersIn(T[..so], tp, welem, v, n, Val(N[..n]))
    modifies X, T
    ensures Rep(Val(X[0..n]), Pow(v, old(Val(E[eo..eo + Elimbs]))), n, Val(N[..n]))
    ensures OnlyWrites(X, 0, n) && T[..so] == old(T[..so])
  {
    hide Val, Scale, Cong, Rep, Pow, Slot, Prefix, PowersIn;
    ghost var ns, es, ts := N[..n], E[eo..eo + Elimbs], T[..so];
    ghost var ev := Val(es);
    var limb: nat, bit: nat := limb0, bit0;
    ghost var e: nat := 0;
    var window: Limb, wbits: nat := 0, 0;
    PrefixEnds(ev, limb * LIMB_BITS + bit);
    WindowEmpty(v);
    while true
      invariant bit < LIMB_BITS && limb * LIMB_BITS + bit > 0 && (limb < Elimbs || (limb == Elimbs && bit == 0))
      invariant N[..n] == ns && E[eo..eo + Elimbs] == es && T[..so] == ts && OnlyWrites(X, 0, n)
      invariant wbits < wsize && window < Pow(2, wbits) && Prefix(ev, limb * LIMB_BITS + bit) == e + window
      invariant Rep(Val(X[0..n]), Pow(v, e), n, Val(ns))
      decreases limb * LIMB_BITS + bit
    {
      limb, bit, window, wbits, e :=
        ExpRound(X, N, n, mm, T, tp, so, temp, welem, wsize, E, eo, Elimbs, limb, bit, window, wbits, public, v, e);
      assert N[..n] == ns;
      if bit == 0 && limb == 0 {
        break;
      }
      MulNonNeg(limb, LIMB_BITS);
      if limb > 0 { MulPos(limb, LIMB_BITS); }
    }
    PrefixEnds(ev, 0);
  }

  /** One pass of the loop: squares, takes in the next exponent bit, and multiplies when the window is to be emptied. */
  method ExpRound(X: array<Limb>, N: array<Limb>, n: nat, mm: Limb, T: array<Limb>, tp: nat, so: nat, temp: nat,
                  welem: nat, wsize: nat, E: array<Limb>, eo: nat, Elimbs: nat, limb0: nat, bit0: nat, window0: Limb, wbits0: nat,
                  public: bool, ghost v: nat, ghost e0: nat)
    returns (limb: nat, bit: nat, window: Limb, wbits: nat, ghost e: nat)
    requires 0 < n <= N.Length && n <= X.Length && so + n <= temp && temp + 2 * n + 1 <= T.Length && T != N && X != N && X != T
    requires eo + Elimbs <= E.Length && E != X && (E != T || eo + Elimbs <= tp)
    requires tp <= so && tp + Slot(welem, n) <= so && 1 <= wsize <= 6 && welem == Pow(2, wsize)
    requires N[0] % 2 == 1 && Cong(N[0] * mm, -1, BASE) && PowersIn(T[..so], tp, welem, v, n, Val(N[..n]))
    requires bit0 < LIMB_BITS && limb0 * LIMB_BITS + bit0 > 0 && (limb0 < Elimbs || (limb0 == Elimbs && bit0 == 0))
    requires wbits0 < wsize && window0 < Pow(2, wbits0)
    requires Prefix(Val(E[eo..eo + Elimbs]), limb0 * LIMB_BITS + bit0) == e0 + window0
    requires Rep(Val(X[0..n]), Pow(v, e0), n, Val(N[..n]))
    modifies X, T
    ensures bit < LIMB_BITS && limb < Elimbs && limb * LIMB_BITS + bit == limb0 * LIMB_BITS + bit0 - 1
    ensures wbits < wsize && window < Pow(2, wbits) && (bit == 0 && limb == 0 ==> window == 0)
    ensures E[eo..eo + Elimbs] == old(E[eo..eo + Elimbs]) && OnlyWrites(X, 0, n) && T[..so] == old(T[..so])
    ensures Prefix(Val(E[eo..eo + Elimbs]), limb * LIMB_BITS + bit) == e + window
    ensures Rep(Val(X[0..n]), Pow(v, e), n, Val(N[..n]))
  {
    hide Val, Scale, Cong, Rep, Pow, Slot, Prefix, PowersIn;
    ghost var ns, es, ts := N[..n], E[eo..eo + Elimbs], T[..so];
    ghost var e1 := E[..];
    if E == T { PrefixSlice(e1, so, eo, eo + Elimbs); }
    Square(X, N, n, mm, T, temp, v, e0);
    assert N[..n] == ns && T[..so] == ts;
    if E == T { PrefixSlice(T[..], so, eo, eo + Elimbs); } else { KeptSlice(E, e1, eo, eo + Elimbs); }
    assert E[eo..eo + Elimbs] == es;
    limb, bit, window, wbits := ReadBit(E, eo, Elimbs, limb0, bit0, window0, wbits0, wsize, e0);
    e := 2 * e0;
    if wbits == wsize || (bit == 0 && limb == 0) {
      PowMono(2, wbits, wsize);
      Flush(X, N, n, mm, T, tp, so, temp, welem, window, public, v, e);
      assert N[..n] == ns;
      if E == T { PrefixSlice(T[..], so, eo, eo + Elimbs); } else { KeptSlice(E, e1, eo, eo + Elimbs); }
      assert E[eo..eo + Elimbs] == es;
      e := e + window;
      window := 0;
      wbits := 0;
      WindowEmpty(v);
    }
  }

  /** Moves to the next bit of the exponent and puts it into the window. */
  method ReadBit(E: array<Limb>, eo: nat, Elimbs: nat, limb0: nat, bit0: nat, window0: Limb, wbits0: nat, ghost wsize: nat, ghost e: nat)
    returns (limb: nat, bit: nat, window: Limb, wbits: nat)
    requires eo + Elimbs <= E.Length && bit0 < LIMB_BITS && limb0 * LIMB_BITS + bit0 > 0
    requires limb0 < Elimbs || (limb0 == Elimbs && bit0 == 0)
    requires wbits0 < wsize <= 6 && window0 < Pow(2, wbits0)
    requires Prefix(Val(E[eo..eo + Elimbs]), limb0 * LIMB_BITS + bit0) == e + window0
    ensures bit < LIMB_BITS && limb < Elimbs && limb * LIMB_BITS + bit == limb0 * LIMB_BITS + bit0 - 1
    ensures wbits == wbits0 + 1 && window < Pow(2, wbits)
    ensures Prefix(Val(E[eo..eo + Elimbs]), limb * LIMB_BITS + bit) == 2 * e + window
  {
    hide Val, Pow, BitAt, BitOf, Prefix, Shl, BitOr;
    limb, bit := limb0, bit0;
    if bit == 0 {
      limb := limb - 1;
      bit := LIMB_BITS - 1;
    } else {
      bit := bit - 1;
    }
    ghost var es := E[eo..eo + Elimbs];
    PrefixNext(es, limb, bit);
    assert E[eo + limb] == es[limb];
    BitOfIs(E[eo + limb], bit);
    wbits := wbits0 + 1;
    WindowGrows(window0, wbits, BitOf(E[eo + limb], bit));
    window := BitOr(Shl(window0, 1), BitOf(E[eo + limb], bit));
  }

  lemma WindowEmpty(v: nat)
    ensures Pow(2, 0) == 1 && Pow(v, 0) == 1
  {}

  lemma BitOfIs(x: Limb, bit: nat)
    ensures BitOf(x, bit) == BitAt(x, bit)
  {}

  lemma WindowGrows(window: Limb, wbits: nat, b: nat)
    requires 1 <= wbits <= 6 && window < Pow(2, wbits - 1) && b < 2
    ensures BitOr(Shl(window, 1), b) == 2 * window + b < BASE && 2 * window + b < Pow(2, wbits)
  {
    hide Shl, BitOr;
    PowNext(wbits - 1);
    PowMono(2, wbits - 1, 5);
    assert Pow(2, 1) == 2 && Pow(2, 2) == 4 && Pow(2, 3) == 8 && Pow(2, 4) == 16 && Pow(2, 5) == 32;
    WindowPush(window, b);
  }

  /** X := A^E mod N, all in Montgomery form, for a public or a secret exponent. */
  method ExpModOptionallySafe(X: array<Limb>, A: array<Limb>, N: array<Limb>, n: nat, E: array<Limb>, eo: nat, Elimbs: nat,
                              public: bool, RR: array<Limb>, T: array<Limb>, tp: nat, ghost v: nat)
    requires 0 < n <= N.Length && n <= X.Length && n <= A.Length && n <= RR.Length && 0 < Elimbs && eo + Elimbs <= E.Length
    requires tp + WorkingLimbs(n, Elimbs) <= T.Length
    requires T != X && T != A && T != N && T != RR && X != N && X != RR && X != E && (E != T || eo + Elimbs <= tp)
    requires N[0] % 2 == 1 && Rep(Val(A[..n]), v, n, Val(N[..n]))
    requires Val(RR[..n]) < Val(N[..n]) && Cong(Val(RR[..n]), Scale(n) * Scale(n), Val(N[..n]))
    modifies X, T
    ensures Rep(Val(X[0..n]), Pow(v, old(Val(E[eo..eo + Elimbs]))), n, Val(N[..n]))
    ensures OnlyWrites(X, 0, n) && forall j :: 0 <= j < tp ==> T[j] == old(T[j])
  {
    hide Val, Scale, Cong, Rep, Pow, Slot, Welem, WorkingLimbs, WindowSize, PowersIn;
    ghost var ns, es := N[..n], E[eo..eo + Elimbs];
    var limb, bit := FirstBit(E, eo, Elimbs, public);
    var wsize := WindowSize(limb * LIMB_BITS);
    var welem := Welem(limb * LIMB_BITS);
    WelemBounds(limb * LIMB_BITS);
    Layout(n, limb, Elimbs);
    var so := tp + Slot(welem, n);
    var temp := so + n;
    var mm := MontmulInit(N);
    PrecomputeWindow(A, N, n, mm, RR, welem, T, tp, temp, v);
    assert N[..n] == ns && E[eo..eo + Elimbs] == es;
    ghost var ts := T[..so];
    PowersInAt(ts, tp, welem, 0, v, n, Val(ns));
    SlotStart(n);
    WindowEmpty(v);
    assert ts[tp..tp + n] == T[tp..tp + n];
    Copy(X, 0, T, tp, n);
    assert N[..n] == ns && E[eo..eo + Elimbs] == es && T[..so] == ts;
    ExpLoop(X, N, n, mm, T, tp, so, temp, welem, wsize, E, eo, Elimbs, limb, bit, public, v);
    assert N[..n] == ns;
    assert forall j :: 0 <= j < tp ==> T[..so][j] == ts[j];
  }

  lemma Layout(n: nat, limb: nat, Elimbs: nat)
    requires limb <= Elimbs
    ensures Slot(Welem(limb * LIMB_BITS), n) + n + 2 * n + 1 <= WorkingLimbs(n, Elimbs)
    ensures Welem(limb * LIMB_BITS) == Pow(2, WindowSize(limb * LIMB_BITS))
  {
    hide WorkingLimbs;
    TableFits(n, limb, Elimbs);
  }

  /** Secret exponent. */
  method CoreExpMod(X: array<Limb>, A: array<Limb>, N: array<Limb>, n: nat, E: array<Limb>, eo: nat, Elimbs: nat,
                    RR: array<Limb>, T: array<Limb>, tp: nat, ghost v: nat)
    requires 0 < n <= N.Length && n <= X.Length && n <= A.Length && n <= RR.Length && 0 < Elimbs && eo + Elimbs <= E.Length
    requires tp + WorkingLimbs(n, Elimbs) <= T.Length
    requires T != X && T != A && T != N && T != RR && X != N && X != RR && X != E && (E != T || eo + Elimbs <= tp)
    requires N[0] % 2 == 1 && Rep(Val(A[..n]), v, n, Val(N[..n]))
    requires Val(RR[..n]) < Val(N[..n]) && Cong(Val(RR[..n]), Scale(n) * Scale(n), Val(N[..n]))
    modifies X, T
    ensures Rep(Val(X[0..n]), Pow(v, old(Val(E[eo..eo + Elimbs]))), n, Val(N[..n]))
    ensures OnlyWrites(X, 0, n) && forall j :: 0 <= j < tp ==> T[j] == old(T[j])
  {
    ExpModOptionallySafe(X, A, N, n, E, eo, Elimbs, false, RR, T, tp, v);
  }

  /** Public exponent. */
  method CoreExpModUnsafe(X: array<Limb>, A: array<Limb>, N: array<Limb>, n: nat, E: array<Limb>, eo: nat, Elimbs: nat,
                          RR: array<Limb>, T: array<Limb>, tp: nat, ghost v: nat)
    requires 0 < n <= N.Length && n <= X.Length && n <= A.Length && n <= RR.Length && 0 < Elimbs && eo + Elimbs <= E.Length
    requires tp + WorkingLimbs(n, Elimbs) <= T.Length
    requires T != X && T != A && T != N && T != RR && X != N && X != RR && X != E && (E != T || eo + Elimbs <= tp)
    requires N[0] % 2 == 1 && Rep(Val(A[..n]), v, n, Val(N[..n]))
    requires Val(RR[..n]) < Val(N[..n]) && Cong(Val(RR[..n]), Scale(n) * Scale(n), Val(N[..n]))
    modifies X, T
    ensures Rep(Val(X[0..n]), Pow(v, old(Val(E[eo..eo + Elimbs]))), n, Val(N[..n]))
    ensures OnlyWrites(X, 0, n) && forall j :: 0 <= j < tp ==> T[j] == old(T[j])
  {
    ExpModOptionallySafe(X, A, N, n, E, eo, Elimbs, true, RR, T, tp, v);
  }
}
