/** bignum_core.c: fixed-size unsigned arithmetic on limb arrays, in place.
    A pointer is an array and an offset; the operands may alias wherever the
    library allows it. */
module BignumCore {
  import opened Arith
  import opened Limbs
  import opened Words
  import opened BnMul

  // ----- the invariant shared by the carry loops -----

  /** The limbs produced so far, with the pending carry c (negative for a borrow),
      hold a + m * b + c0 restricted to the limbs processed so far. */
  ghost predicate Acc(a: seq<Limb>, m: int, b: seq<Limb>, c0: int, out: seq<Limb>, c: int)
  {
    |out| <= |a| &&
    Val(out) + c * Scale(|out|) == Val(a[..|out|]) + m * Val(Upto(b, |out|)) + c0
  }

  ghost function Upto(b: seq<Limb>, n: nat): seq<Limb>
  {
    if n <= |b| then b[..n] else b
  }

  lemma AccStart(a: seq<Limb>, m: int, b: seq<Limb>, c0: int)
    ensures Acc(a, m, b, c0, [], c0)
  {}

  lemma AccNext(a: seq<Limb>, m: int, b: seq<Limb>, c0: int, out: seq<Limb>, c: int, t: Limb, c': int)
    requires |out| < |a| && Acc(a, m, b, c0, out, c)
    requires t + c' * BASE == a[|out|] + (if |out| < |b| then m * b[|out|] else 0) + c
    ensures Acc(a, m, b, c0, out + [t], c')
  {
    hide Val;
    var k := |out|;
    ValPrefix(a, k);
    ValSnoc(out, t);
    if k < |b| {
      AccTerm(m, b, k);
      AccArith(t, c', a[k], m * b[k], c, Scale(k));
    } else {
      assert Upto(b, k) == Upto(b, k + 1);
      AccArith(t, c', a[k], 0, c, Scale(k));
    }
  }

  lemma AccTerm(m: int, b: seq<Limb>, k: nat)
    requires k < |b|
    ensures m * Val(Upto(b, k + 1)) == m * Val(Upto(b, k)) + Scale(k) * (m * b[k])
  {
    hide Val;
    assert Upto(b, k + 1) == b[..k + 1];
    ValPrefix(b, k);
    MulDist(m, Val(b[..k]), Scale(k) * b[k]);
    MulAssoc(m, Scale(k), b[k]);
    MulAssoc(Scale(k), m, b[k]);
  }

  lemma AccArith(t: int, c': int, a: int, x: int, c: int, p: int)
    requires t + c' * BASE == a + x + c
    ensures p * t + c' * (BASE * p) == p * a + p * x + c * p
  {
    assert p * (t + c' * BASE) == p * (a + x + c);
  }

  lemma AccEnd(a: seq<Limb>, m: int, b: seq<Limb>, c0: int, out: seq<Limb>, c: int)
    requires Acc(a, m, b, c0, out, c) && |out| == |a| && |b| <= |a|
    ensures Val(out) + c * Scale(|out|) == Val(a) + m * Val(b) + c0
  {
    assert a[..|out|] == a && Upto(b, |out|) == b;
  }

  // ----- addition and subtraction -----

  method Add(X: array<Limb>, xo: nat, A: array<Limb>, ao: nat, B: array<Limb>, bo: nat, limbs: nat) returns (c: Limb)
    requires xo + limbs <= X.Length && ao + limbs <= A.Length && bo + limbs <= B.Length
    requires SameOrApart(X, xo, A, ao, limbs) && SameOrApart(X, xo, B, bo, limbs)
    modifies X
    ensures c <= 1
    ensures Val(X[xo..xo + limbs]) + c * Scale(limbs) == old(Val(A[ao..ao + limbs]) + Val(B[bo..bo + limbs]))
    ensures OnlyWrites(X, xo, limbs)
  {
    hide Val, Scale, Acc, WAdd;
    c := 0;
    ghost var As, Bs := A[ao..ao + limbs], B[bo..bo + limbs];
    ghost var out: seq<Limb> := [];
    AccStart(As, 1, Bs, 0);
    for i := 0 to limbs
      invariant c <= 1
      invariant forall k :: 0 <= k < X.Length && !(xo <= k < xo + i) ==> X[k] == old(X[k])
      invariant |out| == i && forall k :: xo <= k < xo + i ==> X[k] == out[k - xo]
      invariant Acc(As, 1, Bs, 0, out, c)
    {
      var a, b := A[ao + i], B[bo + i];
      assert a == As[i] && b == Bs[i];
      ghost var c0 := c;
      AddCarry(c, a, b);
      var t := WAdd(c, a);
      c := Bit(t < a);
      t := WAdd(t, b);
      c := c + Bit(t < b);
      AccNext(As, 1, Bs, 0, out, c0, t, c);
      X[xo + i] := t;
      out := out + [t];
    }
    AccEnd(As, 1, Bs, 0, out, c);
    assert X[xo..xo + limbs] == out;
  }

  method AddIf(X: array<Limb>, xo: nat, A: array<Limb>, ao: nat, limbs: nat, cond: bool) returns (c: Limb)
    requires xo + limbs <= X.Length && ao + limbs <= A.Length
    requires SameOrApart(X, xo, A, ao, limbs)
    modifies X
    ensures c <= 1
    ensures Val(X[xo..xo + limbs]) + c * Scale(limbs)
         == old(Val(X[xo..xo + limbs]) + (if cond then Val(A[ao..ao + limbs]) else 0))
    ensures OnlyWrites(X, xo, limbs)
  {
    hide Val, Scale, Acc, WAdd;
    c := 0;
    ghost var m := if cond then 1 else 0;
    ghost var Xs, As := X[xo..xo + limbs], A[ao..ao + limbs];
    ghost var out: seq<Limb> := [];
    AccStart(Xs, m, As, 0);
    for i := 0 to limbs
      invariant c <= 1
      invariant forall k :: 0 <= k < X.Length && !(xo <= k < xo + i) ==> X[k] == old(X[k])
      invariant |out| == i && forall k :: xo <= k < xo + i ==> X[k] == out[k - xo]
      invariant Acc(Xs, m, As, 0, out, c)
    {
      var x := X[xo + i];
      var add := if cond then A[ao + i] else 0;
      assert x == Xs[i] && add == m * As[i];
      ghost var c0 := c;
      AddCarry(c, x, add);
      var t := WAdd(c, x);
      c := Bit(t < x);
      t := WAdd(t, add);
      c := c + Bit(t < add);
      AccNext(Xs, m, As, 0, out, c0, t, c);
      X[xo + i] := t;
      out := out + [t];
    }
    AccEnd(Xs, m, As, 0, out, c);
    assert X[xo..xo + limbs] == out;
  }

  method Sub(X: array<Limb>, xo: nat, A: array<Limb>, ao: nat, B: array<Limb>, bo: nat, limbs: nat) returns (c: Limb)
    requires xo + limbs <= X.Length && ao + limbs <= A.Length && bo + limbs <= B.Length
    requires SameOrApart(X, xo, A, ao, limbs) && SameOrApart(X, xo, B, bo, limbs)
    modifies X
    ensures c <= 1
    ensures Val(X[xo..xo + limbs]) - c * Scale(limbs) == old(Val(A[ao..ao + limbs]) - Val(B[bo..bo + limbs]))
    ensures OnlyWrites(X, xo, limbs)
  {
    hide Val, Scale, Acc, WSub;
    c := 0;
    ghost var As, Bs := A[ao..ao + limbs], B[bo..bo + limbs];
    ghost var out: seq<Limb> := [];
    AccStart(As, -1, Bs, 0);
    for i := 0 to limbs
      invariant c <= 1
      invariant forall k :: 0 <= k < X.Length && !(xo <= k < xo + i) ==> X[k] == old(X[k])
      invariant |out| == i && forall k :: xo <= k < xo + i ==> X[k] == out[k - xo]
      invariant Acc(As, -1, Bs, 0, out, -(c as int))
    {
      var a, b := A[ao + i], B[bo + i];
      assert a == As[i] && b == Bs[i];
      ghost var c0 := c;
      SubBorrow(c, a, b);
      var z := Bit(a < c);
      var t := WSub(a, c);
      c := Bit(t < b) + z;
      t := WSub(t, b);
      AccNext(As, -1, Bs, 0, out, -(c0 as int), t, -(c as int));
      X[xo + i] := t;
      out := out + [t];
    }
    AccEnd(As, -1, Bs, 0, out, -(c as int));
    assert X[xo..xo + limbs] == out;
  }

  /** Subtracts one limb; b doubles as the running borrow. */
  method SubInt(X: array<Limb>, xo: nat, A: array<Limb>, ao: nat, b: Limb, limbs: nat) returns (c: Limb)
    requires xo + limbs <= X.Length && ao + limbs <= A.Length
    requires SameOrApart(X, xo, A, ao, limbs)
    modifies X
    ensures limbs > 0 ==> c <= 1
    ensures Val(X[xo..xo + limbs]) - c * Scale(limbs) == old(Val(A[ao..ao + limbs])) - b
    ensures OnlyWrites(X, xo, limbs)
  {
    hide Val, Scale, Acc, WSub;
    c := b;
    ghost var As := A[ao..ao + limbs];
    ghost var out: seq<Limb> := [];
    AccStart(As, 0, [], -(b as int));
    for i := 0 to limbs
      invariant i > 0 ==> c <= 1
      invariant forall k :: 0 <= k < X.Length && !(xo <= k < xo + i) ==> X[k] == old(X[k])
      invariant |out| == i && forall k :: xo <= k < xo + i ==> X[k] == out[k - xo]
      invariant Acc(As, 0, [], -(b as int), out, -(c as int))
    {
      var s := A[ao + i];
      assert s == As[i];
      ghost var c0 := c;
      WSubBorrow(s, c);
      var t := WSub(s, c);
      c := Bit(t > s);
      AccNext(As, 0, [], -(b as int), out, -(c0 as int), t, -(c as int));
      X[xo + i] := t;
      out := out + [t];
    }
    AccEnd(As, 0, [], -(b as int), out, -(c as int));
    assert X[xo..xo + limbs] == out;
  }

  // ----- multiplication -----

  /** d += s * b. The source is cut to the length of the destination if it is longer.
      The carry runs on through the excess limbs of d and what is left is returned. */
  method Mla(d: array<Limb>, dp: nat, dlen: nat, s: array<Limb>, sp: nat, slen: nat, b: Limb) returns (c: Limb)
    requires dp + dlen <= d.Length && sp + slen <= s.Length
    requires (d == s && dp == sp) || Apart(d, dp, dlen, s, sp, slen)
    modifies d
    ensures var n := if dlen < slen then dlen else slen;
            Val(d[dp..dp + dlen]) + c * Scale(dlen) == old(Val(d[dp..dp + dlen]) + b * Val(s[sp..sp + n]))
    ensures OnlyWrites(d, dp, dlen)
  {
    hide Val, Scale, Acc, WAdd;
    c := 0;
    var n := if dlen < slen then dlen else slen;
    ghost var Ds, Ss := d[dp..dp + dlen], s[sp..sp + n];
    ghost var out: seq<Limb> := [];
    AccStart(Ds, b, Ss, 0);
    for i := 0 to n
      invariant forall k :: 0 <= k < d.Length && !(dp <= k < dp + i) ==> d[k] == old(d[k])
      invariant |out| == i && forall k :: dp <= k < dp + i ==> d[k] == out[k - dp]
      invariant Acc(Ds, b, Ss, 0, out, c)
    {
      var x, y := s[sp + i], d[dp + i];
      assert x == Ss[i] && y == Ds[i];
      var lo, hi := MulAdd(x, b, c, y);
      AccNext(Ds, b, Ss, 0, out, c, lo, hi);
      d[dp + i] := lo;
      c := hi;
      out := out + [lo];
    }
    c, out := Carry(d, dp, dlen, n, c, Ds, b, Ss, out);
    AccEnd(Ds, b, Ss, 0, out, c);
    assert d[dp..dp + dlen] == out;
  }

  /** The second loop of Mla: propagates the carry through the limbs n .. dlen of d. */
  method Carry(d: array<Limb>, dp: nat, dlen: nat, n: nat, c0: Limb,
               ghost Ds: seq<Limb>, ghost b: int, ghost Ss: seq<Limb>, ghost out0: seq<Limb>)
    returns (c: Limb, ghost out: seq<Limb>)
    requires dp + dlen <= d.Length && n <= dlen == |Ds| && |Ss| == n == |out0|
    requires Acc(Ds, b, Ss, 0, out0, c0)
    requires forall k :: dp <= k < dp + n ==> d[k] == out0[k - dp]
    requires forall k :: dp + n <= k < dp + dlen ==> d[k] == Ds[k - dp]
    modifies d
    ensures |out| == dlen && Acc(Ds, b, Ss, 0, out, c)
    ensures forall k :: dp <= k < dp + dlen ==> d[k] == out[k - dp]
    ensures OnlyWrites(d, dp, dlen)
  {
    hide Val, Scale, Acc, WAdd;
    c, out := c0, out0;
    for i := n to dlen
      invariant forall k :: 0 <= k < d.Length && !(dp <= k < dp + i) ==> d[k] == old(d[k])
      invariant |out| == i && forall k :: dp <= k < dp + i ==> d[k] == out[k - dp]
      invariant Acc(Ds, b, Ss, 0, out, c)
    {
      var y := d[dp + i];
      assert y == Ds[i];
      WAddCarry(y, c);
      ghost var c1 := c;
      var t := WAdd(y, c);
      c := Bit(t < c);
      AccNext(Ds, b, Ss, 0, out, c1, t, c);
      d[dp + i] := t;
      out := out + [t];
    }
  }

  method Zero(X: array<Limb>, xo: nat, n: nat)
    requires xo + n <= X.Length
    modifies X
    ensures forall k :: xo <= k < xo + n ==> X[k] == 0
    ensures OnlyWrites(X, xo, n)
  {
    for i := 0 to n
      invariant forall k :: 0 <= k < X.Length && !(xo <= k < xo + i) ==> X[k] == old(X[k])
      invariant forall k :: xo <= k < xo + i ==> X[k] == 0
    {
      X[xo + i] := 0;
    }
  }

  /** memcpy between limb arrays that are the same or do not overlap. */
  method Copy(X: array<Limb>, xo: nat, A: array<Limb>, ao: nat, n: nat)
    requires xo + n <= X.Length && ao + n <= A.Length
    requires SameOrApart(X, xo, A, ao, n)
    modifies X
    ensures X[xo..xo + n] == old(A[ao..ao + n])
    ensures OnlyWrites(X, xo, n)
  {
    ghost var As := A[ao..ao + n];
    for i := 0 to n
      invariant forall k :: 0 <= k < X.Length && !(xo <= k < xo + i) ==> X[k] == old(X[k])
      invariant forall k :: xo <= k < xo + i ==> X[k] == As[k - xo]
    {
      var a := A[ao + i];
      assert a == As[i];
      X[xo + i] := a;
    }
  }

  /** X := A * B, schoolbook. The carry out of each Mla is discarded by the source:
      it is always zero. */
  method Mul(X: array<Limb>, xo: nat, A: array<Limb>, ao: nat, Alimbs: nat, B: array<Limb>, bo: nat, Blimbs: nat)
    requires xo + Alimbs + Blimbs <= X.Length && ao + Alimbs <= A.Length && bo + Blimbs <= B.Length
    requires Apart(X, xo, Alimbs + Blimbs, A, ao, Alimbs) && Apart(X, xo, Alimbs + Blimbs, B, bo, Blimbs)
    modifies X
    ensures Val(X[xo..xo + Alimbs + Blimbs]) == old(Val(A[ao..ao + Alimbs]) * Val(B[bo..bo + Blimbs]))
    ensures OnlyWrites(X, xo, Alimbs + Blimbs)
  {
    hide Val, Scale, Product;
    ghost var As, Bs := A[ao..ao + Alimbs], B[bo..bo + Blimbs];
    Zero(X, xo, Alimbs + Blimbs);
    MulNone(X[xo..xo + Alimbs], As, Bs);
    for i := 0 to Blimbs
      invariant OnlyWrites(X, xo, Alimbs + Blimbs)
      invariant Product(X[xo..xo + i + Alimbs], As, Bs[..i])
      invariant forall k :: xo + Alimbs + i <= k < xo + Alimbs + Blimbs ==> X[k] == 0
    {
      assert A[ao..ao + Alimbs] == As && B[bo + i] == Bs[i];
      MulRound(X, xo, i, A, ao, Alimbs, B[bo + i], As, Bs);
    }
    assert Bs[..Blimbs] == Bs;
    ProductDef(X[xo..xo + Blimbs + Alimbs], As, Bs);
  }

  /** Row i of the product is added in; the carry that is discarded is zero. */
  method MulRound(X: array<Limb>, xo: nat, i: nat, A: array<Limb>, ao: nat, Alimbs: nat, b: Limb, ghost As: seq<Limb>, ghost Bs: seq<Limb>)
    requires xo + i + Alimbs + 1 <= X.Length && ao + Alimbs <= A.Length && Apart(X, xo, i + Alimbs + 1, A, ao, Alimbs)
    requires A[ao..ao + Alimbs] == As && i < |Bs| && b == Bs[i]
    requires X[xo + i + Alimbs] == 0 && Product(X[xo..xo + i + Alimbs], As, Bs[..i])
    modifies X
    ensures Product(X[xo..xo + (i + 1) + Alimbs], As, Bs[..i + 1])
    ensures OnlyWrites(X, xo + i, Alimbs + 1)
  {
    hide Val, Scale, Product;
    ghost var low, mid := X[xo..xo + i], X[xo + i..xo + i + Alimbs + 1];
    assert X[xo..xo + i + Alimbs] == low + mid[..Alimbs];
    var c := Mla(X, xo + i, Alimbs + 1, A, ao, Alimbs, b);
    ghost var mid' := X[xo + i..xo + i + Alimbs + 1];
    assert X[xo..xo + i] == low;
    SplitSlice(X, xo, xo + i, xo + i + Alimbs + 1);
    MulStep(low, mid, mid', As, Bs, i, c);
  }

  ghost predicate Product(x: seq<Limb>, a: seq<Limb>, b: seq<Limb>)
  {
    Val(x) == Val(a) * Val(b)
  }

  lemma MulNone(x: seq<Limb>, a: seq<Limb>, b: seq<Limb>)
    requires forall k :: 0 <= k < |x| ==> x[k] == 0
    ensures Product(x, a, b[..0])
  {
    ValZero(x);
  }

  lemma MulStep(low: seq<Limb>, mid: seq<Limb>, mid': seq<Limb>, a: seq<Limb>, b: seq<Limb>, i: nat, c: Limb)
    requires i == |low| < |b| && |mid| == |mid'| == |a| + 1 && mid[|a|] == 0
    requires Product(low + mid[..|a|], a, b[..i])
    requires Val(mid') + c * Scale(|a| + 1) == Val(mid) + b[i] * Val(a)
    ensures c == 0
    ensures Product(low + mid', a, b[..i + 1])
  {
    hide *;
    assert Val(mid) == Val(mid[..|a|]) && c == 0 && Val(mid') == Val(mid) + b[i] * Val(a) by {
      TopZero(mid, |a|);
      ValBound(a);
      NoCarry(Val(mid), b[i], Val(a), |a|, Val(mid'), c);
    }
    assert Val(low) + Scale(i) * Val(mid) == Val(a) * Val(b[..i]) by {
      ValConcat(low, mid[..|a|]);
      ProductDef(low + mid[..|a|], a, b[..i]);
    }
    ValConcat(low, mid');
    ValPrefix(b, i);
    ProductDef(low + mid', a, b[..i + 1]);
    MulStepArith(Val(low), Scale(i), Val(mid), b[i], Val(a), Val(b[..i]), Val(mid'));
  }

  lemma ProductDef(x: seq<Limb>, a: seq<Limb>, b: seq<Limb>)
    ensures Product(x, a, b) <==> Val(x) == Val(a) * Val(b)
  {}

  lemma TopZero(x: seq<Limb>, n: nat)
    requires |x| == n + 1 && x[n] == 0
    ensures Val(x) == Val(x[..n]) < Scale(n)
  {
    hide *;
    assert x[..n + 1] == x;
    ValPrefix(x, n);
    ValBound(x[..n]);
    assert Scale(n) * x[n] == 0;
  }

  lemma MulStepArith(l: int, p: int, mid: int, b: int, a: int, bs: int, mid': int)
    requires l + p * mid == a * bs && mid' == mid + b * a
    ensures l + p * mid' == a * (bs + p * b)
  {
    hide *;
    MulDist(p, mid, b * a);
    MulDist(a, bs, p * b);
    MulAssoc(p, b, a);
    MulAssoc(a, p, b);
  }

  /** A limb times an n-limb number plus an n-limb number fits in n + 1 limbs. */
  lemma NoCarry(x: nat, b: Limb, a: nat, n: nat, r: nat, c: Limb)
    requires x < Scale(n) && a < Scale(n)
    requires r + c * Scale(n + 1) == x + b * a
    ensures c == 0 && r == x + b * a
  {
    hide *;
    var p := Scale(n);
    ScaleNext(n);
    MulLe(b, BASE - 1, a);
    MulLe(a, p, BASE - 1);
    MulDist(p, BASE, 1);
    if c > 0 {
      ScalePos(n + 1);
      MulLe(1, c, Scale(n + 1));
    }
  }

  // ----- comparison and selection -----

  /** True exactly when the number is not zero. */
  method CheckZero(A: array<Limb>, ao: nat, limbs: nat) returns (nonzero: bool)
    requires ao + limbs <= A.Length
    ensures nonzero <==> Val(A[ao..ao + limbs]) != 0
  {
    hide BitOr;
    var bits: nat := 0;
    ghost var As := A[ao..ao + limbs];
    for i := 0 to limbs
      invariant bits == 0 <==> forall k :: 0 <= k < i ==> As[k] == 0
    {
      var a := A[ao + i];
      assert a == As[i];
      OrIsZero(bits, a);
      bits := BitOr(bits, a);
    }
    nonzero := bits != 0;
    ZeroIff(As);
  }

  lemma ZeroIff(s: seq<Limb>)
    ensures Val(s) == 0 <==> forall k :: 0 <= k < |s| ==> s[k] == 0
  {
    if Val(s) == 0 { ValIsZero(s); }
    if forall k :: 0 <= k < |s| ==> s[k] == 0 { ValZero(s); }
  }

  lemma OrIsZero(x: nat, y: nat)
    ensures BitOr(x, y) == 0 <==> x == 0 && y == 0
    decreases x + y
  {
    if x != 0 || y != 0 {
      OrIsZero(x / 2, y / 2);
    }
  }

  /** A < B, scanning every limb from the top with a result and a done flag. */
  method LtCt(A: array<Limb>, ao: nat, B: array<Limb>, bo: nat, limbs: nat) returns (ret: bool)
    requires ao + limbs <= A.Length && bo + limbs <= B.Length
    ensures ret <==> Val(A[ao..ao + limbs]) < Val(B[bo..bo + limbs])
  {
    hide Val;
    var done := false;
    ret := false;
    ghost var As, Bs := A[ao..ao + limbs], B[bo..bo + limbs];
    var i := limbs;
    assert As[i..] == Bs[i..] == [];
    while i > 0
      invariant i <= limbs
      invariant done <==> Val(As[i..]) != Val(Bs[i..])
      invariant ret <==> Val(As[i..]) < Val(Bs[i..])
    {
      i := i - 1;
      var a, b := A[ao + i], B[bo + i];
      assert a == As[i] && b == Bs[i];
      ValSuffix(As, i);
      ValSuffix(Bs, i);
      CmpStep(a, b, Val(As[i + 1..]), Val(Bs[i + 1..]));
      done := done || b < a;
      ret := ret || (a < b && !done);
      done := done || a < b;
    }
    assert As[0..] == As && Bs[0..] == Bs;
  }

  lemma CmpStep(a: Limb, b: Limb, x: nat, y: nat)
    ensures a + BASE * x < b + BASE * y <==> x < y || (x == y && a < b)
    ensures a + BASE * x == b + BASE * y <==> x == y && a == b
  {
    if x < y { MulLe(x + 1, y, BASE); }
    if y < x { MulLe(y + 1, x, BASE); }
  }

  method CondAssign(X: array<Limb>, xo: nat, A: array<Limb>, ao: nat, limbs: nat, assign: bool)
    requires xo + limbs <= X.Length && ao + limbs <= A.Length
    requires SameOrApart(X, xo, A, ao, limbs)
    modifies X
    ensures X[xo..xo + limbs] == old(if assign then A[ao..ao + limbs] else X[xo..xo + limbs])
    ensures OnlyWrites(X, xo, limbs)
  {
    if X == A && xo == ao {
      return;
    }
    ghost var R := if assign then A[ao..ao + limbs] else X[xo..xo + limbs];
    for i := 0 to limbs
      invariant forall k :: 0 <= k < X.Length && !(xo <= k < xo + i) ==> X[k] == old(X[k])
      invariant forall k :: xo <= k < xo + i ==> X[k] == R[k - xo]
    {
      var x := if assign then A[ao + i] else X[xo + i];
      assert x == R[i];
      X[xo + i] := x;
    }
  }

  method CondSwap(X: array<Limb>, xo: nat, Y: array<Limb>, yo: nat, limbs: nat, swap: bool)
    requires xo + limbs <= X.Length && yo + limbs <= Y.Length
    requires SameOrApart(X, xo, Y, yo, limbs)
    modifies X, Y
    ensures X[xo..xo + limbs] == old(if swap then Y[yo..yo + limbs] else X[xo..xo + limbs])
    ensures Y[yo..yo + limbs] == old(if swap then X[xo..xo + limbs] else Y[yo..yo + limbs])
    ensures X != Y ==> OnlyWrites(X, xo, limbs) && OnlyWrites(Y, yo, limbs)
    ensures X == Y ==> forall k :: 0 <= k < X.Length && !(xo <= k < xo + limbs) && !(yo <= k < yo + limbs) ==> X[k] == old(X[k])
  {
    if X == Y && xo == yo {
      return;
    }
    ghost var Xs, Ys := X[xo..xo + limbs], Y[yo..yo + limbs];
    ghost var R, S := if swap then Ys else Xs, if swap then Xs else Ys;
    for i := 0 to limbs
      invariant forall k :: 0 <= k < X.Length && !(xo <= k < xo + i) && (X != Y || !(yo <= k < yo + i)) ==> X[k] == old(X[k])
      invariant forall k :: 0 <= k < Y.Length && !(yo <= k < yo + i) && (X != Y || !(xo <= k < xo + i)) ==> Y[k] == old(Y[k])
      invariant forall k :: xo <= k < xo + i ==> X[k] == R[k - xo]
      invariant forall k :: yo <= k < yo + i ==> Y[k] == S[k - yo]
    {
      var tmp, y := X[xo + i], Y[yo + i];
      assert tmp == Xs[i] && y == Ys[i];
      SwapOne(X, xo + i, Y, yo + i, if swap then y else tmp, if swap then tmp else y);
    }
    SliceIs(X, xo, R);
    SliceIs(Y, yo, S);
  }

  method SwapOne(X: array<Limb>, i: nat, Y: array<Limb>, j: nat, x: Limb, y: Limb)
    requires i < X.Length && j < Y.Length && (X != Y || i != j)
    modifies X, Y
    ensures X[i] == x && Y[j] == y
    ensures forall k :: 0 <= k < X.Length && k != i && (X != Y || k != j) ==> X[k] == old(X[k])
    ensures forall k :: 0 <= k < Y.Length && k != j && (X != Y || k != i) ==> Y[k] == old(Y[k])
  {
    X[i] := x;
    Y[j] := y;
  }
}
