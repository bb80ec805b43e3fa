/** bignum.c: long division, Algorithm D of Knuth. */
module Division {
  import opened Arith
  import opened NumberTheory
  import opened Limbs
  import opened Words
  import opened BitLength
  import opened Mpis
  import opened MpiArith
  import opened IntDiv

  // ----- what division computes -----

  /** The quotient rounded towards zero. */
  function TQuot(a: int, b: int): int
    requires b != 0
  {
    if (a < 0) == (b < 0) then Mag(a) / Mag(b) else -(Mag(a) / Mag(b))
  }

  /** The remainder with the sign of the dividend. */
  function TRem(a: int, b: int): int
    requires b != 0
  {
    if a < 0 then -(Mag(a) % Mag(b)) else Mag(a) % Mag(b)
  }

  function Mag(a: int): int
  {
    if a < 0 then -a else a
  }

  /** What the documentation promises of quotient and remainder. */
  ghost predicate Divided(a: int, b: int, q: int, r: int)
  {
    a == q * b + r && Mag(r) < Mag(b) && (r == 0 || ((r < 0) <==> (a < 0)))
  }

  lemma SignMul(q: int, y: int)
    ensures (-q) * (-y) == q * y && (-q) * y == -(q * y) && q * (-y) == -(q * y)
  {}

  lemma DividedByMagnitudes(a: int, b: int, q: int, r: int)
    requires b != 0
    ensures Divided(a, b, q, r)
       <==> var q', r' := if (a < 0) == (b < 0) then q else -q, if a < 0 then -r else r;
            Mag(a) == q' * Mag(b) + r' && 0 <= r' < Mag(b)
  {
    SignMul(q, b);
  }

  /** Quotient and remainder are the only numbers with a = q * b + r, |r| < |b| and r zero or signed like a. */
  lemma TruncatedDivision(a: int, b: int, q: int, r: int)
    requires b != 0
    ensures Divided(a, b, q, r) <==> q == TQuot(a, b) && r == TRem(a, b)
  {
    hide Divided;
    var x, y := Mag(a), Mag(b);
    DivModDef(x, y);
    DividedByMagnitudes(a, b, q, r);
    if Divided(a, b, q, r) {
      DivModUnique(x, y, if (a < 0) == (b < 0) then q else -q, if a < 0 then -r else r);
    }
  }

  // ----- one digit -----

  /** The working objects of a division do not share limbs. */
  ghost predicate Disjoint(X: Mpi, Y: Mpi, T1: Mpi, T2: Mpi, z: array<Limb>)
    reads X, Y, T1, T2
  {
    X != Y && X != T1 && Y != T1 && T2 != X && T2 != Y && T2 != T1 &&
    X.p != Y.p && X.p != T1.p && Y.p != T1.p && T2.p != X.p && T2.p != Y.p && T2.p != T1.p &&
    z != X.p && z != Y.p && z != T1.p && z != T2.p &&
    X.Ok() && Y.Ok() && T1.Ok() && T2.Ok() && T2.s == 1 && T2.p.Length == 3 && T1.p.Length >= 2
  }

  lemma PositiveV(s: int, a: nat)
    requires (s == 1 || s == -1) && Signed(s, a) >= 0
    ensures a == Signed(s, a)
  {}

  /** The three leading limbs of x, at weight i - 2 (limb i is the highest one that may be nonzero). */
  lemma TopThree(s: seq<Limb>, i: nat, w: seq<Limb>)
    requires 0 < i < |s| && Val(s) < Scale(i + 1)
    requires w == [if i < 2 then 0 else s[i - 2], s[i - 1], s[i]]
    ensures Val(w) * Scale(i - 1) <= Val(s) * BASE < (Val(w) + 1) * Scale(i - 1)
  {
    hide *;
    var u := s[..i + 1];
    TopZeros(s, i + 1);
    if i < 2 {
      assert w == [0] + u;
      ShiftedUp(u, w, i - 1);
    } else {
      assert u[i - 2..] == w;
      Leading(u, w, i - 2);
    }
  }

  lemma ShiftedUp(u: seq<Limb>, w: seq<Limb>, n: nat)
    requires w == [0] + u && n == 0
    ensures Val(w) * Scale(n) <= Val(u) * BASE < (Val(w) + 1) * Scale(n)
  {
    hide *;
    ValUnfold(0, u);
    ScaleZero();
  }

  lemma Leading(u: seq<Limb>, w: seq<Limb>, n: nat)
    requires n <= |u| && w == u[n..]
    ensures Val(w) * Scale(n + 1) <= Val(u) * BASE < (Val(w) + 1) * Scale(n + 1)
  {
    hide *;
    ValSplit(u, n);
    ValBound(u[..n]);
    ScaleNext(n);
    LeadingLimbs(Val(u), Val(u[..n]), Val(w), Scale(n), Scale(n + 1));
  }

  lemma ScaleZero()
    ensures Scale(0) == 1 && Scale(1) == BASE
  {
    assert Scale(1) == BASE * Scale(0);
  }

  lemma LeadingLimbs(v: nat, low: nat, w: nat, p: nat, q: nat)
    requires v == low + p * w && low < p && q == BASE * p
    ensures w * q <= v * BASE < (w + 1) * q
  {
    MulAssoc(w, BASE, p);
    MulDist(BASE, low, p * w);
    MulLe(low + 1, p, BASE);
    assert (p * w) * BASE == w * q;
    MulDist(q, w, 1);
  }

  /** The limbs from n on are zero when the value is below Scale(n). */
  lemma TopZeros(s: seq<Limb>, n: nat)
    requires n <= |s| && Val(s) < Scale(n)
    ensures Val(s[..n]) == Val(s)
  {
    hide *;
    ValSplit(s, n);
    if Val(s[n..]) > 0 { MulLe(1, Val(s[n..]), Scale(n)); }
    assert Scale(n) * 0 == 0;
  }

  /** The two leading limbs of the divisor. */
  lemma TopTwo(s: seq<Limb>, t: nat, w: seq<Limb>)
    requires t < |s| && Val(s) < Scale(t + 1) && w == [if t < 1 then 0 else s[t - 1], s[t]]
    ensures Val(w) * Scale(t) <= Val(s) * BASE < (Val(w) + 1) * Scale(t)
  {
    hide *;
    var u := s[..t + 1];
    TopZeros(s, t + 1);
    if t < 1 {
      assert w == [0] + u;
      ShiftedUp(u, w, t);
    } else {
      assert u[t - 1..] == w;
      Leading(u, w, t - 1);
    }
  }

  lemma TopLimbOf(s: seq<Limb>, t: nat)
    requires t < |s| && Scale(t) <= Val(s) < Scale(t + 1)
    ensures Val(s) == Val(s[..t]) + s[t] * Scale(t) && s[t] > 0
  {
    hide *;
    TopZeros(s, t + 1);
    ValPrefix(s, t);
    ValBound(s[..t]);
    assert Scale(t) * 0 == 0;
    MulComm(Scale(t), s[t]);
  }

  /** The estimate from the leading limbs of dividend and divisor is never too small. */
  lemma EstimateHigh(x: nat, y: nat, d: nat, dd: nat, w: nat, yt: nat, st: nat, sj: nat, low: nat)
    requires dd == y * sj && d * dd <= x && x < (w + 1) * (st * sj)
    requires y == low + yt * st && st > 0 && sj > 0 && yt > 0
    ensures d <= w / yt
  {
    hide *;
    var s := st * sj;
    MulPos(st, sj);
    MulDist(sj, low, yt * st);
    MulNonNeg(low, sj);
    MulAssoc(yt, st, sj);
    MulLe(yt * s, dd, d);
    MulAssoc(d, yt, s);
    MulCancelLt(d * yt, w + 1, s);
    DivModDef(w, yt);
    if d > w / yt {
      MulLe(w / yt + 1, d, yt);
      MulDist(yt, w / yt, 1);
    }
  }

  /** The true digit passes the three-by-two-limb test. */
  lemma TestPasses(x: nat, y: nat, d: nat, dd: nat, x3: nat, y2: nat, st: nat, sj: nat)
    requires dd == y * sj && d * dd <= x && st > 0 && sj > 0
    requires x * BASE < (x3 + 1) * (st * sj) && y2 * st <= y * BASE
    ensures d * y2 <= x3
  {
    hide *;
    var s := st * sj;
    MulPos(st, sj);
    calc {
      (d * y2) * s;
      { Regroup(d, y2, st, sj); }
      (d * sj) * (y2 * st);
      <= { MulNonNeg(d, sj); MulLe(y2 * st, y * BASE, d * sj); }
      (d * sj) * (y * BASE);
      { Regroup2(d, sj, y, BASE); }
      (d * dd) * BASE;
      <= { MulLe(d * dd, x, BASE); }
      x * BASE;
    }
    MulCancelLt(d * y2, x3 + 1, s);
  }

  lemma Regroup(a: int, b: int, c: int, d: int)
    ensures (a * b) * (c * d) == (a * d) * (b * c)
  {}

  lemma Regroup2(d: int, sj: int, y: int, b: int)
    ensures (d * sj) * (y * b) == (d * (y * sj)) * b
  {}

  /** A digit that passes the test is at most one too large. */
  lemma AtMostOneOver(x: nat, y: nat, dd: nat, q: nat, x3: nat, y2: nat, st: nat, sj: nat)
    requires dd == y * sj && dd > 0 && q < BASE && q * y2 <= x3 && st > 0 && sj > 0 && st <= y
    requires x3 * (st * sj) <= x * BASE && y * BASE < (y2 + 1) * st
    ensures q <= x / dd + 1
  {
    hide *;
    var s := st * sj;
    MulPos(st, sj);
    calc {
      (q * dd) * BASE;
      { Regroup2(q, sj, y, BASE); }
      (q * sj) * (y * BASE);
      <= { MulNonNeg(q, sj); MulLe(y * BASE, (y2 + 1) * st, q * sj); }
      (q * sj) * ((y2 + 1) * st);
      { Regroup(q, y2 + 1, st, sj); }
      (q * (y2 + 1)) * s;
      { MulDist(q, y2, 1); MulDist(s, q * y2, q); }
      (q * y2) * s + q * s;
      <= { MulLe(q * y2, x3, s); }
      x * BASE + q * s;
      < { MulLt(q, BASE, s); }
      x * BASE + BASE * s;
      { MulDist(BASE, x, s); }
      (x + s) * BASE;
    }
    MulCancelLt(q * dd, x + s, BASE);
    MulLe(st, y, sj);
    DivModDef(x, dd);
    if q >= x / dd + 2 {
      MulLe(x / dd + 2, q, dd);
      MulDist(dd, x / dd, 2);
    }
  }

  // ----- the methods -----

  /** What is known of a dividend x and divisor y, given by their limbs, before digit j = i - t - 1. */
  ghost predicate Ready(xs: seq<Limb>, ys: seq<Limb>, i: nat, t: nat)
  {
    t < i < |xs| && t < |ys| && Scale(t) <= Val(ys) < Scale(t + 1) && Val(xs) < Val(ys) * Scale(i - t)
  }

  /** The shifted divisor of that digit. */
  ghost function Shifted(ys: seq<Limb>, i: nat, t: nat): int
    requires t < i
  {
    Val(ys) * Scale(i - t - 1)
  }

  lemma ReadyBounds(xs: seq<Limb>, ys: seq<Limb>, i: nat, t: nat)
    requires Ready(xs, ys, i, t)
    ensures Val(xs) < Scale(i + 1) && Shifted(ys, i, t) > 0 && 0 <= Val(xs) / Shifted(ys, i, t) < BASE
    ensures Scale(i - 1) == Scale(t) * Scale(i - t - 1) && Scale(t) > 0 && Scale(i - t - 1) > 0
    ensures (Val(xs) / Shifted(ys, i, t)) * Shifted(ys, i, t) <= Val(xs)
  {
    hide Val, Scale;
    var y, j := Val(ys), i - t - 1;
    ScaleSum(t + 1, i - t);
    ScaleSum(t, j);
    ScaleNext(j);
    ScalePos(i - t);
    ScalePos(t);
    ScalePos(j);
    MulLe(y, Scale(t + 1), Scale(i - t));
    MulPos(y, Scale(j));
    MulAssoc(y, BASE, Scale(j));
    MulComm(y, BASE);
    MulAssoc(BASE, y, Scale(j));
    BelowBase(Val(xs), Shifted(ys, i, t));
  }

  lemma BelowBase(x: nat, dd: int)
    requires dd > 0 && x < BASE * dd
    ensures 0 <= x / dd < BASE && (x / dd) * dd <= x
  {
    DivModDef(x, dd);
    if x / dd < 0 { MulLe(x / dd, -1, dd); }
    if x / dd >= BASE { MulLe(BASE, x / dd, dd); }
  }

  /** The first estimate of a digit. */
  method FirstGuess(X: Mpi, Y: Mpi, i: nat, t: nat) returns (q: Limb)
    requires Ready(X.p[..], Y.p[..], i, t)
    ensures X.Abs() / Shifted(Y.p[..], i, t) <= q
  {
    hide Val, Scale, Ready, Shifted;
    ghost var xs, ys := X.p[..], Y.p[..];
    GuessFacts(xs, ys, i, t);
    if X.p[i] >= Y.p[t] {
      q := BASE - 1;
    } else {
      var r;
      q, r := IntDivInt(X.p[i], X.p[i - 1], Y.p[t]);
    }
  }

  lemma GuessFacts(xs: seq<Limb>, ys: seq<Limb>, i: nat, t: nat)
    requires Ready(xs, ys, i, t)
    ensures t < i < |xs| && t < |ys| && ys[t] > 0
    ensures 0 <= Val(xs) / Shifted(ys, i, t) < BASE
    ensures Val(xs) / Shifted(ys, i, t) <= (xs[i] * BASE + xs[i - 1]) / ys[t]
  {
    hide Val, Scale;
    ReadyBounds(xs, ys, i, t);
    TopLimbOf(ys, t);
    var w := [xs[i - 1], xs[i]];
    TopPair(xs, i, w);
    EstimateHigh(Val(xs), Val(ys), Val(xs) / Shifted(ys, i, t), Shifted(ys, i, t), Val(w), ys[t], Scale(t), Scale(i - t - 1), Val(ys[..t]));
  }

  lemma TopPair(xs: seq<Limb>, i: nat, w: seq<Limb>)
    requires 0 < i < |xs| && Val(xs) < Scale(i + 1) && w == [xs[i - 1], xs[i]]
    ensures Val(xs) < (Val(w) + 1) * Scale(i - 1)
    ensures Val(w) == xs[i] * BASE + xs[i - 1]
  {
    hide *;
    var u := xs[..i + 1];
    TopZeros(xs, i + 1);
    assert u[i - 1..] == w;
    ValSplit(u, i - 1);
    ValBound(u[..i - 1]);
    MulDist(Scale(i - 1), Val(w), 1);
    assert w == [xs[i - 1]] + [xs[i]];
    ValUnfold(xs[i - 1], [xs[i]]);
    ValOne(xs[i]);
    MulComm(xs[i], BASE);
  }

  /** The three-by-two-limb test accepts the true digit, and nothing above the true digit plus one. */
  lemma TestFacts(xs: seq<Limb>, ys: seq<Limb>, i: nat, t: nat, w3: seq<Limb>, w2: seq<Limb>)
    requires Ready(xs, ys, i, t)
    requires w3 == [if i < 2 then 0 else xs[i - 2], xs[i - 1], xs[i]]
    requires w2 == [if t < 1 then 0 else ys[t - 1], ys[t]]
    ensures Shifted(ys, i, t) > 0
    ensures (Val(xs) / Shifted(ys, i, t)) * Val(w2) <= Val(w3)
    ensures forall q: Limb :: q * Val(w2) <= Val(w3) ==> q <= Val(xs) / Shifted(ys, i, t) + 1
  {
    hide Val, Scale;
    ReadyBounds(xs, ys, i, t);
    TopThree(xs, i, w3);
    TopTwo(ys, t, w2);
    var dd, st, sj := Shifted(ys, i, t), Scale(t), Scale(i - t - 1);
    TestPasses(Val(xs), Val(ys), Val(xs) / dd, dd, Val(w3), Val(w2), st, sj);
    forall q: Limb | q * Val(w2) <= Val(w3)
      ensures q <= Val(xs) / dd + 1
    {
      AtMostOneOver(Val(xs), Val(ys), dd, q, Val(w3), Val(w2), st, sj);
    }
  }

  /** T1 := b * 2^biL + a. */
  method SetTwo(T1: Mpi, a: Limb, b: Limb)
    requires T1.p.Length >= 2
    modifies T1, T1.p
    ensures T1.Ok() && T1.p == old(T1.p) && T1.V() == Val([a, b])
  {
    hide Val, Scale;
    LSet(T1, 0);
    SintParts(0);
    T1.p[0] := a;
    T1.p[1] := b;
    PadTop(T1.p[..], 2);
    assert T1.p[..][..2] == [a, b];
  }

  /** The test of a digit: whether q times the two leading limbs of Y exceeds T2. */
  method TestDigit(Y: Mpi, T1: Mpi, T2: Mpi, t: nat, q: Limb) returns (over: bool)
    requires Y != T1 && T2 != T1 && Y.p != T1.p && T2.p != T1.p && T2.s == 1
    requires T1.p.Length >= 2 && t < Y.p.Length
    modifies T1, T1.p
    ensures T1.Ok() && (T1.p == old(T1.p) || fresh(T1.p)) && T1.p.Length >= 2
    ensures over <==> Val([if t < 1 then 0 else Y.p[t - 1], Y.p[t]]) * q > T2.Abs()
  {
    hide Val, Scale;
    SetTwo(T1, if t < 1 then 0 else Y.p[t - 1], Y.p[t]);
    MulInt(T1, T1, q);
    var c := CmpMpi(T1, T2);
    over := c > 0;
  }

  /** Leaves in z[j] a digit that is right or one too large. */
  method TrialDigit(X: Mpi, Y: Mpi, T1: Mpi, T2: Mpi, z: array<Limb>, i: nat, t: nat)
    requires Disjoint(X, Y, T1, T2, z) && Ready(X.p[..], Y.p[..], i, t) && i - t - 1 < z.Length
    modifies T1, T1.p, T2.p, z
    ensures Disjoint(X, Y, T1, T2, z) && (T1.p == old(T1.p) || fresh(T1.p))
    ensures forall k :: 0 <= k < z.Length && k != i - t - 1 ==> z[k] == old(z[k])
    ensures Shifted(Y.p[..], i, t) > 0
    ensures X.Abs() / Shifted(Y.p[..], i, t) <= z[i - t - 1] <= X.Abs() / Shifted(Y.p[..], i, t) + 1
  {
    hide Val, Scale, Ready, Shifted;
    ghost var xs, ys := X.p[..], Y.p[..];
    GuessFacts(xs, ys, i, t);
    var j := i - t - 1;
    z[j] := FirstGuess(X, Y, i, t);
    LoadThree(T2, X.p, i);
    ghost var w3 := T2.p[..];
    ghost var w2 := [if t < 1 then 0 else ys[t - 1], ys[t]];
    TestFacts(xs, ys, i, t, w3, w2);
    SettleDigit(Y, T1, T2, z, j, t, Val(xs) / Shifted(ys, i, t), Val(w2), Val(w3));
  }

  method LoadThree(T2: Mpi, x: array<Limb>, i: nat)
    requires T2.p.Length == 3 && T2.p != x && 0 < i < x.Length
    modifies T2.p
    ensures T2.p[..] == [if i < 2 then 0 else x[i - 2], x[i - 1], x[i]]
  {
    T2.p[0] := if i < 2 then 0 else x[i - 2];
    T2.p[1] := x[i - 1];
    T2.p[2] := x[i];
  }

  /** The correction loop. The increment before it and the decrement in it wrap around together. */
  method SettleDigit(Y: Mpi, T1: Mpi, T2: Mpi, z: array<Limb>, j: nat, t: nat, ghost d: int, ghost y2: nat, ghost x3: nat)
    requires Y != T1 && T2 != T1 && Y.p != T1.p && T2.p != T1.p && T2.s == 1 && T1.p.Length >= 2 && t < Y.p.Length
    requires z != T1.p && z != Y.p && z != T2.p && j < z.Length && T1.Ok()
    requires y2 == Val([if t < 1 then 0 else Y.p[t - 1], Y.p[t]]) && x3 == T2.Abs()
    requires 0 <= d <= z[j] && d * y2 <= x3
    modifies T1, T1.p, z
    ensures T1.p.Length >= 2 && T1.Ok() && (T1.p == old(T1.p) || fresh(T1.p))
    ensures forall k :: 0 <= k < z.Length && k != j ==> z[k] == old(z[k])
    ensures d <= z[j] && z[j] * y2 <= x3
  {
    hide Val, Scale;
    ghost var q := z[j];
    z[j] := WAdd(z[j], 1);
    while true
      invariant T1.p.Length >= 2 && T1.Ok() && (T1.p == old(T1.p) || fresh(T1.p))
      invariant forall k :: 0 <= k < z.Length && k != j ==> z[k] == old(z[k])
      invariant 0 <= d <= q && z[j] == WAdd(q, 1)
      decreases q
    {
      z[j] := WSub(z[j], 1);
      var over := TestDigit(Y, T1, T2, t, z[j]);
      MulComm(y2, q);
      if !over {
        break;
      }
      TestFails(q, y2, x3, d);
      q := q - 1;
    }
  }

  lemma TestFails(q: nat, y2: nat, x3: nat, d: int)
    requires y2 * q > x3 && d * y2 <= x3 && d <= q && d >= 0
    ensures d <= q - 1
  {}

  /** One step: subtracts the digit's multiple of the divisor and, if that was one too many, adds it back once. */
  method DigitStep(X: Mpi, Y: Mpi, T1: Mpi, T2: Mpi, z: array<Limb>, i: nat, t: nat)
    requires Disjoint(X, Y, T1, T2, z) && Ready(X.p[..], Y.p[..], i, t) && i - t - 1 < z.Length
    requires X.V() >= 0 && Y.V() >= 0
    modifies X, X.p, T1, T1.p, T2.p, z
    ensures Disjoint(X, Y, T1, T2, z) && (T1.p == old(T1.p) || fresh(T1.p)) && (X.p == old(X.p) || fresh(X.p))
    ensures X.p.Length >= old(X.p.Length)
    ensures forall k :: 0 <= k < z.Length && k != i - t - 1 ==> z[k] == old(z[k])
    ensures X.V() >= 0 && X.Abs() < Shifted(Y.p[..], i, t)
    ensures old(X.Abs()) == z[i - t - 1] * Shifted(Y.p[..], i, t) + X.Abs()
  {
    hide Val, Scale, Ready, Shifted;
    ghost var x, ys := X.Abs(), Y.p[..];
    GuessFacts(X.p[..], ys, i, t);
    ghost var dd := Shifted(ys, i, t);
    ShiftedDef(ys, i, t);
    PositiveV(X.s, X.Abs());
    TrialDigit(X, Y, T1, T2, z, i, t);
    var j := i - t - 1;
    Correct(X, Y, T1, z, j, dd, x);
    PositiveV(X.s, X.Abs());
  }

  /** Subtracts the multiple of the divisor, and adds it back once if that was too much. */
  method Correct(X: Mpi, Y: Mpi, T1: Mpi, z: array<Limb>, j: nat, ghost dd: int, ghost x: nat)
    requires X.Ok() && Y.Ok() && T1.Ok() && X != Y && X != T1 && Y != T1 && X.p != Y.p && X.p != T1.p && Y.p != T1.p
    requires z != X.p && z != Y.p && z != T1.p && j < z.Length && T1.p.Length >= 2
    requires dd > 0 && X.V() == x && Y.V() >= 0 && dd == Y.Abs() * Scale(j) && x / dd <= z[j] <= x / dd + 1
    modifies X, X.p, T1, T1.p, z
    ensures X.Ok() && T1.Ok() && (T1.p == old(T1.p) || fresh(T1.p)) && (X.p == old(X.p) || fresh(X.p)) && X.p != T1.p
    ensures X.p.Length >= old(X.p.Length) && T1.p.Length >= old(T1.p.Length)
    ensures forall k :: 0 <= k < z.Length && k != j ==> z[k] == old(z[k])
    ensures 0 <= X.V() < dd && x == z[j] * dd + X.V()
  {
    hide Val, Scale, Signed;
    SubMultiple(X, Y, T1, z[j], j, dd);
    DigitDone(x, dd, z[j], X.V());
    var c := CmpInt(X, 0);
    if c < 0 {
      AddBackOnce(X, Y, T1, j, dd);
      z[j] := WSub(z[j], 1);
    }
  }

  lemma ShiftedDef(ys: seq<Limb>, i: nat, t: nat)
    requires t < i
    ensures Shifted(ys, i, t) == Val(ys) * Scale(i - t - 1)
  {}

  lemma DigitDone(x: nat, dd: int, q: Limb, v: int)
    requires dd > 0 && x / dd <= q <= x / dd + 1 && v == x - q * dd
    ensures v >= 0 ==> v < dd && x == q * dd + v
    ensures v < 0 ==> q > 0 && 0 <= v + dd < dd && x == (q - 1) * dd + (v + dd)
  {
    hide *;
    var d := x / dd;
    DivModDef(x, dd);
    if q == d + 1 { MulDist(dd, d, 1); }
    MulDist(dd, q, 1);
    MulNonNeg(q, dd);
  }

  /** X := X - q * Y * 2^(biL * j). */
  method SubMultiple(X: Mpi, Y: Mpi, T1: Mpi, q: Limb, j: nat, ghost dd: int)
    requires X != Y && X != T1 && Y != T1 && X.p != Y.p && X.p != T1.p && Y.p != T1.p && X.Ok() && Y.Ok() && T1.Ok()
    requires dd == Y.Abs() * Scale(j) && Y.V() >= 0
    modifies X, X.p, T1, T1.p
    ensures X.Ok() && T1.Ok() && (T1.p == old(T1.p) || fresh(T1.p)) && (X.p == old(X.p) || fresh(X.p))
    ensures X.p.Length >= old(X.p.Length) && T1.p.Length >= old(T1.p.Length)
    ensures X.p != T1.p && X.V() == old(X.V()) - q * dd
  {
    hide Val, Scale, Pow, Signed;
    PositiveV(Y.s, Y.Abs());
    MulInt(T1, Y, q);
    MpiShiftL(T1, LIMB_BITS * j);
    ScaleIsPower(j);
    MultipleValue(Y.V(), q, Scale(j));
    SubMpi(X, X, T1);
  }

  lemma MultipleValue(y: int, q: int, p: int)
    ensures (y * q) * p == q * (y * p)
  {}

  /** X := X + Y * 2^(biL * j). */
  method AddBackOnce(X: Mpi, Y: Mpi, T1: Mpi, j: nat, ghost dd: int)
    requires X != Y && X != T1 && Y != T1 && X.p != Y.p && X.p != T1.p && Y.p != T1.p && X.Ok() && Y.Ok() && T1.Ok()
    requires dd == Y.Abs() * Scale(j) && Y.V() >= 0
    modifies X, X.p, T1, T1.p
    ensures X.Ok() && T1.Ok() && (T1.p == old(T1.p) || fresh(T1.p)) && (X.p == old(X.p) || fresh(X.p))
    ensures X.p.Length >= old(X.p.Length) && T1.p.Length >= old(T1.p.Length)
    ensures X.p != T1.p && X.V() == old(X.V()) + dd
  {
    hide Val, Scale, Pow, Signed;
    PositiveV(Y.s, Y.Abs());
    MpiCopy(T1, Y);
    MpiShiftL(T1, LIMB_BITS * j);
    ScaleIsPower(j);
    AddMpi(X, X, T1);
  }

  /** The leading digit, by repeated subtraction of the divisor aligned with the dividend. */
  method TopDigits(X: Mpi, Y: Mpi, z: array<Limb>, n: nat, t: nat)
    requires X != Y && X.p != Y.p && z != X.p && z != Y.p && X.Ok() && Y.Ok()
    requires t <= n < X.p.Length && n - t < z.Length && z[n - t] == 0
    requires Scale(t) <= Y.Abs() && X.Abs() < Scale(n + 1) && X.V() >= 0 && Y.V() >= 0
    modifies X, X.p, Y, Y.p, z
    ensures X.Ok() && Y.Ok() && (X.p == old(X.p) || fresh(X.p)) && (Y.p == old(Y.p) || fresh(Y.p)) && X.p != Y.p
    ensures X.p.Length >= old(X.p.Length) && Y.p.Length >= old(Y.p.Length) && Y.V() == old(Y.V())
    ensures forall k :: 0 <= k < z.Length && k != n - t ==> z[k] == old(z[k])
    ensures 0 <= X.V() < Y.V() * Scale(n - t)
    ensures old(X.V()) == z[n - t] * (Y.V() * Scale(n - t)) + X.V()
  {
    hide Val, Scale, Pow, Signed;
    ghost var x, y := X.V(), Y.V();
    PositiveV(X.s, X.Abs());
    PositiveV(Y.s, Y.Abs());
    var j := n - t;
    ScaleIsPower(j);
    ghost var dd := y * Scale(j);
    AlignedBound(x, y, n, t, dd);
    MpiShiftL(Y, LIMB_BITS * j);
    CountTop(X, Y, z, j, dd);
    MpiShiftR(Y, LIMB_BITS * j);
    ScalePos(j);
    DivModUnique(dd, Scale(j), y, 0);
    SignedUp(Y.s, y, Scale(j));
  }

  lemma SignedUp(s: int, y: nat, p: nat)
    requires p > 0
    ensures 0 <= y * p && (Signed(s, y * p) == y * p ==> Signed(s, y) == y)
  {
    MulNonNeg(y, p);
    if y > 0 { MulPos(y, p); }
  }

  /** The loop that counts how often the aligned divisor fits. */
  method CountTop(X: Mpi, Y: Mpi, z: array<Limb>, j: nat, ghost dd: int)
    requires X != Y && X.p != Y.p && z != X.p && z != Y.p && X.Ok() && Y.Ok()
    requires j < z.Length && z[j] == 0 && Y.V() == dd > 0 && 0 <= X.V() < BASE * dd
    modifies X, X.p, z
    ensures X.Ok() && (X.p == old(X.p) || fresh(X.p)) && X.p.Length >= old(X.p.Length)
    ensures forall k :: 0 <= k < z.Length && k != j ==> z[k] == old(z[k])
    ensures 0 <= X.V() < dd && old(X.V()) == z[j] * dd + X.V()
  {
    hide Val, Signed;
    ghost var x := X.V();
    while true
      invariant X.Ok() && (X.p == old(X.p) || fresh(X.p)) && X.p != Y.p && z != X.p && X.p.Length >= old(X.p.Length)
      invariant Y.Ok() && Y.V() == dd
      invariant forall k :: 0 <= k < z.Length && k != j ==> z[k] == old(z[k])
      invariant 0 <= X.V() && x == z[j] * dd + X.V()
      decreases X.V()
    {
      var c := CmpMpi(X, Y);
      if c < 0 {
        break;
      }
      SmallCount(x, dd, z[j], X.V());
      z[j] := WAdd(z[j], 1);
      SubMpi(X, X, Y);
    }
  }

  /** The aligned divisor is positive and goes into the dividend fewer than 2^biL times. */
  lemma AlignedBound(x: nat, y: nat, n: nat, t: nat, dd: int)
    requires t <= n && Scale(t) <= y && x < Scale(n + 1) && dd == y * Scale(n - t)
    ensures dd > 0 && x < BASE * dd
  {
    hide Scale;
    ScalePos(t);
    ScalePos(n - t);
    ScaleSum(t, n - t);
    ScaleNext(n);
    MulLe(Scale(t), y, Scale(n - t));
    MulLe(Scale(n), dd, BASE);
    MulPos(y, Scale(n - t));
  }

  lemma SmallCount(x: nat, dd: int, q: Limb, r: int)
    requires dd > 0 && x < BASE * dd && x == q * dd + r && r >= dd
    ensures WAdd(q, 1) == q + 1 && x == (q + 1) * dd + (r - dd)
  {
    MulDist(dd, q, 1);
    if q == BASE - 1 { MulDist(dd, q, 1); }
  }

  /** The digits below the leading one. The dividend stays below the divisor aligned with the next digit. */
  method DivLoop(X: Mpi, Y: Mpi, T1: Mpi, T2: Mpi, z: array<Limb>, n: nat, t: nat)
    requires Disjoint(X, Y, T1, T2, z) && t <= n < X.p.Length && t < Y.p.Length && n - t < z.Length
    requires Scale(t) <= Y.Abs() < Scale(t + 1) && Y.V() >= 0 && 0 <= X.V() < Y.V() * Scale(n - t)
    requires forall k :: 0 <= k < n - t ==> z[k] == 0
    modifies X, X.p, T1, T1.p, T2.p, z
    ensures Disjoint(X, Y, T1, T2, z) && (X.p == old(X.p) || fresh(X.p))
    ensures 0 <= X.V() < Y.V() && Val(z[..]) * Y.V() + X.V() == old(Val(z[..]) * Y.V() + X.V())
  {
    hide Val, Scale, Ready, Shifted, Signed;
    ghost var y, ys, sum := Y.V(), Y.p[..], Val(z[..]) * Y.V() + X.V();
    PositiveV(Y.s, Y.Abs());
    for i := n + 1 downto t + 1
      invariant Disjoint(X, Y, T1, T2, z) && (X.p == old(X.p) || fresh(X.p)) && (T1.p == old(T1.p) || fresh(T1.p))
      invariant n < X.p.Length && Y.V() == y && Y.p[..] == ys
      invariant 0 <= X.V() < y * Scale(i - 1 - t)
      invariant forall k :: 0 <= k < i - 1 - t ==> z[k] == 0
      invariant Val(z[..]) * y + X.V() == sum
    {
      PositiveV(X.s, X.Abs());
      ReadyNow(X.p[..], ys, i, t);
      ghost var zs, x := z[..], X.V();
      DigitStep(X, Y, T1, T2, z, i, t);
      PositiveV(X.s, X.Abs());
      ShiftedDef(ys, i, t);
      ValUpdate(zs, z[..], i - t - 1);
      DigitAdds(Val(zs), Val(z[..]), zs[i - t - 1], z[i - t - 1], Scale(i - t - 1), y, x, X.V(), sum);
    }
    ScaleZero();
  }

  lemma ReadyNow(xs: seq<Limb>, ys: seq<Limb>, i: nat, t: nat)
    requires t < i < |xs| && t < |ys| && Scale(t) <= Val(ys) < Scale(t + 1) && Val(xs) < Val(ys) * Scale(i - t)
    ensures Ready(xs, ys, i, t)
  {}

  lemma DigitAdds(v: int, w: int, q0: int, q: int, s: int, y: int, x: int, x': int, sum: int)
    requires q0 == 0 && w == v + s * q - s * q0 && x == q * (y * s) + x' && v * y + x == sum
    ensures w * y + x' == sum
  {
    MulDist(y, v, s * q);
    MulAssoc(q, y, s);
    MulComm(q * y, s);
    MulAssoc(s, q, y);
  }

  // ----- normalisation -----

  /** Shifts both operands so that the divisor's top limb has exactly biL - 1 bits. */
  method Normalise(X: Mpi, Y: Mpi) returns (k: nat)
    requires X != Y && X.p != Y.p && X.Ok() && Y.Ok() && X.p.Length > 0 && Y.p.Length > 0
    requires Y.Abs() > 0 && (Y.p.Length == 1 || Scale(Y.p.Length - 1) <= Y.Abs())
    modifies X, X.p, Y, Y.p
    ensures X.Ok() && Y.Ok() && (X.p == old(X.p) || fresh(X.p)) && (Y.p == old(Y.p) || fresh(Y.p)) && X.p != Y.p
    ensures X.V() == old(X.V()) * Pow(2, k) && Y.V() == old(Y.V()) * Pow(2, k)
    ensures 0 < X.p.Length <= old(X.p.Length) + 1 && Y.p.Length > 0
    ensures Scale(Y.p.Length) <= 4 * Y.Abs() && 2 * Y.Abs() < Scale(Y.p.Length) && Scale(Y.p.Length - 1) <= Y.Abs()
  {
    hide Val, Scale, Pow, Signed, BitLen, BitsToLimbs;
    ghost var y, m := Y.Abs(), Y.p.Length;
    var bits := Bitlen(Y);
    ValBound(Y.p[..]);
    BitsOf(y, m, bits);
    LimbsBits(X.p[..]);
    k := bits % LIMB_BITS;
    if k < LIMB_BITS - 1 {
      k := LIMB_BITS - 1 - k;
      EnoughLimbs2(BitLen(X.Abs()), X.p.Length, k);
      MpiShiftL(X, k);
      MpiShiftL(Y, k);
    } else {
      k := 0;
      PowZero();
    }
    NormalBits(y, m, bits, k, Y.p.Length);
  }

  /** The number of limbs and the number of bits of a number without leading zero limbs. */
  lemma BitsOf(y: nat, m: nat, bits: nat)
    requires bits == BitLen(y) && 0 < y < Scale(m) && m > 0 && (m == 1 || Scale(m - 1) <= y)
    ensures (m - 1) * LIMB_BITS < bits <= m * LIMB_BITS
  {
    hide Scale, BitLen, Pow;
    ScaleIsPower(m);
    ScaleIsPower(m - 1);
    BitLenBound(y, LIMB_BITS * m);
    BitLenBound(y, LIMB_BITS * (m - 1));
    BitLenBound(y, 0);
    PowZero();
  }

  lemma EnoughLimbs2(bits: nat, n: nat, k: nat)
    requires bits <= n * LIMB_BITS && k < LIMB_BITS
    ensures BitsToLimbs(bits + k) <= n + 1
  {}

  lemma NormalBits(y: nat, m: nat, bits: nat, k: nat, l: nat)
    requires bits == BitLen(y) && y > 0 && m > 0 && (m - 1) * LIMB_BITS < bits <= m * LIMB_BITS
    requires k == if bits % LIMB_BITS < LIMB_BITS - 1 then LIMB_BITS - 1 - bits % LIMB_BITS else 0
    requires l == if k == 0 || BitsToLimbs(bits + k) < m then m else BitsToLimbs(bits + k)
    ensures l > 0 && Scale(l) <= 4 * (y * Pow(2, k)) && 2 * (y * Pow(2, k)) < Scale(l) && Scale(l - 1) <= y * Pow(2, k)
  {
    hide Scale, BitLen, Pow;
    LimbCount(m, bits, k, l);
    var e := bits - 1;
    TopBitScaled(y, e, k);
    PowNext(e + k);
    PowNext(e + k + 1);
    ScaleIsPower(l);
    ScaleIsPower(l - 1);
    PowMono(2, LIMB_BITS * (l - 1), e + k);
  }

  lemma TopBitScaled(y: nat, e: nat, k: nat)
    requires BitLen(y) == e + 1
    ensures Pow(2, e + k) <= y * Pow(2, k) < 2 * Pow(2, e + k)
  {
    hide BitLen, Pow;
    var p := Pow(2, k);
    BitLenBound(y, e + 1);
    BitLenBound(y, e);
    PowPos(2, k);
    PowAdd(2, e, k);
    PowNext(e);
    MulLe(Pow(2, e), y, p);
    MulLt(y, 2 * Pow(2, e), p);
    MulAssoc(2, Pow(2, e), p);
  }

  lemma LimbCount(m: nat, bits: nat, k: nat, l: nat)
    requires m > 0 && (m - 1) * LIMB_BITS < bits <= m * LIMB_BITS
    requires k == if bits % LIMB_BITS < LIMB_BITS - 1 then LIMB_BITS - 1 - bits % LIMB_BITS else 0
    requires l == if k == 0 || BitsToLimbs(bits + k) < m then m else BitsToLimbs(bits + k)
    ensures l > 0 && bits + k + 1 == LIMB_BITS * l && LIMB_BITS * (l - 1) <= bits - 1 + k
  {
    var L, q, r := LIMB_BITS, bits / LIMB_BITS, bits % LIMB_BITS;
    DivModDef(bits, L);
    TopLimbNumber(m, q, r, L);
    MulDist(L, q, 1);
    if k > 0 {
      DivModUnique(bits + k, L, q, L - 1);
    }
    MulDist(L, l - 1, 1);
  }

  /** The number of limbs a number of q * L + r bits has. */
  lemma TopLimbNumber(m: nat, q: int, r: int, L: nat)
    requires m > 0 && L > 0 && 0 <= r < L && (m - 1) * L < q * L + r <= m * L
    ensures m == if r == 0 then q else q + 1
  {
    MulDist(L, m, 1);
    MulDist(L, q, 1);
    MulDist(L, m - 1, 1);
    if m < q { MulLe(m + 1, q, L); MulDist(L, m, 1); }
    if m > q + 1 { MulLe(q + 1, m - 1, L); }
    if m == q + 1 && r == 0 { assert false; }
  }

  // ----- the whole division -----

  /** The division of the magnitudes, for |A| >= |B| > 0: Z is the quotient and X >> k the remainder. */
  method DivMagnitudes(A: Mpi, B: Mpi) returns (Z: Mpi, X: Mpi, k: nat)
    requires A.Ok() && B.Ok() && A.Abs() >= B.Abs() > 0
    ensures fresh(Z) && fresh(X) && fresh(Z.p) && fresh(X.p) && Z != X && Z.p != X.p && Z.Ok() && X.Ok()
    ensures Z.s == 1 && Z.Abs() == A.Abs() / B.Abs()
    ensures Pow(2, k) > 0 && X.Abs() / Pow(2, k) == A.Abs() % B.Abs()
  {
    hide Val, Scale, Pow, Signed;
    var Y;
    X, Y := CopyOperands(A, B);
    PositiveSign(X.Abs());
    PositiveSign(Y.Abs());
    Z, k := DivOperands(X, Y, A.p.Length);
    PositiveV(X.s, X.Abs());
    PowPos(2, k);
    ScaledUp(A.Abs(), B.Abs(), Pow(2, k));
    Descale(A.Abs(), B.Abs(), Pow(2, k), A.Abs() * Pow(2, k), B.Abs() * Pow(2, k), Z.Abs(), X.Abs());
  }

  lemma PositiveSign(a: nat)
    ensures Signed(1, a) == a
  {}

  /** Normalises and divides; X and Y are the copies of the operands, limbs the size of the dividend. */
  method DivOperands(X: Mpi, Y: Mpi, limbs: nat) returns (Z: Mpi, k: nat)
    requires X != Y && X.p != Y.p && X.Ok() && Y.Ok() && 0 < X.p.Length <= limbs && Y.p.Length > 0
    requires X.V() >= Y.V() > 0 && (Y.p.Length == 1 || Scale(Y.p.Length - 1) <= Y.Abs())
    modifies X, X.p, Y, Y.p
    ensures fresh(Z) && fresh(Z.p) && Z.Ok() && X.Ok() && (X.p == old(X.p) || fresh(X.p)) && Z.p != X.p && Z.s == 1
    ensures Pow(2, k) > 0 && 0 <= X.V() < old(Y.V()) * Pow(2, k)
    ensures old(X.V()) * Pow(2, k) == Z.Abs() * (old(Y.V()) * Pow(2, k)) + X.V()
  {
    hide Val, Scale, Pow, Signed;
    PositiveV(Y.s, Y.Abs());
    ghost var x, y := X.V(), Y.V();
    k := Normalise(X, Y);
    PowPos(2, k);
    ScaledUp(x, y, Pow(2, k));
    PositiveV(X.s, X.Abs());
    PositiveV(Y.s, Y.Abs());
    var n, t := X.p.Length - 1, Y.p.Length - 1;
    Room(X.p[..], Y.Abs(), X.Abs(), n, t);
    var T1, T2;
    Z, T1, T2 := Workspace(limbs + 2);
    DivScaled(X, Y, T1, T2, Z.p, n, t);
  }

  /** Z, T1 and the three-limb T2. */
  method Workspace(limbs: nat) returns (Z: Mpi, T1: Mpi, T2: Mpi)
    requires limbs > 0
    ensures fresh(Z) && fresh(Z.p) && fresh(T1) && fresh(T1.p) && fresh(T2) && fresh(T2.p)
    ensures Z != T1 && Z != T2 && T1 != T2 && Z.p != T1.p && Z.p != T2.p && T1.p != T2.p
    ensures Z.s == 1 && T1.s == 1 && T2.s == 1 && Z.p.Length == limbs && T1.p.Length == limbs && T2.p.Length == 3
    ensures forall k :: 0 <= k < Z.p.Length ==> Z.p[k] == 0
  {
    Z := new Mpi.Init();
    T1 := new Mpi.Init();
    T2 := new Mpi.Init();
    T2.p := new Limb[3];
    Grow(Z, limbs);
    LSet(Z, 0);
    SintParts(0);
    Grow(T1, limbs);
  }

  lemma ScaledUp(a: nat, b: nat, p: nat)
    requires a >= b > 0 && p > 0
    ensures 0 < b * p <= a * p
  {
    MulLe(b, a, p);
    MulPos(b, p);
  }

  lemma Room(xs: seq<Limb>, y: nat, x: nat, n: nat, t: nat)
    requires |xs| == n + 1 && x == Val(xs) && Scale(t) <= y <= x
    ensures t <= n && x < Scale(n + 1)
  {
    hide Val, Scale;
    ValBound(xs);
    if t > n { ScaleMono(n + 1, t); }
  }

  /** |A| and |B|. */
  method CopyOperands(A: Mpi, B: Mpi) returns (X: Mpi, Y: Mpi)
    requires A.Ok() && B.Ok() && A.Abs() >= B.Abs() > 0
    ensures fresh(X) && fresh(X.p) && fresh(Y) && fresh(Y.p) && X != Y && X.p != Y.p && X.s == 1 && Y.s == 1
    ensures X.Abs() == A.Abs() && Y.Abs() == B.Abs() && 0 < X.p.Length <= A.p.Length
    ensures Y.p.Length == 1 || (Y.p.Length > 0 && Scale(Y.p.Length - 1) <= Y.Abs())
  {
    hide Val, Scale, Signed;
    NonzeroHasLimbs(A.p[..]);
    NonzeroHasLimbs(B.p[..]);
    X := new Mpi.Init();
    Y := new Mpi.Init();
    MpiCopy(X, A);
    MpiCopy(Y, B);
    X.s, Y.s := 1, 1;
  }

  lemma NonzeroHasLimbs(s: seq<Limb>)
    requires Val(s) > 0
    ensures |s| > 0
  {}

  /** Division once the operands are normalised. */
  method DivScaled(X: Mpi, Y: Mpi, T1: Mpi, T2: Mpi, z: array<Limb>, n: nat, t: nat)
    requires Disjoint(X, Y, T1, T2, z) && t <= n < X.p.Length && Y.p.Length == t + 1 && n - t < z.Length
    requires Scale(t) <= Y.Abs() && X.Abs() < Scale(n + 1) && X.V() >= 0 && Y.V() >= 0
    requires forall k :: 0 <= k < z.Length ==> z[k] == 0
    modifies X, X.p, Y, Y.p, T1, T1.p, T2.p, z
    ensures X.Ok() && (X.p == old(X.p) || fresh(X.p))
    ensures 0 <= X.V() < old(Y.V()) && old(X.V()) == Val(z[..]) * old(Y.V()) + X.V()
  {
    hide Val, Scale, Signed;
    ghost var x, y, zs := X.V(), Y.V(), z[..];
    ValBound(Y.p[..]);
    PositiveV(Y.s, Y.Abs());
    ValZero(zs);
    TopDigits(X, Y, z, n, t);
    ValUpdate(zs, z[..], n - t);
    MultipleValue(z[n - t], Scale(n - t), y);
    TopAdds(Val(z[..]), z[n - t], Scale(n - t), y, x, X.V());
    PositiveV(Y.s, Y.Abs());
    DivLoop(X, Y, T1, T2, z, n, t);
  }

  lemma TopAdds(v: int, q: int, s: int, y: int, x: int, x': int)
    requires v == s * q && x == q * (y * s) + x'
    ensures v * y + x' == x
  {
    MulAssoc(q, y, s);
    MulComm(q * y, s);
    MulAssoc(s, q, y);
  }

  /** Q and R := quotient and remainder of A by B, rounding towards zero. Either may be null. R may alias an
      operand. The operands' signs are read after Q is written, so an operand that Q aliases counts as
      positive, and the remainder is then formed from what Q holds. */
  method DivMpi(Q: Mpi?, R: Mpi?, A: Mpi, B: Mpi) returns (ret: Ret)
    requires A.Ok() && B.Ok()
    requires Q != null ==> Q.Ok() && Separate(Q, A) && Separate(Q, B)
    requires R != null ==> R.Ok() && Separate(R, A) && Separate(R, B)
    requires Q != null && R != null ==> Q != R && Q.p != R.p
    modifies if Q == null then {} else {Q, Q.p}, if R == null then {} else {R, R.p}
    ensures ret == if old(B.V()) == 0 then DivisionByZero else Success
    ensures Q != null ==> Q.Ok() && (Q.p == old(Q.p) || fresh(Q.p))
    ensures R != null ==> R.Ok() && (R.p == old(R.p) || fresh(R.p))
    ensures Q != null && R != null ==> Q.p != R.p
    ensures ret == Success && Q != null ==> Q.V() == TQuot(SeenAs(old(A.V()), Q == A), SeenAs(old(B.V()), Q == B))
    ensures ret == Success && R != null ==> R.V() == RemSeen(old(A.V()), old(B.V()), Q == A)
    ensures ret == Success && Q != null ==> Q.Normal()
    ensures ret == Success && R != null && old(A.Normal() && R.Normal()) ==> R.Normal()
  {
    hide Val, Scale, Pow, Signed, TQuot, TRem, SeenAs, RemSeen;
    var c := CmpInt(B, 0);
    if c == 0 {
      return DivisionByZero;
    }
    SeenNonzero(B.V(), Q == B);
    Magnitudes(A.s, A.Abs(), B.s, B.Abs());
    var d := CmpAbs(A, B);
    if d < 0 {
      DivSmaller(Q, R, A, B);
    } else {
      DivLarger(Q, R, A, B);
    }
    ret := Success;
  }

  lemma SeenNonzero(x: int, overwritten: bool)
    ensures x != 0 ==> SeenAs(x, overwritten) != 0
  {}

  lemma Magnitudes(s: int, x: nat, t: int, y: nat)
    requires (s == 1 || s == -1) && (t == 1 || t == -1)
    ensures Mag(Signed(s, x)) == x && Mag(Signed(t, y)) == y
  {}

  /** |A| < |B|: the quotient is zero and the remainder is A. */
  method DivSmaller(Q: Mpi?, R: Mpi?, A: Mpi, B: Mpi)
    requires A.Ok() && B.Ok() && A.Abs() < B.Abs() && B.V() != 0 && SeenAs(B.V(), Q == B) != 0
    requires Q != null ==> Q.Ok() && Separate(Q, A) && Separate(Q, B)
    requires R != null ==> R.Ok() && Separate(R, A) && Separate(R, B)
    requires Q != null && R != null ==> Q != R && Q.p != R.p
    modifies if Q == null then {} else {Q, Q.p}, if R == null then {} else {R, R.p}
    ensures Q != null ==> Q.Ok() && (Q.p == old(Q.p) || fresh(Q.p))
    ensures R != null ==> R.Ok() && (R.p == old(R.p) || fresh(R.p))
    ensures Q != null && R != null ==> Q.p != R.p
    ensures Q != null ==> Q.V() == TQuot(SeenAs(old(A.V()), Q == A), SeenAs(old(B.V()), Q == B))
    ensures R != null ==> R.V() == RemSeen(old(A.V()), old(B.V()), Q == A)
    ensures Q != null ==> Q.Normal()
    ensures R != null && old(A.Normal() && R.Normal()) ==> R.Normal()
  {
    hide Val, Scale, Pow, TQuot, TRem;
    ghost var a, b := A.V(), B.V();
    SmallDivision(a, b);
    SmallDivision(SeenAs(a, Q == A), SeenAs(b, Q == B));
    if Q != null {
      LSet(Q, 0);
    }
    if R != null {
      MpiCopy(R, A);
    }
  }

  /** |A| >= |B|: the long division of the magnitudes, then the signs. */
  method DivLarger(Q: Mpi?, R: Mpi?, A: Mpi, B: Mpi)
    requires A.Ok() && B.Ok() && A.Abs() >= B.Abs() > 0 && B.V() != 0 && SeenAs(B.V(), Q == B) != 0
    requires Q != null ==> Q.Ok() && Separate(Q, A) && Separate(Q, B)
    requires R != null ==> R.Ok() && Separate(R, A) && Separate(R, B)
    requires Q != null && R != null ==> Q != R && Q.p != R.p
    modifies if Q == null then {} else {Q, Q.p}, if R == null then {} else {R, R.p}
    ensures Q != null ==> Q.Ok() && (Q.p == old(Q.p) || fresh(Q.p))
    ensures R != null ==> R.Ok() && (R.p == old(R.p) || fresh(R.p))
    ensures Q != null && R != null ==> Q.p != R.p
    ensures Q != null ==> Q.V() == TQuot(SeenAs(old(A.V()), Q == A), SeenAs(old(B.V()), Q == B))
    ensures R != null ==> R.V() == RemSeen(old(A.V()), old(B.V()), Q == A)
    ensures Q != null ==> Q.Normal()
    ensures R != null && old(A.Normal() && R.Normal()) ==> R.Normal()
  {
    hide Val, Scale, Pow, Signed, TQuot, TRem, SeenAs, RemSeen;
    var Z, X, k := DivMagnitudes(A, B);
    SeenRemainder(A.s, A.Abs(), Q == A, B.s, B.Abs(), Q == B);
    SeenDivision(A.s, A.Abs(), Q == A, B.s, B.Abs(), Q == B);
    if Q != null {
      StoreQuotient(Q, Z, A, B);
    }
    if R != null {
      StoreRemainder(R, X, k, A.s);
    }
  }

  lemma SeenDivision(s: int, x: nat, a: bool, t: int, y: nat, b: bool)
    requires (s == 1 || s == -1) && (t == 1 || t == -1) && x >= y > 0
    ensures SeenAs(Signed(t, y), b) != 0 && 0 < x / y
    ensures Signed((if a then 1 else s) * (if b then 1 else t), x / y) == TQuot(SeenAs(Signed(s, x), a), SeenAs(Signed(t, y), b))
  {
    hide TQuot;
    SignedDivision(if a then 1 else s, x, if b then 1 else t, y);
    DivModDef(x, y);
    if x / y <= 0 { MulLe(x / y, 0, y); }
  }

  lemma SeenRemainder(s: int, x: nat, a: bool, t: int, y: nat, b: bool)
    requires (s == 1 || s == -1) && (t == 1 || t == -1) && x >= y > 0
    requires a && b ==> x == y
    ensures Signed(t, y) != 0 && 0 <= x % y
    ensures Signed(if a then (if b then 1 else t) else s, x % y) == RemSeen(Signed(s, x), Signed(t, y), a)
  {
    DivModDef(x, y);
    if x == y { DivModUnique(x, y, 1, 0); }
  }

  /** The sign is formed from the operands as they are after the copy. */
  method StoreQuotient(Q: Mpi, Z: Mpi, A: Mpi, B: Mpi)
    requires Q.Ok() && A.Ok() && B.Ok() && Z.s == 1 && Z.Abs() > 0 && Z != Q && Z.p != Q.p && Z != A && Z != B
    modifies Q, Q.p
    ensures Q.Ok() && (Q.p == old(Q.p) || fresh(Q.p))
    ensures Q.s == (if Q == A then 1 else old(A.s)) * (if Q == B then 1 else old(B.s)) && Q.Abs() == old(Z.Abs())
    ensures Q.V() == Signed((if Q == A then 1 else old(A.s)) * (if Q == B then 1 else old(B.s)), old(Z.Abs()))
    ensures Q.Normal()
  {
    hide Val;
    MpiCopy(Q, Z);
    Q.s := A.s * B.s;
  }

  /** What division takes an operand to be once the quotient has been written over it. */
  function SeenAs(x: int, overwritten: bool): int
  {
    if overwritten then Mag(x) else x
  }

  /** The remainder when the quotient has been written over the dividend: of the quotient's sign, and nothing at all
      when the quotient is zero. */
  function RemSeen(a: int, b: int, overwritten: bool): int
    requires b != 0
  {
    if !overwritten then TRem(a, b)
    else if Mag(a) < Mag(b) then 0
    else if b < 0 then -(Mag(a) % Mag(b)) else Mag(a) % Mag(b)
  }

  /** With the quotient written over the dividend the remainder is right exactly when it is zero, or the quotient is
      not zero and the operands have the same sign. */
  lemma RemainderIsRightIff(a: int, b: int)
    requires b != 0
    ensures RemSeen(a, b, true) == TRem(a, b) <==> TRem(a, b) == 0 || (Mag(a) >= Mag(b) && (a < 0) == (b < 0))
  {
    if Mag(a) < Mag(b) { SmallMod(Mag(a), Mag(b)); }
  }

  /** Writing the quotient over an operand is right exactly when that operand is not negative or the quotient is zero. */
  lemma OverwritingIsRightIff(a: int, b: int)
    requires b != 0
    ensures TQuot(SeenAs(a, true), b) == TQuot(a, b) <==> a >= 0 || Mag(a) < Mag(b)
    ensures TQuot(a, SeenAs(b, true)) == TQuot(a, b) <==> b > 0 || Mag(a) < Mag(b)
  {
    var x, y := Mag(a), Mag(b);
    DivModDef(x, y);
    if x < y {
      SmallMod(x, y);
    } else if x / y <= 0 {
      MulLe(x / y, 0, y);
    }
  }

  /** -7 divided by 2 in place gives 3 instead of -3. */
  lemma OverwrittenDividend()
    ensures TQuot(SeenAs(-7, true), 2) == 3 && TQuot(-7, 2) == -3
  {}

  /** Undoes the normalisation of the remainder and gives it the sign of the dividend. */
  method StoreRemainder(R: Mpi, X: Mpi, k: nat, s: int)
    requires R.Ok() && X != R && X.p != R.p && (s == 1 || s == -1)
    modifies R, R.p, X, X.p
    ensures R.Ok() && (R.p == old(R.p) || fresh(R.p))
    ensures Pow(2, k) > 0 && 0 <= old(X.Abs()) / Pow(2, k) && R.V() == Signed(s, old(X.Abs()) / Pow(2, k))
    ensures R.Normal()
  {
    hide Val, Pow;
    MpiShiftR(X, k);
    X.s := s;
    MpiCopy(R, X);
    var e := CmpInt(R, 0);
    if e == 0 {
      R.s := 1;
    }
  }

  lemma SmallDivision(a: int, b: int)
    requires b != 0 && Mag(a) < Mag(b)
    ensures TQuot(a, b) == 0 && TRem(a, b) == a
  {
    SmallMod(Mag(a), Mag(b));
  }

  lemma SignedDivision(s: int, x: nat, t: int, y: nat)
    requires (s == 1 || s == -1) && (t == 1 || t == -1) && x >= y > 0
    ensures Signed(t, y) != 0 && 0 <= x / y && 0 <= x % y
    ensures (s * t == 1 || s * t == -1) && Signed(s * t, x / y) == TQuot(Signed(s, x), Signed(t, y))
    ensures Signed(s, x % y) == TRem(Signed(s, x), Signed(t, y))
  {
    DivModDef(x, y);
    if x / y < 0 { MulLe(x / y, -1, y); }
  }
}
