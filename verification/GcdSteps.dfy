/** The arithmetic of one iteration of the constant-time gcd loop, and why a fixed
    number of iterations is enough. */
module GcdSteps {
  import opened Arith
  import opened NumberTheory

  datatype Pair = Pair(u: nat, v: nat)

  /** Out of u, v and v - u, which one is kept. */
  function Kept(u: nat, v: nat): nat
    requires u <= v
  {
    if u % 2 == 1 && v % 2 == 1 then u else v - u
  }

  /** Out of u, v and v - u, which one is shifted; it is even when the gcd is odd. */
  function Halved(u: nat, v: nat): nat
    requires u <= v
  {
    if u % 2 == 1 && v % 2 == 1 then v - u else if u % 2 == 1 then v else u
  }

  function Ordered(x: nat, y: nat): (p: Pair)
    ensures p.u <= p.v
  {
    if y < x then Pair(y, x) else Pair(x, y)
  }

  /** One iteration of the loop. */
  function Step(p: Pair): (p': Pair)
    requires p.u <= p.v
    ensures p'.u <= p'.v
  {
    Ordered(Kept(p.u, p.v), Halved(p.u, p.v) / 2)
  }

  function Steps(p: Pair, n: nat): (p': Pair)
    requires p.u <= p.v
    ensures p'.u <= p'.v
  {
    if n == 0 then p else Step(Steps(p, n - 1))
  }

  ghost predicate Reducible(p: Pair)
  {
    p.u <= p.v && Gcd(p.u, p.v) % 2 == 1
  }

  lemma NotBothEven(p: Pair)
    requires Reducible(p)
    ensures p.u % 2 == 1 || p.v % 2 == 1
    ensures Halved(p.u, p.v) % 2 == 0
  {
    hide Gcd;
    if p.u % 2 == 0 && p.v % 2 == 0 {
      GcdGreatest(2, p.u, p.v);
    }
  }

  /** An iteration keeps the gcd. */
  lemma StepGcd(p: Pair)
    requires Reducible(p)
    ensures Gcd(Step(p).u, Step(p).v) == Gcd(p.u, p.v)
    ensures Reducible(Step(p))
  {
    hide Gcd;
    NotBothEven(p);
    var u, v := p.u, p.v;
    GcdSub(u, v);
    if u % 2 == 1 && v % 2 == 1 {
      GcdHalf(u, (v - u) / 2);
    } else if u % 2 == 1 {
      GcdSub(u, v);
      KeepDifference(u, v);
      GcdHalf(v - u, v / 2);
    } else {
      GcdSym(u, v - u);
      GcdHalf(v - u, u / 2);
    }
    GcdSym(Kept(u, v), Halved(u, v) / 2);
  }

  lemma KeepDifference(u: nat, v: nat)
    requires u <= v
    ensures Gcd(u, v) == Gcd(v - u, v)
  {
    hide Gcd;
    GcdSub(u, v);
    GcdSub(v - u, v);
    GcdSym(u, v - u);
  }

  // ----- the iteration count -----

  function Min(x: nat, y: nat): nat
  {
    if x <= y then x else y
  }

  function Dist(x: nat, y: nat): nat
  {
    if x <= y then y - x else x - y
  }

  /** Every iteration decreases this, so it bounds the number still needed. */
  function Potential(u: nat, v: nat): nat
    requires u <= v
  {
    var d := v - u;
    if u == 0 then 0
    else if d == 0 then 1
    else if d == u then 2
    else BitLen(Min(u, d)) + BitLen(Dist(u, d))
  }

  lemma BitLenHalf(x: nat, y: nat)
    requires 0 < x && 2 * x <= y
    ensures BitLen(x) + 1 <= BitLen(y)
  {
    hide BitLen;
    BitLenDouble(x);
    BitLenMono(2 * x, y);
  }

  lemma BitLenPos(x: nat)
    requires x > 0
    ensures BitLen(x) >= 1
  {}

  /** One of u and v - u is odd (o), the other even (2 * h): o stays, 2 * h becomes h. */
  lemma DropHalveOne(o: nat, h: nat)
    requires o % 2 == 1 && h > 0
    ensures var p := Ordered(o, h); Potential(p.u, p.v) + 1 <= BitLen(Min(o, 2 * h)) + BitLen(Dist(o, 2 * h))
  {
    hide BitLen;
    BitLenPos(Min(o, 2 * h));
    BitLenPos(Dist(o, 2 * h));
    if h == 2 * o {
      BitLenHalf(o, Dist(o, 2 * h));
      BitLenPos(o);
    } else if o < h {
      if 5 * o <= 4 * h || h >= 2 * o {
        BitLenHalf(Dist(h, 2 * o), 2 * h - o);
        BitLenMono(Min(o, h - o), o);
      } else {
        BitLenHalf(h - o, o);
        BitLenMono(2 * o - h, 2 * h - o);
      }
    } else if h < o {
      BitLenHalf(Min(h, o - h), Min(o, 2 * h));
    }
  }

  /** u and v - u are both odd: v - u stays, v becomes v / 2. */
  lemma DropHalveSum(a: nat, b: nat)
    requires a % 2 == 1 && b % 2 == 1 && a != b
    ensures var p := Ordered(b, (a + b) / 2); Potential(p.u, p.v) + 1 <= BitLen(Min(a, b)) + BitLen(Dist(a, b))
  {
    hide BitLen;
    var m := (a + b) / 2;
    assert a + b == 2 * m;
    if a == 3 * b {
      BitLenPos(b);
      BitLenHalf(b, 2 * b);
    } else if b < a {
      if a >= 2 * b {
        BitLenHalf(Dist(a, 3 * b) / 2, a - b);
        BitLenMono(Min(b, (a - b) / 2), b);
      } else {
        BitLenHalf((a - b) / 2, a - b);
        BitLenMono((3 * b - a) / 2, b);
      }
    } else {
      BitLenHalf((b - a) / 2, b - a);
    }
  }

  lemma PotentialDrops(p: Pair)
    requires Reducible(p) && p.u > 0
    ensures Potential(Step(p).u, Step(p).v) + 1 <= Potential(p.u, p.v)
  {
    hide BitLen, Gcd;
    NotBothEven(p);
    var u, v := p.u, p.v;
    var d := v - u;
    if d == 0 {
    } else if u % 2 == 1 && v % 2 == 0 {
      if d != u { DropHalveSum(u, d); }
    } else if u % 2 == 1 {
      DropHalveOne(u, d / 2);
    } else {
      DropHalveOne(d, u / 2);
    }
  }

  /** The state in which the loop stays once it has finished. */
  lemma StepFixed(v: nat)
    requires v % 2 == 1
    ensures Step(Pair(0, v)) == Pair(0, v)
  {}

  lemma {:induction false} StepsKeepGcd(p: Pair, n: nat)
    requires Reducible(p)
    ensures Reducible(Steps(p, n)) && Gcd(Steps(p, n).u, Steps(p, n).v) == Gcd(p.u, p.v)
  {
    hide Gcd;
    if n > 0 {
      StepsKeepGcd(p, n - 1);
      StepGcd(Steps(p, n - 1));
    }
  }

  lemma GcdWithZero(v: nat)
    ensures Gcd(0, v) == v
  {
    GcdSym(0, v);
  }

  lemma {:induction false} StepsPotential(p: Pair, n: nat)
    requires Reducible(p)
    ensures Steps(p, n).u == 0 || Potential(Steps(p, n).u, Steps(p, n).v) + n <= Potential(p.u, p.v)
  {
    hide BitLen, Gcd;
    if n > 0 {
      StepsPotential(p, n - 1);
      StepsKeepGcd(p, n - 1);
      var s := Steps(p, n - 1);
      if s.u > 0 {
        PotentialDrops(s);
      } else {
        GcdWithZero(s.v);
        StepFixed(s.v);
      }
    }
  }

  /** bits(A) + bits(N) iterations always end with u = 0 and v = gcd(A, N). */
  lemma EnoughSteps(a: nat, n: nat, count: nat)
    requires a <= n && n % 2 == 1 && BitLen(a) + BitLen(n) <= count
    ensures Steps(Pair(a, n), count) == Pair(0, Gcd(a, n))
  {
    hide BitLen, Gcd, Steps;
    var p := Pair(a, n);
    GcdOdd(a, n);
    StepsPotential(p, count);
    StepsKeepGcd(p, count);
    BitLenPos(n);
    if a > 0 && n - a > 0 {
      BitLenMono(Min(a, n - a), a);
      BitLenMono(Dist(a, n - a), n);
    }
    var s := Steps(p, count);
    if s.u > 0 { PotentialPos(s); }
    GcdWithZero(s.v);
  }

  lemma PotentialPos(p: Pair)
    requires p.u <= p.v && p.u > 0
    ensures Potential(p.u, p.v) > 0
  {
    hide BitLen;
    if p.v > p.u { BitLenPos(Min(p.u, p.v - p.u)); }
  }

  // ----- the mirrored operations modulo N -----

  /** (q - r) mod n, for residues. */
  function SubMod(q: int, r: int, n: int): int
  {
    if q >= r then q - r else q - r + n
  }

  /** x / 2 mod n, for odd n. */
  function HalfMod(x: int, n: int): int
  {
    if x % 2 == 0 then x / 2 else (x + n) / 2
  }

  /** The residue kept alongside Kept(u, v). */
  function KeptMod(u: nat, v: nat, q: nat, r: nat, n: nat): int
  {
    if u % 2 == 1 && v % 2 == 1 then r else SubMod(q, r, n)
  }

  function HalvedMod(u: nat, v: nat, q: nat, r: nat, n: nat): int
  {
    if u % 2 == 1 && v % 2 == 1 then SubMod(q, r, n) else if u % 2 == 1 then q else r
  }

  /** v = a * q and u = a * r modulo n, with residues in range. */
  ghost predicate Mirrors(p: Pair, a: nat, q: nat, r: nat, n: nat)
  {
    n > 1 && q < n && r < n && Cong(p.v, a * q, n) && Cong(p.u, a * r, n)
  }

  lemma SubModRange(q: nat, r: nat, n: nat)
    requires q < n && r < n
    ensures 0 <= SubMod(q, r, n) < n
  {}

  lemma HalfModRange(x: nat, n: nat)
    requires x < n && n % 2 == 1
    ensures 0 <= HalfMod(x, n) < n
  {}

  lemma SubModCong(a: nat, v: int, u: int, q: int, r: int, n: nat)
    requires n > 1 && Cong(v, a * q, n) && Cong(u, a * r, n)
    ensures Cong(v - u, a * SubMod(q, r, n), n)
  {
    hide Cong;
    CongSub(v, a * q, u, a * r, n);
    MulDist(a, q, r);
    if q < r {
      MulDist(a, q - r, n);
      CongIntro(a * (q - r), a * SubMod(q, r, n), n, -(a as int));
      CongTrans(v - u, a * (q - r), a * SubMod(q, r, n), n);
    }
  }

  /** Halving an even number and halving its multiplier modulo n go together. */
  lemma HalfModCong(a: nat, h: int, x: int, n: nat)
    requires n > 1 && n % 2 == 1 && Cong(2 * h, a * x, n)
    ensures Cong(h, a * HalfMod(x, n), n)
  {
    hide Cong;
    var y := HalfMod(x, n);
    var c := if x % 2 == 0 then 0 else 1;
    assert 2 * y == x + c * n;
    var k := CongElim(2 * h, a * x, n);
    MulDist(a, x, c * n);
    MulAssoc(a, c, n);
    MulAssoc(a, 2, y);
    assert 2 * (h - a * y) == (k - a * c) * n by {
      MulDist(n, k, a * c);
    }
    DividesIntro(n, 2 * (h - a * y), k - a * c);
    OddDividesHalf(n, h - a * y);
    var j := DividesElim(n, h - a * y);
    CongIntro(h, a * y, n, j);
  }

  /** An iteration keeps both congruences. */
  lemma StepMirrors(p: Pair, a: nat, q: nat, r: nat, n: nat)
    requires Reducible(p) && n % 2 == 1 && Mirrors(p, a, q, r, n)
    ensures var x, y := KeptMod(p.u, p.v, q, r, n), HalfMod(HalvedMod(p.u, p.v, q, r, n), n);
            0 <= x < n && 0 <= y < n &&
            if Halved(p.u, p.v) / 2 < Kept(p.u, p.v) then Mirrors(Step(p), a, x, y, n) else Mirrors(Step(p), a, y, x, n)
  {
    hide Cong, Gcd;
    NotBothEven(p);
    SubModRange(q, r, n);
    HalfModRange(HalvedMod(p.u, p.v, q, r, n), n);
    SubModCong(a, p.v, p.u, q, r, n);
    var h := Halved(p.u, p.v) / 2;
    assert 2 * h == Halved(p.u, p.v);
    HalfModCong(a, h, HalvedMod(p.u, p.v, q, r, n), n);
  }
}
