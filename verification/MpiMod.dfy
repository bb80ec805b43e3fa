/** bignum.c: residues modulo a number and modulo a machine integer. */
module MpiMod {
  import opened Arith
  import opened NumberTheory
  import opened Limbs
  import opened Words
  import opened BnMul
  import opened IntDiv
  import opened Mpis
  import opened MpiArith
  import opened Division

  /** Division by a machine integer. */
  method DivInt(Q: Mpi?, R: Mpi?, A: Mpi, b: Sint) returns (ret: Ret)
    requires A.Ok()
    requires Q != null ==> Q.Ok() && Separate(Q, A)
    requires R != null ==> R.Ok() && Separate(R, A)
    requires Q != null && R != null ==> Q != R && Q.p != R.p
    modifies if Q == null then {} else {Q, Q.p}, if R == null then {} else {R, R.p}
    ensures ret == if b == 0 then DivisionByZero else Success
    ensures Q != null ==> Q.Ok() && (Q.p == old(Q.p) || fresh(Q.p))
    ensures R != null ==> R.Ok() && (R.p == old(R.p) || fresh(R.p))
    ensures ret == Success && Q != null ==> Q.V() == TQuot(SeenAs(old(A.V()), Q == A), b)
    ensures ret == Success && R != null ==> R.V() == RemSeen(old(A.V()), b, Q == A)
    ensures ret == Success && Q != null ==> Q.Normal()
    ensures ret == Success && R != null && old(A.Normal() && R.Normal()) ==> R.Normal()
  {
    hide TQuot, TRem, Val;
    var B := Stack(b);
    ret := DivMpi(Q, R, A, B);
  }

  /** R := A mod B, in [0, B). R may alias A. It may alias B when B is refused; for a positive B see ResidueIffSeparate. */
  method ModMpi(R: Mpi, A: Mpi, B: Mpi) returns (ret: Ret)
    requires R.Ok() && A.Ok() && B.Ok() && Separate(R, A) && Separate(R, B) && (R == B ==> B.V() <= 0)
    modifies R, R.p
    ensures R.Ok() && (R.p == old(R.p) || fresh(R.p))
    ensures ret == if old(B.V()) < 0 then NegativeValue else if old(B.V()) == 0 then DivisionByZero else Success
    ensures ret == Success ==> R.V() == old(A.V()) % old(B.V())
    ensures ret == Success && old(A.Normal() && R.Normal()) ==> R.Normal()
  {
    hide Val, Signed, TRem, TQuot;
    var c := CmpInt(B, 0);
    if c < 0 {
      return NegativeValue;
    }
    ghost var a, b := A.V(), B.V();
    ret := DivMpi(null, R, A, B);
    if ret != Success {
      return;
    }
    RemToMod(a, b);
    c := CmpInt(R, 0);
    while c < 0
      invariant R.Ok() && (R.p == old(R.p) || fresh(R.p)) && R.p != B.p && B.V() == b && c == Sign(R.V())
      invariant old(A.Normal() && R.Normal()) ==> R.Normal()
      invariant R.V() == TRem(a, b) || (R.V() == TRem(a, b) + b && TRem(a, b) < 0)
      decreases -R.V()
    {
      AddMpi(R, R, B);
      c := CmpInt(R, 0);
    }
    SubtractDown(R, B);
    SmallMod(a % b, b);
  }

  /** The final loop: subtracts the modulus while it fits. */
  method SubtractDown(R: Mpi, B: Mpi)
    requires R.Ok() && B.Ok() && R != B && R.p != B.p && R.V() >= 0 && B.V() > 0
    modifies R, R.p
    ensures R.Ok() && (R.p == old(R.p) || fresh(R.p)) && R.V() == old(R.V()) % B.V()
    ensures old(R.Normal()) ==> R.Normal()
  {
    hide Val, Signed, Cong;
    ghost var a, b := R.V(), B.V();
    CongRefl(a, b);
    var c := CmpMpi(R, B);
    while c >= 0
      invariant R.Ok() && (R.p == old(R.p) || fresh(R.p)) && R.p != B.p && B.V() == b
      invariant old(R.Normal()) ==> R.Normal()
      invariant R.V() >= 0 && Cong(R.V(), a, b) && c == Sign(R.V() - b)
      decreases R.V()
    {
      CongIntro(R.V() - b, R.V(), b, -1);
      CongTrans(R.V() - b, R.V(), a, b);
      SubMpi(R, R, B);
      c := CmpMpi(R, B);
    }
    CongMod(a, b);
    CongTrans(R.V(), a, a % b, b);
    CongUnique(R.V(), a % b, b);
  }

  // ----- the modulus as its own result -----

  /** MBEDTLS_MPI_MAX_LIMBS: no number may need more limbs. */
  const MAX_LIMBS: nat := 10000

  /** Where mbedtls_mpi_mod_mpi is after the division: in the loop that adds B to a negative R, in the loop that
      subtracts B, or done. An addition that would need too many limbs is refused. */
  datatype ModState = Adding(r: int, b: int) | Subtracting(r: int, b: int) | Returned(r: int) | Refused

  /** One test of a loop, with its pass if it holds. With same, R and B are one object and so always equal. */
  function ModStep(same: bool, s: ModState): ModState
  {
    match s
    case Adding(r, b) =>
      if r >= 0 then Subtracting(r, b)
      else if Mag(r + b) >= Scale(MAX_LIMBS) then Refused
      else Adding(r + b, if same then r + b else b)
    case Subtracting(r, b) =>
      if r < b then Returned(r) else Subtracting(r - b, if same then r - b else b)
    case _ => s
  }

  function ModRun(same: bool, s: ModState, n: nat): ModState
    decreases n
  {
    if n == 0 then s else ModRun(same, ModStep(same, s), n - 1)
  }

  /** The division has put the remainder into R, and so into B if that is the same object. */
  function ModStart(same: bool, a: int, b: int): ModState
    requires b != 0
  {
    Adding(TRem(a, b), if same then TRem(a, b) else b)
  }

  /** A negative remainder doubles with every pass until the addition is refused. */
  lemma {:induction false} DoublingRefused(r: int) returns (n: nat)
    requires r < 0
    ensures ModRun(true, Adding(r, r), n) == Refused
    decreases Scale(MAX_LIMBS) + r
  {
    hide Scale;
    if Mag(r + r) >= Scale(MAX_LIMBS) {
      n := 1;
      assert ModRun(true, Refused, 0) == Refused;
    } else {
      var k := DoublingRefused(r + r);
      n := k + 1;
    }
  }

  /** And the loop is left in no other way. */
  lemma {:induction false} DoublingNeverReturns(r: int, n: nat)
    requires r < 0
    ensures var s := ModRun(true, Adding(r, r), n); s == Refused || (s.Adding? && s.r == s.b < 0)
    decreases n
  {
    hide Scale;
    if n > 0 {
      if Mag(r + r) >= Scale(MAX_LIMBS) { StaysRefused(n - 1); } else { DoublingNeverReturns(r + r, n - 1); }
    }
  }

  lemma {:induction false} StaysRefused(n: nat)
    ensures ModRun(true, Refused, n) == Refused
  {
    if n > 0 { StaysRefused(n - 1); }
  }

  /** A remainder that is not negative is compared with itself for ever. */
  lemma {:induction false} SubtractingForever(r: int, n: nat)
    requires r >= 0
    ensures var s := ModRun(true, Subtracting(r, r), n); s.Subtracting? && s.r == s.b >= 0
    decreases n
  {
    if n > 0 { SubtractingForever(0, n - 1); }
  }

  /** With separate objects the loops end with the residue. */
  lemma SeparateReturns(a: int, b: int) returns (n: nat)
    requires 0 < b < Scale(MAX_LIMBS)
    ensures ModRun(false, ModStart(false, a, b), n) == Returned(a % b)
  {
    hide Scale, TRem;
    RemToMod(a, b);
    var r := TRem(a, b);
    assert ModRun(false, Returned(a % b), 0) == Returned(a % b);
    assert ModRun(false, Subtracting(a % b, b), 1) == Returned(a % b);
    assert ModRun(false, Adding(a % b, b), 2) == Returned(a % b);
    n := if r < 0 then 3 else 2;
  }

  /** The call leaves A mod B, for a positive B, exactly when the result is not the modulus object. Otherwise it
      fails for want of limbs if the remainder is negative, and does not return if it is not. */
  lemma ResidueIffSeparate(a: int, b: int, same: bool)
    requires 0 < b < Scale(MAX_LIMBS)
    ensures (exists n: nat :: ModRun(same, ModStart(same, a, b), n) == Returned(a % b)) <==> !same
    ensures same ==> ((exists n: nat :: ModRun(same, ModStart(same, a, b), n) == Refused) <==> TRem(a, b) < 0)
    ensures same ==> forall n: nat :: !ModRun(same, ModStart(same, a, b), n).Returned?
  {
    hide Scale, TRem, ModRun;
    var r := TRem(a, b);
    if !same {
      var n := SeparateReturns(a, b);
      assert ModRun(same, ModStart(same, a, b), n) == Returned(a % b);
    } else if r < 0 {
      var n := DoublingRefused(r);
      assert ModRun(same, ModStart(same, a, b), n) == Refused;
      forall n: nat ensures !ModRun(same, ModStart(same, a, b), n).Returned? { DoublingNeverReturns(r, n); }
    } else {
      forall n: nat ensures ModRun(same, ModStart(same, a, b), n).Adding? || ModRun(same, ModStart(same, a, b), n).Subtracting? {
        SharedForever(r, n);
      }
    }
  }

  lemma SharedForever(r: int, n: nat)
    requires r >= 0
    ensures var s := ModRun(true, Adding(r, r), n); s.Adding? || s.Subtracting?
  {
    if n > 0 { SubtractingForever(r, n - 1); }
  }

  /** -1 mod 3 into the modulus: refused. */
  lemma NegativeIntoModulus()
    ensures exists n: nat :: ModRun(true, ModStart(true, -1, 3), n) == Refused
  {
    hide Scale, ModRun;
    var n := DoublingRefused(-1);
    assert ModRun(true, ModStart(true, -1, 3), n) == Refused;
  }

  /** 1 mod 3 into the modulus: does not end. */
  lemma PositiveIntoModulus(n: nat)
    ensures var s := ModRun(true, ModStart(true, 1, 3), n); s.Adding? || s.Subtracting?
  {
    SharedForever(1, n);
  }

  /** The remainder of truncated division is the residue, or is the residue minus the modulus. */
  lemma RemToMod(a: int, b: int)
    requires b > 0
    ensures -b < TRem(a, b) < b && 0 <= a % b < b
    ensures a % b == if TRem(a, b) < 0 then TRem(a, b) + b else TRem(a, b)
  {
    var x := Mag(a);
    DivModDef(x, b);
    if a < 0 {
      NegatedResidue(a, b, x / b, x % b);
    }
  }

  lemma NegatedResidue(a: int, b: int, q: int, r: int)
    requires b > 0 && -a == q * b + r && 0 <= r < b
    ensures a % b == if r == 0 then 0 else b - r
  {
    MulDist(b, -q, 1);
    assert -q * b == -(q * b);
    if r == 0 { DivModUnique(a, b, -q, 0); } else { DivModUnique(a, b, -q - 1, b - r); }
  }

  // ----- residue modulo a machine integer -----

  /** One half-limb step: the residue so far is moved up by half a limb, which drops what exceeds a limb. */
  function HalfStep(y: nat, h: nat, b: nat): nat
    requires b > 0
  {
    ((y * HALF) % BASE + h) % b
  }

  /** What the loop of mbedtls_mpi_mod_int leaves in y for the limbs s. */
  function ModLoop(s: seq<Limb>, b: nat): (y: nat)
    requires b > 0
    ensures y < b
  {
    if |s| == 0 then 0
    else
      Halves(s[0]);
      HalfStep(HalfStep(ModLoop(s[1..], b), s[0] / HALF, b), s[0] % HALF, b)
  }

  /** When the shift by half a limb loses nothing modulo b. */
  predicate ModIntExact(b: nat)
    requires b > 0
  {
    b <= HALF || BASE % b == 0
  }

  method ModInt(A: Mpi, b: Sint) returns (ret: Ret, r: Limb)
    requires A.Ok()
    ensures ret == if b == 0 then DivisionByZero else if b < 0 then NegativeValue else Success
    ensures b > 0 ==> r < b && Cong(r, Signed(A.s, ModLoop(A.p[..], b)), b)
    ensures b > 0 && ModIntExact(b) ==> r == A.V() % b
  {
    hide Val, Shl, Shr, BitOr, ModLoop, HalfStep, Cong, ModIntExact;
    r := 0;
    if b == 0 {
      return DivisionByZero, 0;
    }
    if b < 0 {
      return NegativeValue, 0;
    }
    ret := Success;
    ghost var s := A.p[..];
    if b > 0 && ModIntExact(b) { ModLoopExact(s, b); }
    if b == 1 || A.p.Length == 0 {
      ModTrivial(s, b);
      ResidueSign(A.s, 0, Val(s), 0, b);
      return;
    }
    if b == 2 {
      ValParity(s);
      r := A.p[0] % 2;
      TwoExact(b);
      ModLoopExact(s, b);
      ResidueTwo(A.s, r, Val(s));
      return;
    }
    var i, y: Limb := A.p.Length, 0;
    assert s[i..] == [];
    ModTrivial(s[i..], b);
    while i > 0
      invariant 0 <= i <= A.p.Length && y == ModLoop(s[i..], b)
    {
      var x := A.p[i - 1];
      assert x == s[i - 1] && s[i - 1..][1..] == s[i..] && s[i - 1..][0] == x;
      Halves(x);
      ModLoopStep(s[i - 1..], b);
      y := ReduceHalf(y, Shr(x, HALF_BITS), b);
      x := Shl(x, HALF_BITS);
      Halves(x);
      SecondHalf(s[i - 1]);
      y := ReduceHalf(y, Shr(x, HALF_BITS), b);
      i := i - 1;
    }
    assert s[0..] == s;
    r := if A.s < 0 && y != 0 then b - y else y;
    ResidueSign(A.s, y, Val(s), r, b);
  }

  /** y := (y << biH | h) mod b. */
  method ReduceHalf(y: Limb, h: Limb, b: Limb) returns (r: Limb)
    requires b > 0 && h < HALF
    ensures r == HalfStep(y, h, b)
  {
    hide Shl, Shr, BitOr, Pow;
    Halves(y);
    RadixIsPower();
    OrDisjoint(y % HALF, h, HALF_BITS);
    MoveUpHalf(y);
    r := BitOr(Shl(y, HALF_BITS), h);
    var z := r / b;
    DivModDef(r, b);
    r := r - z * b;
  }

  lemma MoveUpHalf(y: Limb)
    ensures (y * HALF) % BASE == (y % HALF) * HALF
    ensures (y % HALF) * HALF + HALF <= BASE
  {
    HalfSquared();
    ShlArith(y, HALF, HALF);
    DivModDef(y, HALF);
    MulLe(y % HALF + 1, HALF, HALF);
    MulDist(HALF, y % HALF, 1);
  }

  lemma SecondHalf(x: Limb)
    ensures 0 <= (x % HALF) * HALF < BASE && ((x % HALF) * HALF) / HALF == x % HALF
  {
    MoveUpHalf(x);
    DivModDef(x, HALF);
    MulNonNeg(x % HALF, HALF);
    DivModUnique((x % HALF) * HALF, HALF, x % HALF, 0);
  }

  lemma ModLoopStep(s: seq<Limb>, b: nat)
    requires b > 0 && |s| > 0
    ensures 0 <= s[0] / HALF < HALF && 0 <= s[0] % HALF < HALF
    ensures ModLoop(s, b) == HalfStep(HalfStep(ModLoop(s[1..], b), s[0] / HALF, b), s[0] % HALF, b)
  {
    hide HalfStep;
    Halves(s[0]);
  }

  lemma ModTrivial(s: seq<Limb>, b: nat)
    requires b == 1 || (b > 0 && |s| == 0)
    ensures ModLoop(s, b) == 0
  {}

  lemma TwoExact(b: nat)
    requires b == 2
    ensures ModIntExact(b)
  {}

  lemma ResidueTwo(s: int, r: nat, v: nat)
    requires (s == 1 || s == -1) && r == v % 2
    ensures Cong(r, Signed(s, v % 2), 2) && r == Signed(s, v) % 2
  {}

  /** Flipping a nonzero residue to the positive side. */
  lemma ResidueSign(s: int, y: nat, v: nat, r: int, b: nat)
    requires (s == 1 || s == -1) && y < b && r == if s < 0 && y != 0 then b - y else y
    ensures 0 <= r < b && Cong(r, Signed(s, y), b) && (y == v % b ==> r == Signed(s, v) % b)
  {
    DivModDef(v, b);
    if s < 0 {
      CongIntro(r, -(y as int), b, if y == 0 then 0 else 1);
      assert y == v % b ==> Signed(s, v) % b == r by {
        if y == v % b {
          var q := v / b;
          MulDist(b, -q, 1);
          assert -q * b == -(q * b);
          if y == 0 { DivModUnique(-(v as int), b, -q, 0); } else { DivModUnique(-(v as int), b, -q - 1, b - y); }
        }
      }
    }
  }

  lemma HalfStepExact(y: nat, h: nat, b: nat)
    requires b > 0 && y < b && ModIntExact(b)
    ensures HalfStep(y, h, b) == (y * HALF + h) % b
  {
    HalfSquared();
    var w := y * HALF;
    MulNonNeg(y, HALF);
    DivModDef(w, BASE);
    if b <= HALF {
      MulLt(y, HALF, HALF);
      SmallMod(w, BASE);
    } else {
      DivModDef(BASE, b);
      var k := BASE / b;
      MulAssoc(w / BASE, k, b);
      CongIntro(w + h, w % BASE + h, b, (w / BASE) * k);
    }
  }

  lemma {:induction false} ModLoopExact(s: seq<Limb>, b: nat)
    requires b > 0 && ModIntExact(b)
    ensures ModLoop(s, b) == Val(s) % b
  {
    hide ModIntExact, HalfStep;
    if |s| == 0 {
      SmallMod(0, b);
    } else {
      var v, h, l := Val(s[1..]), s[0] / HALF, s[0] % HALF;
      ModLoopExact(s[1..], b);
      ModLoopStep(s, b);
      DivModDef(v, b);
      HalfStepExact(v % b, h, b);
      DivModDef((v % b) * HALF + h, b);
      HalfStepExact(((v % b) * HALF + h) % b, l, b);
      TwoHalves(v, h, l, b);
      DivModDef(s[0], HALF);
    }
  }

  lemma TwoHalves(v: nat, h: int, l: int, b: nat)
    requires b > 0
    ensures ((((v % b) * HALF + h) % b) * HALF + l) % b == ((h * HALF + l) + BASE * v) % b
  {
    hide Cong;
    var y := ((v % b) * HALF + h) % b;
    CongMod(v, b);
    CongRefl(HALF, b);
    CongRefl(h, b);
    CongRefl(l, b);
    CongMul(v % b, v, HALF, HALF, b);
    CongAdd((v % b) * HALF, v * HALF, h, h, b);
    CongMod((v % b) * HALF + h, b);
    CongTrans(y, (v % b) * HALF + h, v * HALF + h, b);
    CongMul(y, v * HALF + h, HALF, HALF, b);
    CongAdd(y * HALF, (v * HALF + h) * HALF, l, l, b);
    HalfSquared();
    MulAssoc(v, HALF, HALF);
    MulDist(HALF, v * HALF, h);
    CongSame(y * HALF + l, (h * HALF + l) + BASE * v, b);
  }

  lemma CongSame(x: int, y: int, b: nat)
    requires b > 0 && Cong(x, y, b)
    ensures x % b == y % b
  {}

  /** A divisor of a power of two is a power of two. */
  lemma {:induction false} DivisorOfPower(b: nat, k: nat) returns (j: nat)
    requires b > 0 && Divides(b, Pow(2, k))
    ensures j <= k && b == Pow(2, j)
  {
    hide Divides;
    if k == 0 {
      DividesLe(b, 1);
      PowZero();
      j := 0;
    } else if b % 2 == 1 {
      OddDividesHalf(b, Pow(2, k - 1));
      j := DivisorOfPower(b, k - 1);
    } else {
      var c := DividesElim(b, Pow(2, k));
      var h := b / 2;
      assert Pow(2, k) == 2 * Pow(2, k - 1) && b == 2 * h;
      MulAssoc(c, 2, h);
      MulAssoc(2, c, h);
      DividesIntro(h, Pow(2, k - 1), c);
      j := DivisorOfPower(h, k - 1);
      j := j + 1;
    }
  }

  /** The loop computes the residue of every number exactly for the moduli up to half a limb and the powers
      of two; for any other one it fails on the two-limb number 2^(biL + biH). */
  lemma ModLoopCorrectIff(b: nat)
    requires 0 < b < BASE
    ensures (forall s: seq<Limb> :: ModLoop(s, b) == Val(s) % b) <==> ModIntExact(b)
  {
    hide HalfStep;
    if ModIntExact(b) {
      forall s: seq<Limb>
        ensures ModLoop(s, b) == Val(s) % b
      {
        ModLoopExact(s, b);
      }
    } else {
      HalfIsLimb();
      var s: seq<Limb> := [0, HALF];
      LostCarry(b, s);
      if ModLoop(s, b) == Val(s) % b { NotPower(b); }
    }
  }

  lemma LostCarry(b: nat, s: seq<Limb>)
    requires HALF < b < BASE && HALF < BASE && s == [0, HALF]
    ensures ModLoop(s, b) == 0 && Val(s) == BASE * HALF
  {
    hide HalfStep, Val;
    assert s == [0] + [HALF];
    ValUnfold(0, [HALF]);
    ValOne(HALF);
    assert s[1..] == [HALF] && s[1..][1..] == [];
    ModTrivial(s[1..][1..], b);
    ModLoopStep(s[1..], b);
    ModLoopStep(s, b);
    DivModUnique(HALF, HALF, 1, 0);
    DivModUnique(0, HALF, 0, 0);
    HalfStepValues(b);
  }

  lemma HalfStepValues(b: nat)
    requires HALF < b < BASE
    ensures HalfStep(0, 1, b) == 1 && HalfStep(1, 0, b) == HALF && HalfStep(HALF, 0, b) == 0 && HalfStep(0, 0, b) == 0
  {
    HalfSquared();
    SmallMod(0, BASE);
    SmallMod(HALF, BASE);
    DivModUnique(BASE, BASE, 1, 0);
    SmallMod(0, b);
    SmallMod(1, b);
    SmallMod(HALF, b);
  }

  lemma NotPower(b: nat)
    requires 0 < b < BASE && (BASE * HALF) % b == 0
    ensures BASE % b == 0
  {
    hide Pow;
    RadixIsPower();
    PowAdd(2, LIMB_BITS, HALF_BITS);
    var j := DivisorOfPower(b, LIMB_BITS + HALF_BITS);
    if j > LIMB_BITS { PowMono(2, LIMB_BITS, j); }
    PowAdd(2, LIMB_BITS - j, j);
    DivModUnique(BASE, b, Pow(2, LIMB_BITS - j), 0);
  }
}
