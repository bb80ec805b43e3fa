/** bignum.c: reading and writing numerals. Texts are octet strings without the final zero byte. */
module MpiStrings {
  import opened Arith
  import opened Limbs
  import opened Words
  import opened NumberTheory
  import opened Mpis
  import opened MpiArith
  import opened Division
  import opened MpiMod

  type Char = x: int | 0 <= x < 256

  const MINUS: Char := '-' as int

  /** The largest size_t. */
  const SIZE_MAX: nat

  // ----- digits and numerals -----

  function DigitValue(c: Char): nat
  {
    if 48 <= c <= 57 then c - 48 else if 65 <= c <= 70 then c - 55 else if 97 <= c <= 102 then c - 87 else 255
  }

  function DigitChar(d: nat): Char
    requires d < 16
  {
    if d < 10 then '0' as int + d else 'A' as int + (d - 10)
  }

  ghost predicate Numeral(t: seq<Char>, radix: nat)
  {
    forall i :: 0 <= i < |t| ==> DigitValue(t[i]) < radix
  }

  /** The number a numeral stands for, most significant digit first. */
  function NumeralValue(t: seq<Char>, radix: nat): nat
  {
    if |t| == 0 then 0 else NumeralValue(t[..|t| - 1], radix) * radix + DigitValue(t[|t| - 1])
  }

  /** What follows the sign. */
  function Body(s: seq<Char>): seq<Char>
  {
    if |s| > 0 && s[0] == MINUS then s[1..] else s
  }

  function Parsed(s: seq<Char>, radix: nat): int
  {
    Signed(if |s| > 0 && s[0] == MINUS then -1 else 1, NumeralValue(Body(s), radix))
  }

  lemma NumeralNext(t: seq<Char>, i: nat, radix: nat)
    requires i < |t|
    ensures NumeralValue(t[..i + 1], radix) == NumeralValue(t[..i], radix) * radix + DigitValue(t[i])
  {
    assert t[..i + 1][..i] == t[..i];
  }

  lemma NumeralSnoc(t: seq<Char>, c: Char, radix: nat)
    ensures NumeralValue(t + [c], radix) == NumeralValue(t, radix) * radix + DigitValue(c)
  {
    assert (t + [c])[..|t|] == t;
  }

  /** Reading from the least significant end. */
  lemma {:induction false} NumeralCons(t: seq<Char>, i: nat, radix: nat)
    requires 0 < i <= |t| && radix > 0
    ensures NumeralValue(t[i - 1..], radix) == DigitValue(t[i - 1]) * Pow(radix, |t| - i) + NumeralValue(t[i..], radix)
    decreases |t|
  {
    hide DigitValue, NumeralValue, Pow;
    var n := |t|;
    if i == n {
      assert t[i - 1..] == [] + [t[i - 1]] && t[i..] == [];
      NumeralSnoc([], t[i - 1], radix);
      NoNumeral([], radix);
      SmallPow(radix);
    } else {
      var u := t[..n - 1];
      NumeralCons(u, i, radix);
      LastOf(t, i - 1);
      LastOf(t, i);
      NumeralSnoc(u[i - 1..], t[n - 1], radix);
      NumeralSnoc(u[i..], t[n - 1], radix);
      PowStep(radix, n - 1 - i);
      ShiftUp(DigitValue(t[i - 1]), Pow(radix, n - 1 - i), NumeralValue(u[i..], radix), radix);
    }
  }

  lemma LastOf(t: seq<Char>, i: nat)
    requires i < |t|
    ensures t[i..] == t[..|t| - 1][i..] + [t[|t| - 1]]
  {}

  lemma ShiftUp(d: nat, p: nat, v: nat, r: nat)
    ensures (d * p + v) * r == d * (r * p) + v * r
  {
    MulDist(r, d * p, v);
    MulAssoc(r, d, p);
    MulAssoc(d, r, p);
  }

  /** The same text but for the case of letters is the same numeral. */
  lemma {:induction false} CaseDoesNotMatter(t: seq<Char>, u: seq<Char>, radix: nat)
    requires |t| == |u| && forall i :: 0 <= i < |t| ==> t[i] == u[i] || ('a' as int <= u[i] <= 'f' as int && t[i] == u[i] - 32)
    ensures Numeral(t, radix) <==> Numeral(u, radix)
    ensures NumeralValue(t, radix) == NumeralValue(u, radix)
  {
    forall i | 0 <= i < |t|
      ensures DigitValue(t[i]) == DigitValue(u[i])
    {
    }
    if |t| > 0 {
      var n := |t| - 1;
      CaseDoesNotMatter(t[..n], u[..n], radix);
    }
  }

  /** Not a digit of this radix: the text is not a numeral. */
  method GetDigit(radix: nat, c: Char) returns (ret: Ret, d: Sint)
    requires 2 <= radix <= 16
    ensures ret == if DigitValue(c) < radix then Success else InvalidCharacter
    ensures ret == Success ==> d == DigitValue(c)
  {
    d := 255;
    if 0x30 <= c <= 0x39 {
      d := c - 0x30;
    }
    if 0x41 <= c <= 0x46 {
      d := c - 0x37;
    }
    if 0x61 <= c <= 0x66 {
      d := c - 0x57;
    }
    ret := if d >= radix then InvalidCharacter else Success;
  }

  // ----- reading -----

  /** Any radix but 16: multiply and add, from the most significant digit. */
  method ReadDigits(X: Mpi, radix: Limb, t: seq<Char>) returns (ret: Ret)
    requires X.Ok() && 2 <= radix <= 16
    modifies X, X.p
    ensures X.Ok() && (X.p == old(X.p) || fresh(X.p))
    ensures ret == if Numeral(t, radix) then Success else InvalidCharacter
    ensures ret == Success ==> X.V() == NumeralValue(t, radix)
    ensures X.Normal()
  {
    hide Val, Signed, NumeralValue, DigitValue;
    var T := new Mpi.Init();
    LSet(X, 0);
    var i: nat := 0;
    assert NumeralValue(t[..0], radix) == 0 by { NoNumeral(t[..0], radix); }
    while i < |t|
      invariant i <= |t| && X.Ok() && X.Normal() && (X.p == old(X.p) || fresh(X.p)) && T.Ok() && fresh(T.p) && T.p != X.p
      invariant Numeral(t[..i], radix) && X.V() == NumeralValue(t[..i], radix)
    {
      var d;
      ret, d := GetDigit(radix, t[i]);
      if ret != Success {
        return;
      }
      NumeralNext(t, i, radix);
      MulInt(T, X, radix);
      AddInt(X, T, d);
      i := i + 1;
    }
    assert t[..|t|] == t;
    ret := Success;
  }

  lemma NoNumeral(t: seq<Char>, radix: nat)
    requires |t| == 0
    ensures NumeralValue(t, radix) == 0
  {}

  const LIMB_DIGITS: nat := LIMB_BITS / 4

  lemma HexLimb()
    ensures Pow(16, LIMB_DIGITS) == BASE && LIMB_DIGITS > 0
  {
    RadixIsPower();
    SixteenIs();
    PowMul(2, 4, LIMB_DIGITS);
  }

  /** Where the hexadecimal digit number j belongs. */
  function LimbOf(j: nat): nat
  {
    j / LIMB_DIGITS
  }

  function PlaceOf(j: nat): (m: nat)
    ensures m < LIMB_DIGITS
  {
    j % LIMB_DIGITS
  }

  /** Only the places below number j are in use. */
  ghost predicate Placed(s: seq<Limb>, j: nat)
  {
    (forall k :: LimbOf(j) < k < |s| ==> s[k] == 0) &&
    (LimbOf(j) < |s| ==> s[LimbOf(j)] < Pow(16, PlaceOf(j)))
  }

  lemma PutDigit(s: seq<Limb>, j: nat, d: nat)
    requires d < 16 && LimbOf(j) < |s| && Placed(s, j)
    ensures var s' := s[LimbOf(j) := OrLimb(s[LimbOf(j)], d, PlaceOf(j))];
            Val(s') == Val(s) + d * Pow(16, j) && Placed(s', j + 1)
  {
    hide Val, Pow, BitOr, Shl, Scale, LimbOf, PlaceOf;
    var l, m := LimbOf(j), PlaceOf(j);
    OrDigit(s[l], d, m);
    ValUpdate(s, s[l := OrLimb(s[l], d, m)], l);
    DigitPlace(j, l, m, d, s[l]);
    NextPlace(j);
    if m + 1 == LIMB_DIGITS { PowZeroOne(); }
  }

  lemma PowZeroOne()
    ensures Pow(16, 0) == 1
  {}

  lemma NextPlace(j: nat)
    ensures var l, m := LimbOf(j), PlaceOf(j);
            if m + 1 == LIMB_DIGITS then LimbOf(j + 1) == l + 1 && PlaceOf(j + 1) == 0
            else LimbOf(j + 1) == l && PlaceOf(j + 1) == m + 1
  {
    var D, l, m := LIMB_DIGITS, LimbOf(j), PlaceOf(j);
    DivModDef(j, D);
    if m + 1 == D { DivModUnique(j + 1, D, l + 1, 0); } else { DivModUnique(j + 1, D, l, m + 1); }
  }

  /** The new digit lies above those already in the limb, and inside the limb. */
  lemma OrDigit(x: Limb, d: nat, m: nat)
    requires d < 16 && m < LIMB_DIGITS && x < Pow(16, m)
    ensures BitOr(x, Shl(d, m * 4)) == x + d * Pow(16, m) < Pow(16, m + 1)
  {
    hide BitOr, Pow;
    HexLimb();
    PowMul(2, 4, m);
    assert Pow(2, 4) == 16 by { SixteenIs(); }
    var p := Pow(16, m);
    assert Pow(16, m + 1) == 16 * p by { PowStep(16, m); }
    PowMono(16, m + 1, LIMB_DIGITS);
    MulLe(d, 15, p);
    MulNonNeg(d, p);
    SmallMod(d * p, BASE);
    OrDisjoint(d, x, 4 * m);
    OrSwap(x, d * p);
  }

  lemma SixteenIs()
    ensures Pow(2, 4) == 16
  {
    assert Pow(2, 1) == 2 && Pow(2, 2) == 4 && Pow(2, 3) == 8;
  }

  lemma PowStep(b: nat, e: nat)
    ensures Pow(b, e + 1) == b * Pow(b, e)
  {}

  lemma DigitPlace(j: nat, l: nat, m: nat, d: nat, x: int)
    requires l == LimbOf(j) && m == PlaceOf(j)
    ensures Scale(l) * (x + d * Pow(16, m)) - Scale(l) * x == d * Pow(16, j)
  {
    hide Pow, LimbOf, PlaceOf, Scale;
    PlaceSplit(j);
    PlacePower(j, l, m);
    PlaceArith(Scale(l), x, d, Pow(16, m), Pow(16, j));
  }

  lemma PlaceSplit(j: nat)
    ensures j == LIMB_DIGITS * LimbOf(j) + PlaceOf(j)
  {
    DivModDef(j, LIMB_DIGITS);
  }

  lemma PlacePower(j: nat, l: nat, m: nat)
    requires j == LIMB_DIGITS * l + m
    ensures Scale(l) * Pow(16, m) == Pow(16, j)
  {
    hide Pow;
    HexLimb();
    PowMul(16, LIMB_DIGITS, l);
    PowAdd(16, LIMB_DIGITS * l, m);
  }

  lemma PlaceArith(s: int, x: int, d: int, p: int, q: int)
    requires s * p == q
    ensures s * (x + d * p) - s * x == d * q
  {
    MulDist(s, x, d * p);
    MulAssoc(s, d, p);
    MulAssoc(d, s, p);
  }

  /** Radix 16: every digit goes to its place, from the least significant one. */
  method ReadHex(X: Mpi, t: seq<Char>) returns (ret: Ret)
    requires X.Ok()
    modifies X, X.p
    ensures X.Ok() && (X.p == old(X.p) || fresh(X.p))
    ensures ret == if |t| > SIZE_MAX / 4 then BadInputData else if Numeral(t, 16) then Success else InvalidCharacter
    ensures ret == Success ==> X.V() == NumeralValue(t, 16)
    ensures ret == Success ==> X.Normal()
  {
    hide Val, NumeralValue, DigitValue, LimbOf;
    if |t| > SIZE_MAX / 4 {
      return BadInputData;
    }
    var n := BitsToLimbs(|t| * 4);
    Grow(X, n);
    LSet(X, 0);
    SintParts(0);
    PlacesFit(|t|, n);
    ret := PlaceDigits(X, t);
  }

  lemma PlacesFit(n: nat, limbs: nat)
    requires limbs == BitsToLimbs(n * 4)
    ensures forall j :: 0 <= j < n ==> LimbOf(j) < limbs
  {
    hide LimbOf;
    forall j | 0 <= j < n ensures LimbOf(j) < limbs {
      DivModDef(n * 4, LIMB_BITS);
      LimbFits(j, n, limbs);
    }
  }

  lemma LimbFits(j: nat, n: nat, limbs: nat)
    requires j < n && n * 4 <= limbs * LIMB_BITS
    ensures LimbOf(j) < limbs
  {
    DivModDef(j, LIMB_DIGITS);
    assert LIMB_BITS == 4 * LIMB_DIGITS;
    MulAssoc(limbs, 4, LIMB_DIGITS);
    MulCancelLt(LimbOf(j), limbs, LIMB_DIGITS);
  }

  method PlaceDigits(X: Mpi, t: seq<Char>) returns (ret: Ret)
    requires X.Ok() && X.s == 1 && X.p.Length > 0 && forall k :: 0 <= k < X.p.Length ==> X.p[k] == 0
    requires forall j :: 0 <= j < |t| ==> LimbOf(j) < X.p.Length
    modifies X.p
    ensures ret == if Numeral(t, 16) then Success else InvalidCharacter
    ensures ret == Success ==> X.V() == NumeralValue(t, 16)
    ensures X.s == 1
  {
    hide Val, NumeralValue, DigitValue, OrLimb, Placed, LimbOf, PlaceOf;
    var i: nat, j: nat := |t|, 0;
    ValZero(X.p[..]);
    NoNumeral(t[|t|..], 16);
    NothingPlaced(X.p[..]);
    while i > 0
      invariant i + j == |t| && Numeral(t[i..], 16)
      invariant Val(X.p[..]) == NumeralValue(t[i..], 16) && Placed(X.p[..], j)
    {
      var d;
      ret, d := GetDigit(16, t[i - 1]);
      if ret != Success {
        return;
      }
      PlaceDigit(X.p, j, d);
      NumeralCons(t, i, 16);
      i, j := i - 1, j + 1;
    }
    assert t[0..] == t;
    ret := Success;
  }

  method PlaceDigit(p: array<Limb>, j: nat, d: nat)
    requires LimbOf(j) < p.Length && Placed(p[..], j) && d < 16
    modifies p
    ensures Val(p[..]) == old(Val(p[..])) + d * Pow(16, j) && Placed(p[..], j + 1)
  {
    hide Val, Pow, OrLimb, LimbOf, PlaceOf;
    PutDigit(p[..], j, d);
    ghost var was := p[..];
    p[LimbOf(j)] := OrLimb(p[LimbOf(j)], d, PlaceOf(j));
    assert p[..] == was[LimbOf(j) := OrLimb(was[LimbOf(j)], d, PlaceOf(j))];
  }

  lemma NothingPlaced(s: seq<Limb>)
    requires forall k :: 0 <= k < |s| ==> s[k] == 0
    ensures Placed(s, 0)
  {
    HexLimb();
    PowZeroOne();
    SmallMod(0, LIMB_DIGITS);
  }

  /** x | d << 4m. */
  function OrLimb(x: Limb, d: nat, m: nat): Limb
    requires d < 16 && m < LIMB_DIGITS && x < Pow(16, m)
  {
    HexLimb();
    PowMono(16, m + 1, LIMB_DIGITS);
    OrDigit(x, d, m);
    BitOr(x, Shl(d, m * 4))
  }

  /** mbedtls_mpi_read_string. */
  method ReadString(X: Mpi, radix: nat, s: seq<Char>) returns (ret: Ret)
    requires X.Ok()
    modifies X, X.p
    ensures X.Ok()
    ensures ret == if radix < 2 || radix > 16 || (radix == 16 && |Body(s)| > SIZE_MAX / 4) then BadInputData
                   else if Numeral(Body(s), radix) then Success else InvalidCharacter
    ensures ret == Success ==> X.V() == Parsed(s, radix)
    ensures ret == Success ==> X.Normal()
  {
    hide Val, NumeralValue, DigitValue;
    if radix < 2 || radix > 16 {
      return BadInputData;
    }
    if |s| == 0 {
      X.s := 1;
      X.p := new Limb[0];
      NoNumeral(s, radix);
      ValZero(X.p[..]);
      return Success;
    }
    var sign, t := 1, s;
    if s[0] == MINUS {
      t := s[1..];
      sign := -1;
    }
    if radix == 16 {
      ret := ReadHex(X, t);
    } else {
      ret := ReadDigits(X, radix, t);
    }
    if ret == Success {
      SetSign(X, sign);
    }
  }

  /** Zero never gets a sign. */
  method SetSign(X: Mpi, sign: int)
    requires X.Ok() && X.V() >= 0 && (sign == 1 || sign == -1)
    modifies X
    ensures X.Ok() && X.p == old(X.p) && X.V() == Signed(sign, old(X.V()))
    ensures old(X.Normal()) ==> X.Normal()
  {
    hide Val;
    var bits := Bitlen(X);
    if sign < 0 && bits != 0 {
      X.s := -1;
    }
  }

  // ----- writing -----

  /** The numeral of v: no leading zero, and one digit for zero. */
  function Digits(v: nat, radix: nat): (t: seq<Char>)
    requires 2 <= radix <= 16
    ensures |t| > 0
  {
    if v < radix then [DigitChar(v)]
    else
      Smaller(v, radix);
      Digits(v / radix, radix) + [DigitChar(v % radix)]
  }

  lemma Smaller(v: nat, b: nat)
    requires v > 0 && b >= 2
    ensures 0 <= v / b < v
  {
    DivModDef(v, b);
    if v / b < 0 { MulLe(v / b, -1, b); }
    if v / b >= v { MulLe(v, v / b, b); MulLe(2, b, v); }
  }

  /** Two digits for an octet. */
  function Pair(c: nat): (t: seq<Char>)
    requires c < 256
    ensures |t| == 2
  {
    [DigitChar(c / 16), DigitChar(c % 16)]
  }

  /** Hexadecimal output: two digits for every octet from the highest nonzero one, or "00". */
  function Hex(v: nat): (t: seq<Char>)
    ensures |t| >= 2
  {
    if v < 256 then Pair(v) else Hex(v / 256) + Pair(v % 256)
  }

  lemma DigitBack(d: nat)
    requires d < 16
    ensures DigitValue(DigitChar(d)) == d && DigitChar(d) != MINUS && DigitChar(d) != 0
  {}

  /** Reading the numeral of a number gives the number. */
  lemma {:induction false} DigitsRead(v: nat, radix: nat)
    requires 2 <= radix <= 16
    ensures NumeralValue(Digits(v, radix), radix) == v && Numeral(Digits(v, radix), radix) && 0 !in Digits(v, radix)
    ensures Digits(v, radix)[0] != MINUS
  {
    hide DigitValue, DigitChar;
    if v < radix {
      DigitBack(v);
      NumeralSnoc([], DigitChar(v), radix);
      assert [DigitChar(v)] == [] + [DigitChar(v)];
    } else {
      Smaller(v, radix);
      DivModDef(v, radix);
      DigitsRead(v / radix, radix);
      DigitBack(v % radix);
      NumeralSnoc(Digits(v / radix, radix), DigitChar(v % radix), radix);
    }
  }

  lemma PairRead(t: seq<Char>, c: nat)
    requires c < 256
    ensures NumeralValue(t + Pair(c), 16) == NumeralValue(t, 16) * 256 + c
    ensures Numeral(Pair(c), 16) && 0 !in Pair(c) && Pair(c)[0] != MINUS
  {
    hide DigitValue, DigitChar, NumeralValue;
    DigitBack(c / 16);
    DigitBack(c % 16);
    assert t + Pair(c) == t + [DigitChar(c / 16)] + [DigitChar(c % 16)];
    NumeralSnoc(t, DigitChar(c / 16), 16);
    NumeralSnoc(t + [DigitChar(c / 16)], DigitChar(c % 16), 16);
  }

  lemma {:induction false} HexRead(v: nat)
    ensures NumeralValue(Hex(v), 16) == v && Numeral(Hex(v), 16) && 0 !in Hex(v) && Hex(v)[0] != MINUS
  {
    hide DigitValue, Pair;
    if v < 256 {
      PairRead([], v);
      NoNumeral([], 16);
      assert [] + Pair(v) == Pair(v);
    } else {
      HexRead(v / 256);
      PairRead(Hex(v / 256), v % 256);
    }
  }

  // ----- the size estimate -----

  /** The buffer size the code asks for, from the number of bits. */
  function Needed(bits: nat, radix: nat): nat
  {
    var n1 := if radix >= 4 then bits / 2 else bits;
    var n2 := if radix >= 16 then n1 / 2 else n1;
    var n3 := n2 + 3;
    n3 + n3 % 2
  }

  /** A number below c^k has at most k digits in any radix from c on. */
  lemma {:induction false} DigitsFit(v: nat, radix: nat, c: nat, k: nat)
    requires 2 <= c <= radix <= 16 && v < Pow(c, k)
    ensures |Digits(v, radix)| <= if k > 0 then k else 1
  {
    hide DigitChar, Pow;
    if v >= radix {
      Smaller(v, radix);
      DivModDef(v, radix);
      if k <= 1 {
        SmallPow(c);
      }
      PowStep(c, k - 1);
      QuotientBelow(v, radix, c, Pow(c, k - 1));
      DigitsFit(v / radix, radix, c, k - 1);
    }
  }

  lemma SmallPow(c: nat)
    ensures Pow(c, 0) == 1 && Pow(c, 1) == c
  {
    PowStep(c, 0);
  }

  lemma QuotientBelow(v: nat, b: nat, c: nat, p: nat)
    requires 0 < c <= b && v < c * p
    ensures 0 <= v / b < p
  {
    DivModDef(v, b);
    var q := v / b;
    if q < 0 { MulLe(q, -1, b); }
    if q >= p { MulLe(p, q, b); MulLe(c, b, p); }
  }

  lemma {:induction false} HexFits(v: nat, k: nat)
    requires v < Pow(256, k)
    ensures |Hex(v)| <= 2 * if k > 0 then k else 1
  {
    hide Pair, Pow;
    if v >= 256 {
      if k <= 1 { SmallPow(256); }
      PowStep(256, k - 1);
      QuotientBelow(v, 256, 256, Pow(256, k - 1));
      HexFits(v / 256, k - 1);
    }
  }

  /** The estimate leaves room for the sign, every digit and the final zero, whatever the radix. */
  lemma EstimateSuffices(v: nat, radix: nat)
    requires 2 <= radix <= 16
    ensures |Magnitude(v, radix)| + 2 <= Needed(BitLen(v), radix)
  {
    hide Digits, Hex, Pow, BitLen;
    var bits := BitLen(v);
    BitLenBound(v, bits);
    SmallPow(2);
    if radix == 16 {
      var k := (bits + 7) / 8;
      PowMono(2, bits, 8 * k);
      PowMul(2, 8, k);
      Pow2Eight(0);
      HexFits(v, k);
    } else if radix >= 4 {
      var k := (bits + 1) / 2;
      PowMono(2, bits, 2 * k);
      PowMul(2, 2, k);
      PowStep(2, 1);
      DigitsFit(v, radix, 4, k);
    } else {
      DigitsFit(v, radix, 2, bits);
    }
  }

  function Magnitude(v: nat, radix: nat): seq<Char>
    requires 2 <= radix <= 16
  {
    if radix == 16 then Hex(v) else Digits(v, radix)
  }

  /** What is written for a sign and limbs: without limbs, hexadecimal output has no digits at all. */
  function Text(s: int, limbs: nat, v: nat, radix: nat): seq<Char>
    requires 2 <= radix <= 16
  {
    (if s == -1 then [MINUS] else []) + if radix == 16 && limbs == 0 then [] else Magnitude(v, radix)
  }

  /** Reading what was written gives the number back, in every radix and for either sign. */
  lemma WrittenReadsBack(s: int, limbs: nat, v: nat, radix: nat)
    requires (s == 1 || s == -1) && 2 <= radix <= 16 && (limbs == 0 ==> v == 0)
    ensures var t := Text(s, limbs, v, radix); Parsed(t, radix) == Signed(s, v) && Numeral(Body(t), radix) && 0 !in t
  {
    hide Digits, Hex, NumeralValue, DigitValue;
    var t := Text(s, limbs, v, radix);
    var m := if radix == 16 && limbs == 0 then [] else Magnitude(v, radix);
    NoNumeral([], radix);
    if radix == 16 { HexRead(v); } else { DigitsRead(v, radix); }
    assert Body(t) == m;
  }

  // ----- the writers -----

  /** A digit as the string code writes it. */
  method WriteDigit(r: nat) returns (c: Char)
    requires r < 16
    ensures c == DigitChar(r)
  {
    if r < 0xA {
      c := '0' as int + r;
    } else {
      c := 'A' as int + (r - 0xA);
    }
  }

  /** mpi_write_hlp: divides X down to zero, filling the buffer from its end, then moves the digits to the front. */
  method WriteHelper(X: Mpi, radix: Limb, buf: array<Char>, p0: nat, buflen: nat) returns (ret: Ret, p: nat)
    requires X.Ok() && X.V() >= 0 && 2 <= radix <= 16 && p0 + buflen <= buf.Length
    modifies X, X.p, buf
    ensures ret == if |Digits(old(X.V()), radix)| <= buflen then Success else BufferTooSmall
    ensures ret == Success ==> p == p0 + |Digits(old(X.V()), radix)| && buf[..p] == old(buf[..p0]) + Digits(old(X.V()), radix)
  {
    hide Val, Signed, Digits, DigitChar;
    ghost var v, was := X.V(), buf[..];
    var length, p_end := 0, p0 + buflen;
    var more := true;
    while more
      invariant X.Ok() && X.V() >= 0 && (X.p == old(X.p) || fresh(X.p))
      invariant p_end + length == p0 + buflen && p0 <= p_end && buf[..p0] == was[..p0]
      invariant if more then Digits(v, radix) == Digits(X.V(), radix) + buf[p_end..p0 + buflen]
                else Digits(v, radix) == buf[p_end..p0 + buflen]
      decreases if more then 1 + X.V() else 0
    {
      if length >= buflen {
        return BufferTooSmall, p0;
      }
      p_end, more := NextDigit(X, radix, buf, p_end, p0 + buflen);
      length := length + 1;
    }
    MoveDown(buf, p0, p_end, length);
    p := p0 + length;
    ret := Success;
  }

  /** memmove towards the front. */
  method MoveDown(buf: array<Char>, to: nat, from: nat, length: nat)
    requires to <= from && from + length <= buf.Length
    modifies buf
    ensures buf[..to + length] == old(buf[..to]) + old(buf[from..from + length])
  {
    forall k | 0 <= k < length { buf[to + k] := buf[from + k]; }
  }

  /** One round: the next digit is the remainder by the radix, and X becomes the quotient. */
  method NextDigit(X: Mpi, radix: Limb, buf: array<Char>, p: nat, ghost end: nat) returns (p_end: nat, more: bool)
    requires X.Ok() && X.V() >= 0 && 2 <= radix <= 16 && 0 < p <= end <= buf.Length
    modifies X, X.p, buf
    ensures X.Ok() && (X.p == old(X.p) || fresh(X.p)) && 0 <= X.V()
    ensures p_end == p - 1 && buf[..p_end] == old(buf[..p_end])
    ensures more ==> X.V() < old(X.V()) && Digits(old(X.V()), radix) == Digits(X.V(), radix) + [buf[p_end]]
    ensures !more ==> Digits(old(X.V()), radix) == [buf[p_end]]
    ensures buf[p_end..end] == [buf[p_end]] + old(buf[p..end])
  {
    hide Val, Signed, Digits, DigitChar, TQuot;
    ghost var v := X.V();
    assert ModIntExact(radix);
    var _, r := ModInt(X, radix);
    QuotientOf(v, radix);
    var _ := DivInt(X, null, X, radix);
    var c := WriteDigit(r);
    p_end := p - 1;
    buf[p_end] := c;
    var sign := CmpInt(X, 0);
    more := sign != 0;
    assert buf[p_end..end] == [c] + old(buf[p..end]);
    DigitStep(v, radix);
  }

  lemma QuotientOf(v: nat, radix: nat)
    requires radix > 0
    ensures TQuot(SeenAs(v, true), radix) == v / radix >= 0
  {
    DivModDef(v, radix);
    if v / radix < 0 { MulLe(v / radix, -1, radix); }
  }

  lemma DigitStep(v: nat, radix: nat)
    requires 2 <= radix <= 16
    ensures 0 <= v / radix && v % radix < 16
    ensures v / radix == 0 ==> Digits(v, radix) == [DigitChar(v % radix)]
    ensures v / radix > 0 ==> v / radix < v && Digits(v, radix) == Digits(v / radix, radix) + [DigitChar(v % radix)]
  {
    DivModDef(v, radix);
    if v < radix { SmallMod(v, radix); } else { Smaller(v, radix); MulLe(1, v / radix, radix); }
  }

  const LIMB_BYTES: nat := LIMB_BITS / 8

  lemma ByteLimb()
    ensures Pow(256, LIMB_BYTES) == BASE && LIMB_BYTES > 0
  {
    RadixIsPower();
    Pow2Eight(0);
    SmallPow(2);
    PowMul(2, 8, LIMB_BYTES);
  }

  /** The number made of the octets of v from number m on. */
  function HighBytes(v: nat, m: nat): nat
  {
    PowPos(256, m);
    ShrBound(v, Pow(256, m));
    v / Pow(256, m)
  }

  lemma ScaleBytes(n: nat)
    ensures Scale(n) == Pow(256, n * LIMB_BYTES) > 0
  {
    ByteLimb();
    PowMul(256, LIMB_BYTES, n);
    ScalePos(n);
  }

  /** Dropping whole limbs and then octets of the next one. */
  lemma HighOf(s: seq<Limb>, i: nat, e: nat)
    requires i < |s|
    ensures Pow(256, e) > 0 && HighBytes(Val(s), i * LIMB_BYTES + e) == (s[i] + BASE * Val(s[i + 1..])) / Pow(256, e)
  {
    hide Val, Pow, Scale;
    ValSplit(s, i);
    ValSuffix(s, i);
    ValBound(s[..i]);
    ScaleBytes(i);
    PowPos(256, e);
    PowAdd(256, i * LIMB_BYTES, e);
    DivModUnique(Val(s), Scale(i), Val(s[i..]), Val(s[..i]));
    DivDiv(Val(s), Scale(i), Pow(256, e));
  }

  /** The octet taken from a limb is the octet of the number. */
  lemma ByteOf(s: seq<Limb>, i: nat, j: nat)
    requires 0 < i <= |s| && 0 < j <= LIMB_BYTES
    ensures var m := (i - 1) * LIMB_BYTES + j - 1;
            HighBytes(Val(s), m) == 256 * HighBytes(Val(s), m + 1) + Shr(s[i - 1], (j - 1) * 8) % 256
  {
    hide Val, Pow, Scale, HighBytes, Shr, LIMB_BYTES;
    var e := j - 1;
    HighOf(s, i - 1, e);
    LimbByte(s[i - 1], Val(s[i..]), e);
    NextHigh(Val(s), (i - 1) * LIMB_BYTES + j - 1);
  }

  lemma LimbByte(x: Limb, hi: nat, e: nat)
    requires e < LIMB_BYTES
    ensures Pow(256, e) > 0 && ((x + BASE * hi) / Pow(256, e)) % 256 == Shr(x, e * 8) % 256
  {
    hide Pow, LIMB_BYTES;
    ByteLimb();
    PowPos(256, e);
    PowAdd(256, e, LIMB_BYTES - e);
    PowStep(256, LIMB_BYTES - e - 1);
    UpperBytes(x, hi, Pow(256, e), Pow(256, LIMB_BYTES - e - 1));
    PowMul(2, 8, e);
    Pow2Eight(0);
    SmallPow(2);
  }

  lemma UpperBytes(x: nat, hi: nat, p: nat, r: nat)
    requires p > 0 && BASE == p * (256 * r)
    ensures 0 <= x / p && ((x + BASE * hi) / p) % 256 == (x / p) % 256
  {
    ShrBound(x, p);
    var q := x / p;
    DivModDef(x, p);
    var t := 256 * r * hi;
    assert BASE * hi == t * p by { MulAssoc(p, 256 * r, hi); }
    MulDist(p, q, t);
    DivModUnique(x + BASE * hi, p, q + t, x % p);
    assert t == 256 * (r * hi) by { MulAssoc(256, r, hi); }
    DivModDef(q, 256);
    DivModUnique(q + t, 256, q / 256 + r * hi, q % 256);
  }

  lemma NextHigh(v: nat, m: nat)
    ensures HighBytes(v, m) == 256 * HighBytes(v, m + 1) + HighBytes(v, m) % 256
  {
    hide Pow;
    PowPos(256, m);
    PowStep(256, m);
    DivDiv(v, Pow(256, m), 256);
    DivModDef(HighBytes(v, m), 256);
  }

  /** How far hexadecimal output has come when the octets below number m are left, and whether one was written. */
  ghost predicate Written(t: seq<Char>, k: bool, v: nat, m: nat)
  {
    if k then t == Hex(HighBytes(v, m)) && (HighBytes(v, m) > 0 || m == 0)
    else t == [] && HighBytes(v, m) == 0 && m > 0
  }

  lemma WrittenStart(s: seq<Limb>)
    requires |s| > 0
    ensures Written([], false, Val(s), |s| * LIMB_BYTES)
  {
    hide Val, Pow;
    ByteLimb();
    ValBound(s);
    PowMul(256, LIMB_BYTES, |s|);
    SmallMod(Val(s), Scale(|s|));
    MulPos(|s|, LIMB_BYTES);
  }

  /** The octets still to come fit in the room the numeral has. */
  lemma {:induction false} HexRoom(v: nat, m: nat)
    requires HighBytes(v, m) > 0 || m == 0
    ensures |Hex(HighBytes(v, m))| + 2 * m == |Hex(v)|
  {
    hide HighBytes, Pair;
    if m > 0 {
      var c := HighBytes(v, m - 1) % 256;
      NextHigh(v, m - 1);
      HexRoom(v, m - 1);
      assert HighBytes(v, m - 1) / 256 == HighBytes(v, m);
    } else {
      HighBytes0(v);
    }
  }

  lemma HighBytes0(v: nat)
    ensures HighBytes(v, 0) == v
  {}

  lemma WrittenStep(t: seq<Char>, k: bool, v: nat, m: nat, c: nat)
    requires m > 0 && Written(t, k, v, m) && c < 256 && HighBytes(v, m - 1) == 256 * HighBytes(v, m) + c
    ensures c == 0 && !k && m != 1 ==> Written(t, k, v, m - 1)
    ensures !(c == 0 && !k && m != 1) ==> Written(t + Pair(c), true, v, m - 1) && |t| + 2 <= |Hex(v)|
  {
    hide HighBytes, Pair;
    if !(c == 0 && !k && m != 1) {
      var w, w' := HighBytes(v, m), HighBytes(v, m - 1);
      assert w' / 256 == w && w' % 256 == c;
      assert t + Pair(c) == Hex(w');
      HexRoom(v, m - 1);
    }
  }

  method WriteByte(c: nat, buf: array<Char>, p0: nat) returns (p: nat)
    requires c < 256 && p0 + 2 <= buf.Length
    modifies buf
    ensures p == p0 + 2 && buf[..p] == old(buf[..p0]) + Pair(c)
  {
    buf[p0] := DigitChar(c / 16);
    buf[p0 + 1] := DigitChar(c % 16);
    p := p0 + 2;
    assert buf[..p] == old(buf[..p0]) + Pair(c);
  }

  /** One octet: leading zero octets are skipped, but not the last one. head is the buffer before the numeral and
      t what was written of it. */
  method HexStep(X: array<Limb>, i: nat, j: nat, k0: bool, buf: array<Char>, p0: nat, ghost head: seq<Char>, ghost t: seq<Char>, ghost m: nat)
    returns (k: bool, p: nat, ghost t': seq<Char>)
    requires 0 < i <= X.Length && 0 < j <= LIMB_BYTES && |head| + |Hex(Val(X[..]))| <= buf.Length
    requires p0 <= buf.Length && buf[..p0] == head + t
    requires m == (i - 1) * LIMB_BYTES + j && m > 0 && Written(t, k0, Val(X[..]), m)
    modifies buf
    ensures p <= buf.Length && buf[..p] == head + t'
    ensures Written(t', k, Val(X[..]), m - 1)
  {
    hide Val, Written, Hex, HighBytes, Shr, Pair;
    ByteOf(X[..], i, j);
    OneLeft(i, j);
    k, p, t' := k0, p0, t;
    var c := Shr(X[i - 1], (j - 1) * 8) % 256;
    WrittenStep(t, k0, Val(X[..]), m, c);
    if c == 0 && !k && i + j != 2 {
    } else {
      p := WriteByte(c, buf, p);
      t' := t + Pair(c);
      k := true;
    }
  }

  lemma OneLeft(i: nat, j: nat)
    requires 0 < i && 0 < j
    ensures i + j == 2 <==> (i - 1) * LIMB_BYTES + j == 1
  {
    ByteLimb();
    if i > 1 { MulLe(1, i - 1, LIMB_BYTES); }
  }

  method WriteHex(X: array<Limb>, buf: array<Char>, p0: nat) returns (p: nat)
    requires p0 + (if X.Length == 0 then 0 else |Hex(Val(X[..]))|) <= buf.Length
    modifies buf
    ensures p <= buf.Length && buf[..p] == old(buf[..p0]) + if X.Length == 0 then [] else Hex(Val(X[..]))
  {
    hide Val, Written, Hex;
    ghost var head, t: seq<Char> := buf[..p0], [];
    var i: nat, k := X.Length, false;
    p := p0;
    if i > 0 { WrittenStart(X[..]); }
    while i > 0
      invariant i <= X.Length && p <= buf.Length && buf[..p] == head + t
      invariant if X.Length > 0 then Written(t, k, Val(X[..]), i * LIMB_BYTES) else t == []
    {
      k, p, t := WriteLimb(X, i, k, buf, p, head, t);
      i := i - 1;
    }
    if X.Length > 0 { WrittenEnd(t, k, Val(X[..])); }
  }

  lemma WrittenEnd(t: seq<Char>, k: bool, v: nat)
    requires Written(t, k, v, 0)
    ensures t == Hex(v)
  {
    HighBytes0(v);
  }

  /** The inner loop: the octets of one limb. */
  method WriteLimb(X: array<Limb>, i: nat, k0: bool, buf: array<Char>, p0: nat, ghost head: seq<Char>, ghost t: seq<Char>)
    returns (k: bool, p: nat, ghost t': seq<Char>)
    requires 0 < i <= X.Length && p0 <= buf.Length && |head| + |Hex(Val(X[..]))| <= buf.Length
    requires buf[..p0] == head + t && Written(t, k0, Val(X[..]), i * LIMB_BYTES)
    modifies buf
    ensures p <= buf.Length && buf[..p] == head + t' && Written(t', k, Val(X[..]), (i - 1) * LIMB_BYTES)
  {
    hide Val, Written, Hex;
    k, p, t' := k0, p0, t;
    var j := LIMB_BYTES;
    MulDist(LIMB_BYTES, i - 1, 1);
    while j > 0
      invariant 0 <= j <= LIMB_BYTES && p <= buf.Length && buf[..p] == head + t'
      invariant Written(t', k, Val(X[..]), (i - 1) * LIMB_BYTES + j)
    {
      k, p, t' := HexStep(X, i, j, k, buf, p, head, t', (i - 1) * LIMB_BYTES + j);
      j := j - 1;
    }
  }

  /** mbedtls_mpi_write_string. The text is followed by a zero byte. */
  method WriteString(X: Mpi, radix: nat, buf: array<Char>, buflen0: nat) returns (ret: Ret, olen: nat)
    requires X.Ok() && buflen0 <= buf.Length
    modifies buf
    ensures ret == if radix < 2 || radix > 16 then BadInputData
                   else if buflen0 < Needed(BitLen(X.Abs()), radix) then BufferTooSmall else Success
    ensures ret == BufferTooSmall ==> olen == Needed(BitLen(X.Abs()), radix)
    ensures ret != Success ==> buf[..] == old(buf[..])
    ensures ret == Success ==> olen <= buf.Length && buf[..olen] == Text(X.s, X.p.Length, X.Abs(), radix) + [0]
  {
    hide Val, Hex, Digits, BitLen, Signed;
    if radix < 2 || radix > 16 {
      return BadInputData, 0;
    }
    var n := Bitlen(X);
    n := Needed(n, radix);
    var buflen := buflen0;
    if buflen < n {
      return BufferTooSmall, n;
    }
    EstimateSuffices(X.Abs(), radix);
    var p := 0;
    if X.s == -1 {
      buf[p] := MINUS;
      p := p + 1;
      buflen := buflen - 1;
    }
    ghost var head := buf[..p];
    assert head == if X.s == -1 then [MINUS] else [];
    if radix == 16 {
      p := WriteHex(X.p, buf, p);
    } else {
      ret, p := WriteDigits(X, radix, buf, p, buflen);
    }
    buf[p] := 0;
    p := p + 1;
    assert buf[..p] == Text(X.s, X.p.Length, X.Abs(), radix) + [0];
    olen := p;
    ret := Success;
  }

  method WriteDigits(X: Mpi, radix: Limb, buf: array<Char>, p0: nat, buflen: nat) returns (ret: Ret, p: nat)
    requires X.Ok() && 2 <= radix <= 16 && p0 + buflen <= buf.Length
    modifies buf
    ensures ret == if |Digits(X.Abs(), radix)| <= buflen then Success else BufferTooSmall
    ensures ret == Success ==> p == p0 + |Digits(X.Abs(), radix)| && buf[..p] == old(buf[..p0]) + Digits(X.Abs(), radix)
  {
    hide Val, Digits;
    var T := new Mpi.Init();
    MpiCopy(T, X);
    if T.s == -1 {
      T.s := 1;
    }
    ret, p := WriteHelper(T, radix, buf, p0, buflen);
  }
}
