/** bignum_core.c: leading zeros and bit length, and single bits of a limb sequence. */
module BitLength {
  import opened Arith
  import opened NumberTheory
  import opened Limbs
  import opened Words

  /** The number of leading zero bits of a limb. */
  method Clz(a: Limb) returns (j: nat)
    ensures j <= LIMB_BITS && LIMB_BITS - j == BitLen(a)
  {
    hide BitLen, Pow;
    var mask := BASE / 2;
    RadixIsPower();
    PowNext(LIMB_BITS - 1);
    j := 0;
    while j < LIMB_BITS
      invariant j <= LIMB_BITS && a < Pow(2, LIMB_BITS - j)
      invariant j < LIMB_BITS ==> mask == Pow(2, LIMB_BITS - j - 1)
    {
      PowNext(LIMB_BITS - j - 1);
      PowPos(2, LIMB_BITS - j - 1);
      TopBitSet(a, mask);
      if (a / mask) % 2 == 1 {
        break;
      }
      if j + 1 < LIMB_BITS { PowNext(LIMB_BITS - j - 2); }
      mask := mask / 2;
      j := j + 1;
    }
    if j < LIMB_BITS {
      BitLenBound(a, LIMB_BITS - j - 1);
    } else {
      PowZero();
      BitLenBound(a, 0);
    }
    BitLenBound(a, LIMB_BITS - j);
  }

  lemma TopBitSet(a: nat, mask: nat)
    requires mask > 0 && a < 2 * mask
    ensures (a / mask) % 2 == 1 <==> a >= mask
  {
    if a >= mask { DivModUnique(a, mask, 1, a - mask); } else { SmallMod(a, mask); }
  }

  /** The bit length of a number. */
  method CoreBitlen(A: array<Limb>, ao: nat, limbs: nat) returns (r: nat)
    requires ao + limbs <= A.Length
    ensures r == BitLen(Val(A[ao..ao + limbs]))
  {
    hide Val, BitLen;
    ghost var s := A[ao..ao + limbs];
    var i := limbs;
    assert s[..i] == s;
    while i > 0
      invariant 0 <= i <= limbs && Val(s[..i]) == Val(s)
    {
      i := i - 1;
      var a := A[ao + i];
      assert a == s[i];
      ValPrefix(s, i);
      if a != 0 {
        var z := Clz(a);
        TopLimbBits(s[..i + 1], i);
        return i * LIMB_BITS + (LIMB_BITS - z);
      }
      assert Scale(i) * 0 == 0;
    }
    ZeroBits(s);
    r := 0;
  }

  lemma ZeroBits(s: seq<Limb>)
    requires Val(s[..0]) == Val(s)
    ensures BitLen(Val(s)) == 0
  {
    assert s[..0] == [];
  }

  lemma TopLimbBits(s: seq<Limb>, i: nat)
    requires |s| == i + 1 && s[i] != 0
    ensures BitLen(Val(s)) == i * LIMB_BITS + BitLen(s[i])
  {
    hide *;
    var l := BitLen(s[i]);
    assert s[..i + 1] == s;
    ValPrefix(s, i);
    ValBound(s[..i]);
    ScaleIsPower(i);
    var p := Scale(i);
    BitLenBound(s[i], l);
    BitLenSmall(s[i], l);
    PowAdd(2, LIMB_BITS * i, l);
    MulLe((s[i] as int) + 1, Pow(2, l), p);
    MulDist(p, s[i], 1);
    BitLenBound(Val(s), LIMB_BITS * i + l);
    PowAdd(2, LIMB_BITS * i, l - 1);
    MulLe(Pow(2, l - 1), s[i], p);
    BitLenBound(Val(s), LIMB_BITS * i + (l - 1));
  }

  lemma BitLenSmall(x: nat, l: nat)
    requires x > 0 && l == BitLen(x)
    ensures l > 0 && Pow(2, l - 1) <= x
  {
    BitLenBound(x, l - 1);
  }

  /** A number has at most biL bits for each of its limbs. */
  lemma LimbsBits(s: seq<Limb>)
    ensures BitLen(Val(s)) <= |s| * LIMB_BITS
  {
    hide *;
    ValBound(s);
    ScaleIsPower(|s|);
    BitLenBound(Val(s), LIMB_BITS * |s|);
  }

  /** Bit j of x. */
  function BitAt(x: nat, j: nat): nat
  {
    PowPos(2, j);
    (x / Pow(2, j)) % 2
  }

  /** The bits of a number are the bits of its limbs. */
  lemma LimbBit(s: seq<Limb>, l: nat, b: nat)
    requires l < |s| && b < LIMB_BITS
    ensures BitAt(Val(s), l * LIMB_BITS + b) == BitAt(s[l], b)
  {
    hide *;
    var hi := Val(s[l + 1..]);
    ValSplit(s, l);
    ValSuffix(s, l);
    ValBound(s[..l]);
    ScalePos(l);
    ScaleIsPower(l);
    DivModUnique(Val(s), Scale(l), Val(s[l..]), Val(s[..l]));
    PowAdd(2, LIMB_BITS * l, b);
    PowPos(2, LIMB_BITS * l + b);
    PowPos(2, b);
    DivDiv(Val(s), Scale(l), Pow(2, b));
    BitAtDef(Val(s), l * LIMB_BITS + b);
    BitAtDef(s[l], b);
    PowAdd(2, LIMB_BITS - b - 1, b + 1);
    PowNext(b);
    RadixIsPower();
    HighBits(s[l], Pow(2, b), Pow(2, LIMB_BITS - b - 1), hi);
  }

  lemma BitAtDef(x: nat, j: nat)
    ensures Pow(2, j) > 0 && BitAt(x, j) == (x / Pow(2, j)) % 2
  {
    PowPos(2, j);
  }

  /** Limbs above contribute a multiple of two to x >> b. */
  lemma HighBits(x: nat, p: nat, h: nat, hi: nat)
    requires p > 0 && BASE == h * (2 * p)
    ensures ((x + BASE * hi) / p) % 2 == (x / p) % 2
  {
    hide *;
    DivModDef(x, p);
    var k := h * hi;
    calc {
      BASE * hi;
      { MulAssoc(h, 2 * p, hi); }
      h * ((2 * p) * hi);
      { MulAssoc(h, hi, 2 * p); }
      k * (2 * p);
      { MulAssoc(k, 2, p); }
      (2 * k) * p;
    }
    MulDist(p, x / p, 2 * k);
    DivModUnique(x + BASE * hi, p, x / p + 2 * k, x % p);
    CongIntro(x / p + 2 * k, x / p, 2, k);
  }

  /** Taking one more bit from the top. */
  lemma NextBit(x: nat, pos: nat)
    ensures Pow(2, pos) > 0 && Pow(2, pos + 1) > 0
    ensures x / Pow(2, pos) == 2 * (x / Pow(2, pos + 1)) + BitAt(x, pos)
  {
    hide *;
    PowPos(2, pos);
    PowPos(2, pos + 1);
    PowNext(pos);
    BitAtDef(x, pos);
    DivDiv(x, Pow(2, pos), 2);
    DivModDef(x / Pow(2, pos), 2);
  }
}
