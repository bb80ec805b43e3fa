/** The diffusion layer of ARIA (RFC 5794, section 2.4.3) as sixteen sums of bytes, and its algebra. */
module AriaDiffusion {
  import opened Bytes

  /** The sum (exclusive-or) of the bytes s[k] for which bit k of m is set. */
  function Lin(m: bv16, s: seq<Byte>): Byte
  {
    if |s| == 0 then 0 else XorByte(Keep(m, s[0]), Lin(m >> 1, s[1..]))
  }

  function Keep(m: bv16, b: Byte): Byte
  {
    if m & 1 == 1 then b else 0
  }

  /** The terms of output byte i, as listed in the standard: bit k for x_k. */
  function Row(i: nat): bv16
    requires i < 16
  {
    if i == 0 then 0x6358               // x3 x4 x6 x8 x9 x13 x14
    else if i == 1 then 0x93A4          // x2 x5 x7 x8 x9 x12 x15
    else if i == 2 then 0x9C52          // x1 x4 x6 x10 x11 x12 x15
    else if i == 3 then 0x6CA1          // x0 x5 x7 x10 x11 x13 x14
    else if i == 4 then 0xC925          // x0 x2 x5 x8 x11 x14 x15
    else if i == 5 then 0xC61A          // x1 x3 x4 x9 x10 x14 x15
    else if i == 6 then 0x3685          // x0 x2 x7 x9 x10 x12 x13
    else if i == 7 then 0x394A          // x1 x3 x6 x8 x11 x12 x13
    else if i == 8 then 0xA493          // x0 x1 x4 x7 x10 x13 x15
    else if i == 9 then 0x5863          // x0 x1 x5 x6 x11 x12 x14
    else if i == 10 then 0xA16C         // x2 x3 x5 x6 x8 x13 x15
    else if i == 11 then 0x529C         // x2 x3 x4 x7 x9 x12 x14
    else if i == 12 then 0x1AC6         // x1 x2 x6 x7 x9 x11 x12
    else if i == 13 then 0x25C9         // x0 x3 x6 x7 x8 x10 x13
    else if i == 14 then 0x4A39         // x0 x3 x4 x5 x9 x11 x14
    else 0x8536                         // x1 x2 x4 x5 x8 x10 x15
  }

  /** y = A(x). */
  function A(x: Block): Block
  {
    seq(16, i requires 0 <= i < 16 => Lin(Row(i), x))
  }

  function XorMask(m: bv16, n: bv16): bv16
  {
    m ^ n
  }

  lemma {:induction false} LinXor(m: bv16, n: bv16, s: seq<Byte>)
    ensures Lin(XorMask(m, n), s) == XorByte(Lin(m, s), Lin(n, s))
  {
    hide XorByte, XorMask;
    if |s| == 0 {
      XorZero(0);
    } else {
      var p, q := Lin(m >> 1, s[1..]), Lin(n >> 1, s[1..]);
      LinXor(m >> 1, n >> 1, s[1..]);
      MaskBits(m, n);
      Interchange(Keep(m, s[0]), Keep(n, s[0]), p, q);
      XorZero(s[0]);
      XorZero(0);
    }
  }

  lemma MaskBits(m: bv16, n: bv16)
    ensures XorMask(m, n) >> 1 == XorMask(m >> 1, n >> 1)
    ensures (XorMask(m, n) & 1 == 1) <==> ((m & 1 == 1) != (n & 1 == 1))
  {}

  lemma XorZero(a: Byte)
    ensures XorByte(a, 0) == a && XorByte(0, a) == a && XorByte(a, a) == 0
  {}

  lemma XorAssoc(a: Byte, b: Byte, c: Byte)
    ensures XorByte(XorByte(a, b), c) == XorByte(a, XorByte(b, c))
  {}

  lemma XorComm(a: Byte, b: Byte)
    ensures XorByte(a, b) == XorByte(b, a)
  {}

  lemma Interchange(a: Byte, b: Byte, p: Byte, q: Byte)
    ensures XorByte(XorByte(a, b), XorByte(p, q)) == XorByte(XorByte(a, p), XorByte(b, q))
  {
    hide XorByte;
    XorAssoc(a, b, XorByte(p, q));
    XorAssoc(b, p, q);
    XorComm(b, p);
    XorAssoc(p, b, q);
    XorAssoc(a, p, XorByte(b, q));
  }

  lemma {:induction false} LinZero(s: seq<Byte>)
    ensures Lin(0, s) == 0
  {
    if |s| > 0 { LinZero(s[1..]); }
  }

  /** A sum of bytes is linear in the bytes. */
  lemma {:induction false} LinAdd(m: bv16, s: seq<Byte>, t: seq<Byte>)
    requires |s| == |t|
    ensures Lin(m, Xor(s, t)) == XorByte(Lin(m, s), Lin(m, t))
  {
    hide XorByte;
    XorZero(0);
    if |s| > 0 {
      assert Xor(s, t)[1..] == Xor(s[1..], t[1..]);
      LinAdd(m >> 1, s[1..], t[1..]);
      Interchange(Keep(m, s[0]), Keep(m, t[0]), Lin(m >> 1, s[1..]), Lin(m >> 1, t[1..]));
    }
  }

  /** A is linear. */
  lemma ALinear(x: Block, y: Block)
    ensures A(XorBlock(x, y)) == XorBlock(A(x), A(y))
  {
    hide Lin, Row;
    forall i | 0 <= i < 16
      ensures A(XorBlock(x, y))[i] == XorBlock(A(x), A(y))[i]
    {
      LinAdd(Row(i), x, y);
    }
  }

  // ----- A is an involution -----

  /** The mask with bit k alone. */
  function Unit(k: nat): bv16
    requires k < 16
  {
    if k == 0 then 0x0001
    else if k == 1 then 0x0002
    else if k == 2 then 0x0004
    else if k == 3 then 0x0008
    else if k == 4 then 0x0010
    else if k == 5 then 0x0020
    else if k == 6 then 0x0040
    else if k == 7 then 0x0080
    else if k == 8 then 0x0100
    else if k == 9 then 0x0200
    else if k == 10 then 0x0400
    else if k == 11 then 0x0800
    else if k == 12 then 0x1000
    else if k == 13 then 0x2000
    else if k == 14 then 0x4000
    else 0x8000
  }

  lemma {:induction false} LinUnit(k: nat, s: seq<Byte>)
    requires k < |s| && k < 16
    ensures Lin(Unit(k), s) == s[k]
  {
    if k == 0 {
      LinZero(s[1..]);
    } else {
      LinUnit(k - 1, s[1..]);
    }
  }

  function KeepMask(m: bv16, r: bv16): bv16
  {
    if m & 1 == 1 then r else 0
  }

  /** The sum of the rows k, k + 1, ... picked by the bits of m. */
  function SumRows(m: bv16, k: nat): bv16
    requires k <= 16
    decreases 16 - k
  {
    if k == 16 then 0 else XorMask(KeepMask(m, Row(k)), SumRows(m >> 1, k + 1))
  }

  /** Summing outputs of A is summing the inputs picked by the sum of their rows. */
  lemma {:induction false} LinRows(m: bv16, k: nat, x: Block)
    requires k <= 16
    ensures Lin(m, A(x)[k..]) == Lin(SumRows(m, k), x)
    decreases 16 - k
  {
    hide Row, XorMask, XorByte;
    if k == 16 {
      LinZero(x);
    } else {
      var y := A(x);
      assert y[k..][1..] == y[k + 1..];
      LinRows(m >> 1, k + 1, x);
      LinXor(KeepMask(m, Row(k)), SumRows(m >> 1, k + 1), x);
      LinZero(x);
    }
  }

  /** SumRows, unrolled. */
  function Unrolled(m: bv16): bv16
  {
    XorMask(KeepMask(m, 0x6358), XorMask(KeepMask(m >> 1, 0x93A4), XorMask(KeepMask(m >> 2, 0x9C52), XorMask(KeepMask(m >> 3, 0x6CA1),
      XorMask(KeepMask(m >> 4, 0xC925), XorMask(KeepMask(m >> 5, 0xC61A), XorMask(KeepMask(m >> 6, 0x3685), XorMask(KeepMask(m >> 7, 0x394A),
      XorMask(KeepMask(m >> 8, 0xA493), XorMask(KeepMask(m >> 9, 0x5863), XorMask(KeepMask(m >> 10, 0xA16C), XorMask(KeepMask(m >> 11, 0x529C),
      XorMask(KeepMask(m >> 12, 0x1AC6), XorMask(KeepMask(m >> 13, 0x25C9), XorMask(KeepMask(m >> 14, 0x4A39), XorMask(KeepMask(m >> 15, 0x8536), 0))))))))))))))))
  }

  lemma Shifts(m: bv16)
    ensures (m >> 1) >> 1 == m >> 2 && (m >> 2) >> 1 == m >> 3 && (m >> 3) >> 1 == m >> 4 && (m >> 4) >> 1 == m >> 5 && (m >> 5) >> 1 == m >> 6 && (m >> 6) >> 1 == m >> 7 && (m >> 7) >> 1 == m >> 8
    ensures (m >> 8) >> 1 == m >> 9 && (m >> 9) >> 1 == m >> 10 && (m >> 10) >> 1 == m >> 11 && (m >> 11) >> 1 == m >> 12 && (m >> 12) >> 1 == m >> 13 && (m >> 13) >> 1 == m >> 14 && (m >> 14) >> 1 == m >> 15 && (m >> 15) >> 1 == m >> 16
  {}

  lemma SumUnrolled(m: bv16)
    ensures SumRows(m, 0) == Unrolled(m)
  {
    hide KeepMask, XorMask;
    Shifts(m);
    assert SumRows(m >> 15, 15) == XorMask(KeepMask(m >> 15, Row(15)), SumRows(m >> 16, 16));
    assert SumRows(m >> 14, 14) == XorMask(KeepMask(m >> 14, Row(14)), SumRows(m >> 15, 15));
    assert SumRows(m >> 13, 13) == XorMask(KeepMask(m >> 13, Row(13)), SumRows(m >> 14, 14));
    assert SumRows(m >> 12, 12) == XorMask(KeepMask(m >> 12, Row(12)), SumRows(m >> 13, 13));
    assert SumRows(m >> 11, 11) == XorMask(KeepMask(m >> 11, Row(11)), SumRows(m >> 12, 12));
    assert SumRows(m >> 10, 10) == XorMask(KeepMask(m >> 10, Row(10)), SumRows(m >> 11, 11));
    assert SumRows(m >> 9, 9) == XorMask(KeepMask(m >> 9, Row(9)), SumRows(m >> 10, 10));
    assert SumRows(m >> 8, 8) == XorMask(KeepMask(m >> 8, Row(8)), SumRows(m >> 9, 9));
    assert SumRows(m >> 7, 7) == XorMask(KeepMask(m >> 7, Row(7)), SumRows(m >> 8, 8));
    assert SumRows(m >> 6, 6) == XorMask(KeepMask(m >> 6, Row(6)), SumRows(m >> 7, 7));
    assert SumRows(m >> 5, 5) == XorMask(KeepMask(m >> 5, Row(5)), SumRows(m >> 6, 6));
    assert SumRows(m >> 4, 4) == XorMask(KeepMask(m >> 4, Row(4)), SumRows(m >> 5, 5));
    assert SumRows(m >> 3, 3) == XorMask(KeepMask(m >> 3, Row(3)), SumRows(m >> 4, 4));
    assert SumRows(m >> 2, 2) == XorMask(KeepMask(m >> 2, Row(2)), SumRows(m >> 3, 3));
    assert SumRows(m >> 1, 1) == XorMask(KeepMask(m >> 1, Row(1)), SumRows(m >> 2, 2));
    assert SumRows(m, 0) == XorMask(KeepMask(m, Row(0)), SumRows(m >> 1, 1));
  }

  lemma RowsCancel(i: nat)
    requires i < 16
    ensures Unrolled(Row(i)) == Unit(i)
  {
    match i
    case 0 => case 1 => case 2 => case 3 => case 4 => case 5 => case 6 => case 7 =>
    case 8 => case 9 => case 10 => case 11 => case 12 => case 13 => case 14 => case _ =>
  }

  /** Applying A twice gives the input back. */
  lemma AInvolution(x: Block)
    ensures A(A(x)) == x
  {
    hide Lin, Row, Unit, SumRows, Unrolled;
    forall i | 0 <= i < 16
      ensures A(A(x))[i] == x[i]
    {
      LinRows(Row(i), 0, x);
      assert A(x)[0..] == A(x);
      SumUnrolled(Row(i));
      RowsCancel(i);
      LinUnit(i, x);
    }
  }
}
