/** aria.c: the block cipher ARIA on 32-bit words, and why one routine both encrypts and decrypts. */
module Aria {
  import opened Bytes
  import opened AriaTables
  import opened AriaDiffusion

  // ----- words -----

  /** A uint32_t. */
  datatype Word = Word(bits: bv32)

  function Le32(p: Byte, q: Byte, r: Byte, s: Byte): Word
  {
    Word((p as bv32) | ((q as bv32) << 8) | ((r as bv32) << 16) | ((s as bv32) << 24))
  }

  /** MBEDTLS_BYTE_0 to MBEDTLS_BYTE_3. */
  function Byte0(w: Word): Byte { (w.bits & 0xFF) as bv8 }
  function Byte1(w: Word): Byte { ((w.bits >> 8) & 0xFF) as bv8 }
  function Byte2(w: Word): Byte { ((w.bits >> 16) & 0xFF) as bv8 }
  function Byte3(w: Word): Byte { ((w.bits >> 24) & 0xFF) as bv8 }

  function XorWord(x: Word, y: Word): Word { Word(x.bits ^ y.bits) }

  /** ARIA_P1 to ARIA_P3: swap pairs of bytes, rotate by 16 bits, reverse the bytes. */
  function P1(x: Word): Word { Word(((x.bits >> 8) & 0x00FF00FF) ^ ((x.bits & 0x00FF00FF) << 8)) }
  function P2(x: Word): Word { Word((x.bits >> 16) ^ (x.bits << 16)) }
  function P3(x: Word): Word
  {
    Word((x.bits >> 24) | ((x.bits >> 8) & 0x0000FF00) | ((x.bits << 8) & 0x00FF0000) | (x.bits << 24))
  }

  lemma BytesOfWord(p: Byte, q: Byte, r: Byte, s: Byte)
    ensures Byte0(Le32(p, q, r, s)) == p && Byte1(Le32(p, q, r, s)) == q
    ensures Byte2(Le32(p, q, r, s)) == r && Byte3(Le32(p, q, r, s)) == s
  {}

  lemma WordOfBytes(w: Word)
    ensures Le32(Byte0(w), Byte1(w), Byte2(w), Byte3(w)) == w
  {}

  lemma P1Bytes(p: Byte, q: Byte, r: Byte, s: Byte)
    ensures P1(Le32(p, q, r, s)) == Le32(q, p, s, r)
  {}

  lemma P2Bytes(p: Byte, q: Byte, r: Byte, s: Byte)
    ensures P2(Le32(p, q, r, s)) == Le32(r, s, p, q)
  {}

  lemma XorBytes(p: Byte, q: Byte, r: Byte, s: Byte, t: Byte, u: Byte, v: Byte, w: Byte)
    ensures XorWord(Le32(p, q, r, s), Le32(t, u, v, w)) == Le32(XorByte(p, t), XorByte(q, u), XorByte(r, v), XorByte(s, w))
  {}

  /** The state (a, b, c, d), and a round key. */
  datatype Quad = Quad(a: Word, b: Word, c: Word, d: Word)

  function ToBlock(q: Quad): Block
  {
    [Byte0(q.a), Byte1(q.a), Byte2(q.a), Byte3(q.a), Byte0(q.b), Byte1(q.b), Byte2(q.b), Byte3(q.b),
     Byte0(q.c), Byte1(q.c), Byte2(q.c), Byte3(q.c), Byte0(q.d), Byte1(q.d), Byte2(q.d), Byte3(q.d)]
  }

  function FromBlock(x: Block): Quad
  {
    Quad(Le32(x[0], x[1], x[2], x[3]), Le32(x[4], x[5], x[6], x[7]),
         Le32(x[8], x[9], x[10], x[11]), Le32(x[12], x[13], x[14], x[15]))
  }

  lemma QuadOfBlock(q: Quad)
    ensures FromBlock(ToBlock(q)) == q
  {
    hide Le32, Byte0, Byte1, Byte2, Byte3;
    WordOfBytes(q.a);
    WordOfBytes(q.b);
    WordOfBytes(q.c);
    WordOfBytes(q.d);
  }

  lemma BlockOfQuad(x: Block)
    ensures ToBlock(FromBlock(x)) == x
  {
    hide Le32, Byte0, Byte1, Byte2, Byte3;
    BytesOfWord(x[0], x[1], x[2], x[3]);
    BytesOfWord(x[4], x[5], x[6], x[7]);
    BytesOfWord(x[8], x[9], x[10], x[11]);
    BytesOfWord(x[12], x[13], x[14], x[15]);
  }

  function XorQuad(q: Quad, k: Quad): Quad
  {
    Quad(XorWord(q.a, k.a), XorWord(q.b, k.b), XorWord(q.c, k.c), XorWord(q.d, k.d))
  }

  lemma XorQuadIs(x: Block, y: Block)
    ensures XorQuad(FromBlock(x), FromBlock(y)) == FromBlock(XorBlock(x, y))
  {
    hide Le32, XorWord, XorByte;
    XorBytes(x[0], x[1], x[2], x[3], y[0], y[1], y[2], y[3]);
    XorBytes(x[4], x[5], x[6], x[7], y[4], y[5], y[6], y[7]);
    XorBytes(x[8], x[9], x[10], x[11], y[8], y[9], y[10], y[11]);
    XorBytes(x[12], x[13], x[14], x[15], y[12], y[13], y[14], y[15]);
  }

  // ----- the affine transform -----

  /** For each byte of a word, the input bytes it is the sum of. */
  datatype Masks = Masks(m0: bv16, m1: bv16, m2: bv16, m3: bv16)

  function SumWord(m: Masks, x: Block): Word
  {
    Le32(Lin(m.m0, x), Lin(m.m1, x), Lin(m.m2, x), Lin(m.m3, x))
  }

  function XorMasks(m: Masks, n: Masks): Masks
  {
    Masks(XorMask(m.m0, n.m0), XorMask(m.m1, n.m1), XorMask(m.m2, n.m2), XorMask(m.m3, n.m3))
  }

  lemma SumXor(m: Masks, n: Masks, x: Block)
    ensures XorWord(SumWord(m, x), SumWord(n, x)) == SumWord(XorMasks(m, n), x)
  {
    hide Le32, XorWord, XorByte, XorMask, Lin;
    XorBytes(Lin(m.m0, x), Lin(m.m1, x), Lin(m.m2, x), Lin(m.m3, x), Lin(n.m0, x), Lin(n.m1, x), Lin(n.m2, x), Lin(n.m3, x));
    LinXor(m.m0, n.m0, x);
    LinXor(m.m1, n.m1, x);
    LinXor(m.m2, n.m2, x);
    LinXor(m.m3, n.m3, x);
  }

  lemma SumP1(m: Masks, x: Block)
    ensures P1(SumWord(m, x)) == SumWord(Masks(m.m1, m.m0, m.m3, m.m2), x)
  {
    hide Le32, P1, Lin;
    P1Bytes(Lin(m.m0, x), Lin(m.m1, x), Lin(m.m2, x), Lin(m.m3, x));
  }

  lemma SumP2(m: Masks, x: Block)
    ensures P2(SumWord(m, x)) == SumWord(Masks(m.m2, m.m3, m.m0, m.m1), x)
  {
    hide Le32, P2, Lin;
    P2Bytes(Lin(m.m0, x), Lin(m.m1, x), Lin(m.m2, x), Lin(m.m3, x));
  }

  /** The input words are the sums of one byte each. */
  lemma SumInput(q: Quad, x: Block)
    requires x == ToBlock(q)
    ensures q.a == SumWord(Masks(0x0001, 0x0002, 0x0004, 0x0008), x) && q.b == SumWord(Masks(0x0010, 0x0020, 0x0040, 0x0080), x)
    ensures q.c == SumWord(Masks(0x0100, 0x0200, 0x0400, 0x0800), x) && q.d == SumWord(Masks(0x1000, 0x2000, 0x4000, 0x8000), x)
  {
    hide Le32, Lin;
    QuadOfBlock(q);
    forall k | 0 <= k < 16
      ensures Lin(Unit(k), x) == x[k]
    {
      LinUnit(k, x);
    }
    assert Lin(Unit(0), x) == x[0] && Lin(Unit(1), x) == x[1] && Lin(Unit(2), x) == x[2] && Lin(Unit(3), x) == x[3];
    assert Lin(Unit(4), x) == x[4] && Lin(Unit(5), x) == x[5] && Lin(Unit(6), x) == x[6] && Lin(Unit(7), x) == x[7];
    assert Lin(Unit(8), x) == x[8] && Lin(Unit(9), x) == x[9] && Lin(Unit(10), x) == x[10] && Lin(Unit(11), x) == x[11];
    assert Lin(Unit(12), x) == x[12] && Lin(Unit(13), x) == x[13] && Lin(Unit(14), x) == x[14] && Lin(Unit(15), x) == x[15];
  }

  /** The words of A(x). */
  lemma SumOutput(x: Block)
    ensures FromBlock(A(x)) == Quad(SumWord(Masks(Row(0), Row(1), Row(2), Row(3)), x), SumWord(Masks(Row(4), Row(5), Row(6), Row(7)), x),
                                    SumWord(Masks(Row(8), Row(9), Row(10), Row(11)), x), SumWord(Masks(Row(12), Row(13), Row(14), Row(15)), x))
  {
    hide Le32, Lin, Row;
  }

  function SwapPairs(m: Masks): Masks { Masks(m.m1, m.m0, m.m3, m.m2) }
  function Rotate(m: Masks): Masks { Masks(m.m2, m.m3, m.m0, m.m1) }

  /** aria_a: word operations, with the sums of bytes each word holds. */
  method AriaA(q: Quad) returns (r: Quad)
    ensures r == FromBlock(A(ToBlock(q)))
  {
    hide P1, P2, Le32, Lin, XorWord, SumWord, Row;
    var a, b, c, d := q.a, q.b, q.c, q.d;
    var ta, tb, tc;
    ghost var x := ToBlock(q);
    SumInput(q, x);
    ghost var ma, mb := Masks(0x0001, 0x0002, 0x0004, 0x0008), Masks(0x0010, 0x0020, 0x0040, 0x0080);
    ghost var mc, md := Masks(0x0100, 0x0200, 0x0400, 0x0800), Masks(0x1000, 0x2000, 0x4000, 0x8000);
    ta := b;                                   ghost var mta := mb;
    b := a;                                    mb := ma;
    a := P2(ta);                               SumP2(mta, x); ma := Rotate(mta);
    tb := P2(d);                               SumP2(md, x); ghost var mtb := Rotate(md);
    d := P1(c);                                SumP1(mc, x); md := SwapPairs(mc);
    c := P1(tb);                               SumP1(mtb, x); mc := SwapPairs(mtb);
    ta := XorWord(ta, d);                      SumXor(mta, md, x); mta := XorMasks(mta, md);
    tc := P2(b);                               SumP2(mb, x); ghost var mtc := Rotate(mb);
    ta := XorWord(XorWord(P1(ta), tc), c);     SumP1(mta, x); SumXor(SwapPairs(mta), mtc, x);
                                               SumXor(XorMasks(SwapPairs(mta), mtc), mc, x);
                                               mta := XorMasks(XorMasks(SwapPairs(mta), mtc), mc);
    tb := XorWord(tb, P2(d));                  SumP2(md, x); SumXor(mtb, Rotate(md), x); mtb := XorMasks(mtb, Rotate(md));
    tc := XorWord(tc, P1(a));                  SumP1(ma, x); SumXor(mtc, SwapPairs(ma), x); mtc := XorMasks(mtc, SwapPairs(ma));
    b := XorWord(b, XorWord(ta, tb));          SumXor(mta, mtb, x); SumXor(mb, XorMasks(mta, mtb), x);
                                               mb := XorMasks(mb, XorMasks(mta, mtb));
    tb := XorWord(P2(tb), ta);                 SumP2(mtb, x); SumXor(Rotate(mtb), mta, x); mtb := XorMasks(Rotate(mtb), mta);
    a := XorWord(a, P1(tb));                   SumP1(mtb, x); SumXor(ma, SwapPairs(mtb), x); ma := XorMasks(ma, SwapPairs(mtb));
    ta := P2(ta);                              SumP2(mta, x); mta := Rotate(mta);
    d := XorWord(d, XorWord(P1(ta), tc));      SumP1(mta, x); SumXor(SwapPairs(mta), mtc, x);
                                               SumXor(md, XorMasks(SwapPairs(mta), mtc), x);
                                               md := XorMasks(md, XorMasks(SwapPairs(mta), mtc));
    tc := P2(tc);                              SumP2(mtc, x); mtc := Rotate(mtc);
    c := XorWord(c, XorWord(P1(tc), ta));      SumP1(mtc, x); SumXor(SwapPairs(mtc), mta, x);
                                               SumXor(mc, XorMasks(SwapPairs(mtc), mta), x);
                                               mc := XorMasks(mc, XorMasks(SwapPairs(mtc), mta));
    r := Quad(a, b, c, d);
    SumOutput(x);
    RowMasks();
  }

  /** The masks the code arrives at. */
  lemma RowMasks()
    ensures Masks(Row(0), Row(1), Row(2), Row(3)) == Masks(0x6358, 0x93A4, 0x9C52, 0x6CA1)
    ensures Masks(Row(4), Row(5), Row(6), Row(7)) == Masks(0xC925, 0xC61A, 0x3685, 0x394A)
    ensures Masks(Row(8), Row(9), Row(10), Row(11)) == Masks(0xA493, 0x5863, 0xA16C, 0x529C)
    ensures Masks(Row(12), Row(13), Row(14), Row(15)) == Masks(0x1AC6, 0x25C9, 0x4A39, 0x8536)
  {}

  // ----- the substitution layers -----

  type SBox = Byte -> Byte

  /** One of four tables for each byte of a word. */
  function Sl(sa: SBox, sb: SBox, sc: SBox, sd: SBox, x: Block): Block
  {
    seq(16, i requires 0 <= i < 16 => if i % 4 == 0 then sa(x[i]) else if i % 4 == 1 then sb(x[i]) else if i % 4 == 2 then sc(x[i]) else sd(x[i]))
  }

  /** aria_sl on one word. */
  function SlWord(sa: SBox, sb: SBox, sc: SBox, sd: SBox, w: Word): Word
  {
    Word((sa(Byte0(w)) as bv32) ^ ((sb(Byte1(w)) as bv32) << 8) ^ ((sc(Byte2(w)) as bv32) << 16) ^ ((sd(Byte3(w)) as bv32) << 24))
  }

  lemma Combine(p: Byte, q: Byte, r: Byte, s: Byte)
    ensures Word((p as bv32) ^ ((q as bv32) << 8) ^ ((r as bv32) << 16) ^ ((s as bv32) << 24)) == Le32(p, q, r, s)
  {}

  lemma SlWordIs(sa: SBox, sb: SBox, sc: SBox, sd: SBox, w: Word)
    ensures SlWord(sa, sb, sc, sd, w) == Le32(sa(Byte0(w)), sb(Byte1(w)), sc(Byte2(w)), sd(Byte3(w)))
  {
    hide Le32, Byte0, Byte1, Byte2, Byte3;
    Combine(sa(Byte0(w)), sb(Byte1(w)), sc(Byte2(w)), sd(Byte3(w)));
  }

  method AriaSl(q: Quad, sa: SBox, sb: SBox, sc: SBox, sd: SBox) returns (r: Quad)
    ensures r == FromBlock(Sl(sa, sb, sc, sd, ToBlock(q)))
  {
    hide Le32, Byte0, Byte1, Byte2, Byte3, SlWord;
    var a, b, c, d := q.a, q.b, q.c, q.d;
    SlWordIs(sa, sb, sc, sd, a);
    SlWordIs(sa, sb, sc, sd, b);
    SlWordIs(sa, sb, sc, sd, c);
    SlWordIs(sa, sb, sc, sd, d);
    a := SlWord(sa, sb, sc, sd, a);
    b := SlWord(sa, sb, sc, sd, b);
    c := SlWord(sa, sb, sc, sd, c);
    d := SlWord(sa, sb, sc, sd, d);
    r := Quad(a, b, c, d);
  }

  /** SL1 and SL2 of the standard. */
  function Sl1(x: Block): Block { Sl(Sb1, Sb2, Is1, Is2, x) }
  function Sl2(x: Block): Block { Sl(Is1, Is2, Sb1, Sb2, x) }

  lemma SlInverse(x: Block)
    ensures Sl2(Sl1(x)) == x && Sl1(Sl2(x)) == x
  {
    hide Sb1, Sb2, Is1, Is2;
    forall i | 0 <= i < 16
      ensures Sl2(Sl1(x))[i] == x[i] && Sl1(Sl2(x))[i] == x[i]
    {
      Is1UndoesSb1(x[i]);
      Sb1UndoesIs1(x[i]);
      Is2UndoesSb2(x[i]);
      Sb2UndoesIs2(x[i]);
    }
  }

  // ----- the cipher -----

  /** Odd rounds (the first one included) use SL1, even rounds SL2. */
  function SlOf(i: nat, x: Block): Block
  {
    if i % 2 == 0 then Sl1(x) else Sl2(x)
  }

  /** The state before round i, counting from 0: key addition, substitution, diffusion. */
  function Before(rk: seq<Block>, p: Block, i: nat): Block
    requires i <= |rk|
  {
    if i == 0 then p else A(SlOf(i - 1, XorBlock(Before(rk, p, i - 1), rk[i - 1])))
  }

  /** RFC 5794, section 2.3: nr rounds, the last one with a second key addition instead of the diffusion. */
  function Crypt(rk: seq<Block>, nr: nat, p: Block): Block
    requires 0 < nr < |rk|
  {
    XorBlock(SlOf(nr - 1, XorBlock(Before(rk, p, nr - 1), rk[nr - 1])), rk[nr])
  }

  /** The decryption keys: reversed, with the diffusion applied to all but the first and the last. */
  function DecKeys(rk: seq<Block>, nr: nat): (dk: seq<Block>)
    requires nr < |rk|
    ensures |dk| == nr + 1
  {
    seq(nr + 1, j requires 0 <= j <= nr => if j == 0 then rk[nr] else if j == nr then rk[0] else A(rk[nr - j]))
  }

  /** Decrypting undoes the rounds one by one: before the substitution of round j, decryption has the state that
      encryption had after the substitution of round nr - 1 - j. */
  lemma {:induction false} RoundsUndone(rk: seq<Block>, nr: nat, p: Block, j: nat)
    requires j < nr < |rk| && nr % 2 == 0
    ensures var dk := DecKeys(rk, nr);
            var i := nr - 1 - j;
            XorBlock(Before(dk, Crypt(rk, nr, p), j), dk[j]) == SlOf(i, XorBlock(Before(rk, p, i), rk[i]))
  {
    hide A, Sl1, Sl2, XorBlock, SlOf;
    var dk, c, i := DecKeys(rk, nr), Crypt(rk, nr, p), nr - 1 - j;
    if j == 0 {
      XorCancel(SlOf(i, XorBlock(Before(rk, p, i), rk[i])), rk[nr]);
    } else {
      RoundsUndone(rk, nr, p, j - 1);
      var x, k := Before(rk, p, i + 1), rk[i + 1];
      SlAlternates(j - 1, i + 1, XorBlock(x, k));
      assert Before(dk, c, j) == A(XorBlock(x, k));
      ALinear(x, k);
      var s := SlOf(i, XorBlock(Before(rk, p, i), rk[i]));
      AInvolution(s);
      XorCancel(s, A(k));
      assert dk[j] == A(k);
    }
  }

  lemma XorCancel(x: Block, k: Block)
    ensures XorBlock(XorBlock(x, k), k) == x
  {
    XorTwice(x, k);
  }

  /** The substitution of one round undoes that of another if their numbers differ in parity. */
  lemma SlAlternates(j: nat, i: nat, x: Block)
    requires (i + j) % 2 == 1
    ensures SlOf(j, SlOf(i, x)) == x
  {
    hide Sl1, Sl2;
    SlInverse(x);
  }

  /** With the decryption keys, the same routine decrypts. */
  lemma DecryptionUndoesEncryption(rk: seq<Block>, nr: nat, p: Block)
    requires 0 < nr < |rk| && nr % 2 == 0
    ensures Crypt(DecKeys(rk, nr), nr, Crypt(rk, nr, p)) == p
  {
    hide A, Sl1, Sl2, XorBlock, SlOf, Before;
    RoundsUndone(rk, nr, p, nr - 1);
    BeforeFirst(rk, p);
    SlAlternates(nr - 1, 0, XorBlock(p, rk[0]));
    XorCancel(p, rk[0]);
  }

  lemma BeforeFirst(rk: seq<Block>, p: Block)
    ensures Before(rk, p, 0) == p
  {}

  /** And the other way round: decryption keys of decryption keys are the encryption keys. */
  lemma DecKeysTwice(rk: seq<Block>, nr: nat)
    requires 0 < nr < |rk|
    ensures DecKeys(DecKeys(rk, nr), nr) == rk[..nr + 1]
  {
    hide A;
    forall j | 0 <= j <= nr
      ensures DecKeys(DecKeys(rk, nr), nr)[j] == rk[j]
    {
      AInvolution(rk[j]);
    }
  }
}
