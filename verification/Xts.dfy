/** aes.c: XTS with ciphertext stealing, over any block permutation. */
module Xts {
  import opened Bytes

  datatype Mode = Encrypt | Decrypt

  datatype XtsRet = Done | InvalidInputLength

  // ----- multiplication by x -----

  /** The tweak update of IEEE Std 1619, section 5.2, byte by byte: a left shift by one bit with byte 0 the
      least significant one, and 135 added to byte 0 when a bit is shifted out. */
  function MulX(t: Block): Block
  {
    seq(16, i requires 0 <= i < 16 => MulXByte(t[i], if i == 0 then t[15] else t[i - 1], i == 0))
  }

  function MulXByte(x: Byte, below: Byte, first: bool): Byte
  {
    XorByte((x & 0x7F) << 1, if first then (if below >= 128 then 135 else 0) else if below >= 128 then 1 else 0)
  }

  /** The word with the given bytes, least significant first. */
  function Assemble(x0: Byte, x1: Byte, x2: Byte, x3: Byte, x4: Byte, x5: Byte, x6: Byte, x7: Byte): bv64
  {
    (x0 as bv64) | ((x1 as bv64) << 8) | ((x2 as bv64) << 16) | ((x3 as bv64) << 24) |
    ((x4 as bv64) << 32) | ((x5 as bv64) << 40) | ((x6 as bv64) << 48) | ((x7 as bv64) << 56)
  }

  /** MBEDTLS_GET_UINT64_LE at offset o. */
  function GetUint64Le(x: seq<Byte>, o: nat): bv64
    requires o + 8 <= |x|
  {
    Assemble(x[o], x[o + 1], x[o + 2], x[o + 3], x[o + 4], x[o + 5], x[o + 6], x[o + 7])
  }

  function LowByte(x: bv64): Byte
  {
    (x & 0xFF) as bv8
  }

  /** MBEDTLS_PUT_UINT64_LE. */
  function PutUint64Le(x: bv64): (s: seq<Byte>)
    ensures |s| == 8
  {
    [LowByte(x), LowByte(x >> 8), LowByte(x >> 16), LowByte(x >> 24),
     LowByte(x >> 32), LowByte(x >> 40), LowByte(x >> 48), LowByte(x >> 56)]
  }

  /** mbedtls_gf128mul_x_ble: the same update on two 64-bit words. */
  function Gf128MulXBle(x: Block): Block
  {
    var a, b := GetUint64Le(x, 0), GetUint64Le(x, 8);
    PutUint64Le(LowWord(a, b)) + PutUint64Le(HighWord(a, b))
  }

  function LowWord(a: bv64, b: bv64): bv64
  {
    (a << 1) ^ ((0x0087 as bv64) >> (8 - ((b >> 63) << 3)) as nat)
  }

  function HighWord(a: bv64, b: bv64): bv64
  {
    (a >> 63) | (b << 1)
  }

  lemma TopBit(x0: Byte, x1: Byte, x2: Byte, x3: Byte, x4: Byte, x5: Byte, x6: Byte, x7: Byte)
    ensures Assemble(x0, x1, x2, x3, x4, x5, x6, x7) >> 63 == if x7 >= 128 then 1 else 0
  {}

  /** The low word shifted left by one bit, with a constant folded into its lowest byte. */
  lemma ShiftLow(x0: Byte, x1: Byte, x2: Byte, x3: Byte, x4: Byte, x5: Byte, x6: Byte, x7: Byte, c: bv64)
    requires c <= 255
    ensures var v := (Assemble(x0, x1, x2, x3, x4, x5, x6, x7) << 1) ^ c;
            PutUint64Le(v)[0] == XorByte((x0 & 0x7F) << 1, c as bv8) &&
            PutUint64Le(v)[1] == MulXByte(x1, x0, false) &&
            PutUint64Le(v)[2] == MulXByte(x2, x1, false) &&
            PutUint64Le(v)[3] == MulXByte(x3, x2, false) &&
            PutUint64Le(v)[4] == MulXByte(x4, x3, false) &&
            PutUint64Le(v)[5] == MulXByte(x5, x4, false) &&
            PutUint64Le(v)[6] == MulXByte(x6, x5, false) &&
            PutUint64Le(v)[7] == MulXByte(x7, x6, false)
  {}

  /** The high word shifted left by one bit, with the bit from below. */
  lemma ShiftHigh(x0: Byte, x1: Byte, x2: Byte, x3: Byte, x4: Byte, x5: Byte, x6: Byte, x7: Byte, c: bv64)
    requires c <= 1
    ensures var v := c | (Assemble(x0, x1, x2, x3, x4, x5, x6, x7) << 1);
            PutUint64Le(v)[0] == XorByte((x0 & 0x7F) << 1, c as bv8) &&
            PutUint64Le(v)[1] == MulXByte(x1, x0, false) &&
            PutUint64Le(v)[2] == MulXByte(x2, x1, false) &&
            PutUint64Le(v)[3] == MulXByte(x3, x2, false) &&
            PutUint64Le(v)[4] == MulXByte(x4, x3, false) &&
            PutUint64Le(v)[5] == MulXByte(x5, x4, false) &&
            PutUint64Le(v)[6] == MulXByte(x6, x5, false) &&
            PutUint64Le(v)[7] == MulXByte(x7, x6, false)
  {}

  lemma LowBytes(x0: Byte, x1: Byte, x2: Byte, x3: Byte, x4: Byte, x5: Byte, x6: Byte, x7: Byte, b: bv64, below: Byte)
    requires b >> 63 == if below >= 128 then 1 else 0
    ensures var v := LowWord(Assemble(x0, x1, x2, x3, x4, x5, x6, x7), b);
            PutUint64Le(v)[0] == MulXByte(x0, below, true) &&
            PutUint64Le(v)[1] == MulXByte(x1, x0, false) &&
            PutUint64Le(v)[2] == MulXByte(x2, x1, false) &&
            PutUint64Le(v)[3] == MulXByte(x3, x2, false) &&
            PutUint64Le(v)[4] == MulXByte(x4, x3, false) &&
            PutUint64Le(v)[5] == MulXByte(x5, x4, false) &&
            PutUint64Le(v)[6] == MulXByte(x6, x5, false) &&
            PutUint64Le(v)[7] == MulXByte(x7, x6, false)
  {
    hide Assemble, PutUint64Le, MulXByte;
    Feedback(b >> 63);
    ShiftLow(x0, x1, x2, x3, x4, x5, x6, x7, if below >= 128 then 0x87 else 0);
    FirstByte(x0, below, if below >= 128 then 0x87 else 0);
  }

  lemma HighBytes(x0: Byte, x1: Byte, x2: Byte, x3: Byte, x4: Byte, x5: Byte, x6: Byte, x7: Byte, a: bv64, below: Byte)
    requires a >> 63 == if below >= 128 then 1 else 0
    ensures var v := HighWord(a, Assemble(x0, x1, x2, x3, x4, x5, x6, x7));
            PutUint64Le(v)[0] == MulXByte(x0, below, false) &&
            PutUint64Le(v)[1] == MulXByte(x1, x0, false) &&
            PutUint64Le(v)[2] == MulXByte(x2, x1, false) &&
            PutUint64Le(v)[3] == MulXByte(x3, x2, false) &&
            PutUint64Le(v)[4] == MulXByte(x4, x3, false) &&
            PutUint64Le(v)[5] == MulXByte(x5, x4, false) &&
            PutUint64Le(v)[6] == MulXByte(x6, x5, false) &&
            PutUint64Le(v)[7] == MulXByte(x7, x6, false)
  {
    hide Assemble, PutUint64Le, MulXByte;
    ShiftHigh(x0, x1, x2, x3, x4, x5, x6, x7, if below >= 128 then 1 else 0);
    CarriedByte(x0, below, if below >= 128 then 1 else 0);
  }

  /** The word-based routine is the standard's byte-wise update. */
  lemma Gf128IsMulX(t: Block)
    ensures Gf128MulXBle(t) == MulX(t)
  {
    hide Assemble, PutUint64Le, MulXByte, LowWord, HighWord;
    TopBit(t[0], t[1], t[2], t[3], t[4], t[5], t[6], t[7]);
    TopBit(t[8], t[9], t[10], t[11], t[12], t[13], t[14], t[15]);
    LowBytes(t[0], t[1], t[2], t[3], t[4], t[5], t[6], t[7], GetUint64Le(t, 8), t[15]);
    HighBytes(t[8], t[9], t[10], t[11], t[12], t[13], t[14], t[15], GetUint64Le(t, 0), t[7]);
  }

  lemma Feedback(y: bv64)
    requires y <= 1
    ensures (0x0087 as bv64) >> (8 - (y << 3)) as nat == if y == 1 then 0x87 else 0
  {}

  lemma FirstByte(x: Byte, top: Byte, c: Byte)
    requires c == if top >= 128 then 0x87 else 0
    ensures MulXByte(x, top, true) == XorByte((x & 0x7F) << 1, c)
  {}

  lemma CarriedByte(x: Byte, below: Byte, c: Byte)
    requires c == if below >= 128 then 1 else 0
    ensures MulXByte(x, below, false) == XorByte((x & 0x7F) << 1, c)
  {}

  // ----- XTS as the standard defines it -----

  /** The tweak of block j. */
  function Tweak(t0: Block, j: nat): Block
  {
    if j == 0 then t0 else MulX(Tweak(t0, j - 1))
  }

  /** One block under one tweak. */
  function Xex(f: Block -> Block, t: Block, b: Block): Block
  {
    XorBlock(f(XorBlock(b, t)), t)
  }

  /** The first k blocks of s, each under its own tweak. */
  function Blocks(f: Block -> Block, t0: Block, s: seq<Byte>, k: nat): (r: seq<Byte>)
    requires 16 * k <= |s|
    ensures |r| == 16 * k
  {
    if k == 0 then [] else Blocks(f, t0, s, k - 1) + Xex(f, Tweak(t0, k - 1), s[16 * (k - 1)..16 * k])
  }

  /** IEEE Std 1619, section 5.3.2; NIST SP 800-38E. */
  function XtsEncrypt(e: Block -> Block, t0: Block, p: seq<Byte>): (c: seq<Byte>)
    requires |p| >= 16
    ensures |c| == |p|
  {
    var m, b := |p| / 16, |p| % 16;
    if b == 0 then Blocks(e, t0, p, m)
    else
      var cc := Xex(e, Tweak(t0, m - 1), p[16 * (m - 1)..16 * m]);
      Blocks(e, t0, p, m - 1) + Xex(e, Tweak(t0, m), p[16 * m..] + cc[b..]) + cc[..b]
  }

  /** IEEE Std 1619, section 5.4.2: the last two tweaks change places when there is a partial block. */
  function XtsDecrypt(d: Block -> Block, t0: Block, c: seq<Byte>): (p: seq<Byte>)
    requires |c| >= 16
    ensures |p| == |c|
  {
    var m, b := |c| / 16, |c| % 16;
    if b == 0 then Blocks(d, t0, c, m)
    else
      var pp := Xex(d, Tweak(t0, m), c[16 * (m - 1)..16 * m]);
      Blocks(d, t0, c, m - 1) + Xex(d, Tweak(t0, m - 1), c[16 * m..] + pp[b..]) + pp[..b]
  }

  // ----- the blocks one by one -----

  /** Bit i of byte k of a block, the coefficient of x^(8k + i). */
  predicate Coefficient(t: Block, k: nat, i: nat)
    requires k < 16 && i < 8
  {
    BitOf(t[k], i)
  }

  predicate BitOf(b: Byte, i: nat)
    requires i < 8
  {
    (b >> i) & 1 == 1
  }

  /** The tweaks: the first is t0, and each next one is the one before it times x modulo x^128 + x^7 + x^2 + x + 1. */
  lemma TweakBits(t0: Block, j: nat, k: nat, i: nat)
    requires k < 16 && i < 8
    ensures Tweak(t0, 0) == t0
    ensures var t := Tweak(t0, j);
            var shifted := if i > 0 then Coefficient(t, k, i - 1) else k > 0 && Coefficient(t, k - 1, 7);
            var reduced := k == 0 && (i <= 2 || i == 7) && Coefficient(t, 15, 7);
            Coefficient(Tweak(t0, j + 1), k, i) == (shifted != reduced)
  {
    hide MulXByte, BitOf, MulX, Tweak;
    TweakNext(t0, j);
    var t := Tweak(t0, j);
    MulXAt(t, k);
    MulXByteBits(t[k], if k == 0 then t[15] else t[k - 1], k == 0, i);
  }

  lemma TweakNext(t0: Block, j: nat)
    ensures Tweak(t0, 0) == t0 && Tweak(t0, j + 1) == MulX(Tweak(t0, j))
  {}

  lemma MulXAt(t: Block, k: nat)
    requires k < 16
    ensures MulX(t)[k] == MulXByte(t[k], if k == 0 then t[15] else t[k - 1], k == 0)
  {}

  lemma MulXByteBits(x: Byte, below: Byte, first: bool, i: nat)
    requires i < 8
    ensures BitOf(MulXByte(x, below, first), i)
            == if first then (i > 0 && BitOf(x, i - 1)) != ((i <= 2 || i == 7) && BitOf(below, 7))
               else if i > 0 then BitOf(x, i - 1) else BitOf(below, 7)
  {
    if first { FirstByteBits(x, below, i); } else { NextByteBits(x, below, i); }
  }

  lemma FirstByteBits(x: Byte, below: Byte, i: nat)
    requires i < 8
    ensures BitOf(MulXByte(x, below, true), i) == ((i > 0 && BitOf(x, i - 1)) != ((i <= 2 || i == 7) && BitOf(below, 7)))
  {
    if i == 0 {} else if i == 1 {} else if i == 2 {} else if i == 3 {} else if i == 4 {} else if i == 5 {} else if i == 6 {}
  }

  lemma NextByteBits(x: Byte, below: Byte, i: nat)
    requires i < 8
    ensures BitOf(MulXByte(x, below, false), i) == if i > 0 then BitOf(x, i - 1) else BitOf(below, 7)
  {
    if i == 0 {} else if i == 1 {} else if i == 2 {} else if i == 3 {} else if i == 4 {} else if i == 5 {} else if i == 6 {}
  }

  /** The 16 bytes of block j. */
  function BlockAt(s: seq<Byte>, j: nat): Block
    requires 16 * (j + 1) <= |s|
  {
    s[16 * j..16 * (j + 1)]
  }

  /** The partial block of s, completed with the last bytes of another block. */
  function Completed(s: seq<Byte>, m: nat, b: nat, t: Block): Block
    requires |s| == 16 * m + b && b <= 16
  {
    s[16 * m..] + t[b..]
  }

  lemma WholeAndRest(n: nat, m: nat, b: nat)
    requires n == 16 * m + b && b < 16
    ensures n / 16 == m && n % 16 == b
  {}

  /** Encryption, block by block: with the tweak of its place added before and after. */
  lemma XtsEncryptBlock(e: Block -> Block, t0: Block, p: seq<Byte>, m: nat, b: nat, j: nat)
    requires |p| == 16 * m + b && b < 16 && (if b == 0 then j < m else j + 1 < m)
    ensures XorBlock(BlockAt(XtsEncrypt(e, t0, p), j), Tweak(t0, j)) == e(XorBlock(BlockAt(p, j), Tweak(t0, j)))
  {
    hide Tweak, XorBlock, Blocks, Xex;
    var k := if b == 0 then m else m - 1;
    WholeAndRest(|p|, m, b);
    BlocksAt(e, t0, p, k, j);
    XexMasks(e, Tweak(t0, j), BlockAt(p, j));
    HeadBlock(XtsEncrypt(e, t0, p), Blocks(e, t0, p, k), k, j);
  }

  lemma XexMasks(f: Block -> Block, t: Block, b: Block)
    ensures XorBlock(Xex(f, t, b), t) == f(XorBlock(b, t))
  {
    XorTwice(f(XorBlock(b, t)), t);
  }

  lemma HeadBlock(s: seq<Byte>, head: seq<Byte>, k: nat, j: nat)
    requires j < k && |head| == 16 * k <= |s| && s[..16 * k] == head
    ensures BlockAt(s, j) == BlockAt(head, j)
  {}

  lemma {:induction false} BlocksAt(f: Block -> Block, t0: Block, s: seq<Byte>, k: nat, j: nat)
    requires j < k && 16 * k <= |s|
    ensures BlockAt(Blocks(f, t0, s, k), j) == Xex(f, Tweak(t0, j), BlockAt(s, j))
    decreases k
  {
    hide Tweak, Xex;
    if j < k - 1 {
      BlocksAt(f, t0, s, k - 1, j);
      HeadBlock(Blocks(f, t0, s, k), Blocks(f, t0, s, k - 1), k - 1, j);
    }
  }

  /** The last full block and the partial one after it: the full block is encrypted under its own tweak, its first
      bytes are the partial block of the result, and the rest completes the partial block of p, which is encrypted
      under the next tweak. */
  lemma XtsEncryptStolen(e: Block -> Block, t0: Block, p: seq<Byte>, m: nat, b: nat) returns (cc: Block)
    requires |p| == 16 * m + b && 0 < b < 16 && 0 < m
    ensures var c := XtsEncrypt(e, t0, p);
            XorBlock(cc, Tweak(t0, m - 1)) == e(XorBlock(BlockAt(p, m - 1), Tweak(t0, m - 1))) &&
            c[16 * m..] == cc[..b] &&
            XorBlock(BlockAt(c, m - 1), Tweak(t0, m)) == e(XorBlock(Completed(p, m, b, cc), Tweak(t0, m)))
  {
    hide Tweak, XorBlock, Blocks, Xex;
    WholeAndRest(|p|, m, b);
    cc := Xex(e, Tweak(t0, m - 1), BlockAt(p, m - 1));
    XexMasks(e, Tweak(t0, m - 1), BlockAt(p, m - 1));
    XexMasks(e, Tweak(t0, m), Completed(p, m, b, cc));
    StolenParts(Blocks(e, t0, p, m - 1), Xex(e, Tweak(t0, m), Completed(p, m, b, cc)), cc[..b], XtsEncrypt(e, t0, p));
  }

  lemma StolenParts(head: seq<Byte>, last: Block, part: seq<Byte>, c: seq<Byte>)
    requires c == head + last + part
    ensures c[|head|..|head| + 16] == last && c[|head| + 16..] == part
  {}

  /** Decryption, block by block. */
  lemma XtsDecryptBlock(d: Block -> Block, t0: Block, c: seq<Byte>, m: nat, b: nat, j: nat)
    requires |c| == 16 * m + b && b < 16 && (if b == 0 then j < m else j + 1 < m)
    ensures XorBlock(BlockAt(XtsDecrypt(d, t0, c), j), Tweak(t0, j)) == d(XorBlock(BlockAt(c, j), Tweak(t0, j)))
  {
    hide Tweak, XorBlock, Blocks, Xex;
    var k := if b == 0 then m else m - 1;
    WholeAndRest(|c|, m, b);
    BlocksAt(d, t0, c, k, j);
    XexMasks(d, Tweak(t0, j), BlockAt(c, j));
    HeadBlock(XtsDecrypt(d, t0, c), Blocks(d, t0, c, k), k, j);
  }

  /** With a partial block, the last full block is decrypted under the last tweak and the completed one under the
      tweak before it. */
  lemma XtsDecryptStolen(d: Block -> Block, t0: Block, c: seq<Byte>, m: nat, b: nat) returns (pp: Block)
    requires |c| == 16 * m + b && 0 < b < 16 && 0 < m
    ensures var p := XtsDecrypt(d, t0, c);
            XorBlock(pp, Tweak(t0, m)) == d(XorBlock(BlockAt(c, m - 1), Tweak(t0, m))) &&
            p[16 * m..] == pp[..b] &&
            XorBlock(BlockAt(p, m - 1), Tweak(t0, m - 1)) == d(XorBlock(Completed(c, m, b, pp), Tweak(t0, m - 1)))
  {
    hide Tweak, XorBlock, Blocks, Xex;
    WholeAndRest(|c|, m, b);
    pp := Xex(d, Tweak(t0, m), BlockAt(c, m - 1));
    XexMasks(d, Tweak(t0, m), BlockAt(c, m - 1));
    XexMasks(d, Tweak(t0, m - 1), Completed(c, m, b, pp));
    StolenParts(Blocks(d, t0, c, m - 1), Xex(d, Tweak(t0, m - 1), Completed(c, m, b, pp)), pp[..b], XtsDecrypt(d, t0, c));
  }

  // ----- the round trip -----

  lemma XexInverse(e: Block -> Block, d: Block -> Block, t: Block, b: Block)
    requires Undoes(d, e)
    ensures Xex(d, t, Xex(e, t, b)) == b
  {
    var x := XorBlock(b, t);
    XorTwice(e(x), t);
    assert d(e(x)) == x;
    XorTwice(b, t);
  }

  lemma {:induction false} BlocksInverse(e: Block -> Block, d: Block -> Block, t0: Block, p: seq<Byte>, c: seq<Byte>, k: nat)
    requires Undoes(d, e) && 16 * k <= |p| && 16 * k <= |c| && c[..16 * k] == Blocks(e, t0, p, k)
    ensures Blocks(d, t0, c, k) == p[..16 * k]
  {
    hide Xex, Tweak, Undoes;
    if k > 0 {
      var n := 16 * (k - 1);
      assert c[..n] == c[..16 * k][..n] == Blocks(e, t0, p, k - 1);
      BlocksInverse(e, d, t0, p, c, k - 1);
      assert c[n..16 * k] == c[..16 * k][n..] == Xex(e, Tweak(t0, k - 1), p[n..16 * k]);
      XexInverse(e, d, Tweak(t0, k - 1), p[n..16 * k]);
      assert p[..16 * k] == p[..n] + p[n..16 * k];
    }
  }

  /** Decryption undoes encryption for every length, whole blocks or not. */
  lemma XtsRoundTrip(e: Block -> Block, d: Block -> Block, t0: Block, p: seq<Byte>)
    requires Undoes(d, e) && |p| >= 16
    ensures XtsDecrypt(d, t0, XtsEncrypt(e, t0, p)) == p
  {
    hide Xex, Tweak, Undoes, Blocks;
    var m, b := |p| / 16, |p| % 16;
    var c := XtsEncrypt(e, t0, p);
    if b == 0 {
      assert c[..16 * m] == c && p[..16 * m] == p;
      BlocksInverse(e, d, t0, p, c, m);
    } else {
      var n := 16 * (m - 1);
      var last, part := p[n..16 * m], p[16 * m..];
      var cc := Xex(e, Tweak(t0, m - 1), last);
      var stolen := Xex(e, Tweak(t0, m), part + cc[b..]);
      assert c == Blocks(e, t0, p, m - 1) + stolen + cc[..b];
      assert c[..n] == Blocks(e, t0, p, m - 1) && c[n..16 * m] == stolen && c[16 * m..] == cc[..b];
      BlocksInverse(e, d, t0, p, c, m - 1);
      XexInverse(e, d, Tweak(t0, m), part + cc[b..]);
      assert (part + cc[b..])[..b] == part && (part + cc[b..])[b..] == cc[b..];
      assert cc[..b] + cc[b..] == cc;
      XexInverse(e, d, Tweak(t0, m - 1), last);
      assert p == p[..n] + last + part;
    }
  }

  // ----- the code -----

  /** One full block: reads 16 bytes of input, writes 16 bytes of output. */
  method CryptBlock(f: Block -> Block, tweak: Block, input: array<Byte>, ip: nat, output: array<Byte>, op: nat)
    requires ip + 16 <= input.Length && op + 16 <= output.Length
    modifies output
    ensures output[op..op + 16] == Xex(f, tweak, old(input[ip..ip + 16]))
    ensures forall k :: 0 <= k < output.Length && !(op <= k < op + 16) ==> output[k] == old(output[k])
  {
    hide XorBlock;
    var tmp: Block := XorBlock(input[ip..ip + 16], tweak);
    tmp := f(tmp);
    Store(output, op, XorBlock(tmp, tweak));
  }

  /** Exclusive-or in two pieces. */
  lemma XorPieces(a: seq<Byte>, b: seq<Byte>, t: Block)
    requires |a| + |b| == 16
    ensures Xor(a, t) + Xor(b, t[|a|..]) == XorBlock(a + b, t)
  {}

  /** Ciphertext stealing: completes the partial block with the tail of the previous output block. Working in place,
      the bytes to keep are copied over the partial block before that is read. */
  method Steal(f: Block -> Block, t: Block, input: array<Byte>, ip: nat, leftover: nat, output: array<Byte>, op: nat)
    requires 0 < leftover < 16 && ip + leftover <= input.Length && 16 <= op && op + leftover <= output.Length
    requires input != output || ip == op
    modifies output
    ensures var prev := old(output[op - 16..op]);
            var part := if input == output then prev[..leftover] else old(input[ip..ip + leftover]);
            output[op - 16..op] == Xex(f, t, part + prev[leftover..]) && output[op..op + leftover] == prev[..leftover]
    ensures forall k :: 0 <= k < output.Length && !(op - 16 <= k < op + leftover) ==> output[k] == old(output[k])
  {
    hide Xor, XorBlock;
    ghost var prev := output[op - 16..op];
    var kept := output[op - 16..op - 16 + leftover];
    Store(output, op, kept);
    assert kept == prev[..leftover];
    ghost var part := input[ip..ip + leftover];
    var tail := output[op - 16 + leftover..op];
    assert tail == prev[leftover..];
    var tmp: Block := Xor(input[ip..ip + leftover], t) + Xor(tail, t[leftover..]);
    XorPieces(part, tail, t);
    Store(output, op - 16, XorBlock(f(tmp), t));
    assert output[op..op + leftover] == kept;
  }

  /** The same, as seen from the start of the output. */
  method FinalRound(f: Block -> Block, t: Block, input: array<Byte>, ip: nat, leftover: nat, output: array<Byte>, oo: nat, n: nat)
    requires 0 < leftover < 16 && ip + leftover <= input.Length && 16 <= n && oo + n + leftover <= output.Length
    requires input != output || ip == oo + n
    modifies output
    ensures var out := old(output[oo..oo + n]);
            var part := if input == output then out[n - 16..][..leftover] else old(input[ip..ip + leftover]);
            output[oo..oo + n + leftover] == Stolen(f, t, out, part)
    ensures forall k :: 0 <= k < output.Length && !(oo <= k < oo + n + leftover) ==> output[k] == old(output[k])
  {
    hide Xex, Stolen;
    ghost var out, last, head := output[oo..oo + n], output[oo + n - 16..oo + n], output[oo..oo + n - 16];
    ghost var part := if input == output then last[..leftover] else input[ip..ip + leftover];
    assert head == out[..n - 16] && last == out[n - 16..] by { SliceParts(output, oo, n - 16, n); }
    Steal(f, t, input, ip, leftover, output, oo + n);
    assert output[oo..oo + n - 16] == head;
    JoinStolen(f, t, out, part, head, last, output, oo, n);
  }

  lemma SliceParts(a: array<Byte>, i: nat, j: nat, n: nat)
    requires j <= n && i + n <= a.Length
    ensures a[i..i + j] == a[i..i + n][..j] && a[i + j..i + n] == a[i..i + n][j..]
  {}

  lemma JoinStolen(f: Block -> Block, t: Block, out: seq<Byte>, part: seq<Byte>, head: seq<Byte>, last: seq<Byte>,
                   a: array<Byte>, i: nat, n: nat)
    requires |out| == n >= 16 > |part| && head == out[..n - 16] && last == out[n - 16..] && i + n + |part| <= a.Length
    requires a[i..i + n - 16] == head && a[i + n - 16..i + n] == Xex(f, t, part + last[|part|..])
    requires a[i + n..i + n + |part|] == last[..|part|]
    ensures a[i..i + n + |part|] == Stolen(f, t, out, part)
  {
    hide Xex;
    SplitSlice(a, i, i + n - 16, i + n);
    SplitSlice(a, i, i + n, i + n + |part|);
  }

  /** The output of the full blocks once the partial block has taken bytes from the last of them. */
  function Stolen(f: Block -> Block, t: Block, out: seq<Byte>, part: seq<Byte>): (r: seq<Byte>)
    requires |out| >= 16 > |part|
    ensures |r| == |out| + |part|
  {
    var last := out[|out| - 16..];
    out[..|out| - 16] + Xex(f, t, part + last[|part|..]) + last[..|part|]
  }

  /** Whether block k of m is the last full block of a decryption with a partial block after it. */
  predicate Swapped(mode: Mode, leftover: nat, k: nat, m: nat)
  {
    leftover > 0 && mode == Decrypt && k + 1 == m
  }

  /** The tweak the loop uses for block k of m. */
  function TweakUsed(mode: Mode, leftover: nat, t0: Block, k: nat, m: nat): Block
  {
    Tweak(t0, if Swapped(mode, leftover, k, m) then k + 1 else k)
  }

  /** What the loop over the full blocks has written after k of m blocks. */
  function Written(f: Block -> Block, mode: Mode, leftover: nat, t0: Block, s: seq<Byte>, k: nat, m: nat): (r: seq<Byte>)
    requires 16 * k <= |s|
    ensures |r| == 16 * k
  {
    if k == 0 then [] else
      Written(f, mode, leftover, t0, s, k - 1, m) + Xex(f, TweakUsed(mode, leftover, t0, k - 1, m), s[16 * (k - 1)..16 * k])
  }

  lemma {:induction false} WrittenIsBlocks(f: Block -> Block, mode: Mode, leftover: nat, t0: Block, s: seq<Byte>, k: nat, m: nat)
    requires 16 * k <= |s| && (k < m || leftover == 0 || mode == Encrypt)
    ensures Written(f, mode, leftover, t0, s, k, m) == Blocks(f, t0, s, k)
  {
    hide Xex, Tweak;
    if k > 0 { WrittenIsBlocks(f, mode, leftover, t0, s, k - 1, m); }
  }

  /** One round of the loop over the full blocks; swap says that the next tweak comes first. */
  method NextBlock(f: Block -> Block, tweak0: Block, swap: bool, input: array<Byte>, ip: nat, ghost end: nat,
                   output: array<Byte>, ghost oo: nat, op: nat)
    returns (tweak: Block)
    requires ip + 16 <= end <= input.Length && oo <= op && op + 16 <= output.Length && (input != output || ip == op)
    modifies output
    ensures tweak == MulX(if swap then MulX(tweak0) else tweak0)
    ensures output[oo..op + 16] == old(output[oo..op]) + Xex(f, if swap then MulX(tweak0) else tweak0, old(input[ip..end])[..16])
    ensures input[ip + 16..end] == old(input[ip..end])[16..]
    ensures forall k :: 0 <= k < output.Length && !(op <= k < op + 16) ==> output[k] == old(output[k])
  {
    hide Xex, MulX, Gf128MulXBle;
    tweak := tweak0;
    Gf128IsMulX(tweak);
    if swap {
      tweak := Gf128MulXBle(tweak);
    }
    SubSlice(input, ip, end, 0, 16);
    SubSlice(input, ip, end, 16, end - ip);
    CryptBlock(f, tweak, input, ip, output, op);
    assert output[oo..op] == old(output[oo..op]);
    SplitSlice(output, oo, op, op + 16);
    assert input[ip + 16..end] == old(input[ip + 16..end]);
    Gf128IsMulX(tweak);
    tweak := Gf128MulXBle(tweak);
  }

  /** The loop over the full blocks. prev is the tweak saved for the partial block of a decryption. */
  method CryptBlocks(f: Block -> Block, mode: Mode, t0: Block, blocks0: nat, leftover: nat,
                     input: array<Byte>, io: nat, output: array<Byte>, oo: nat)
    returns (tweak: Block, prev: Block)
    requires io + 16 * blocks0 + leftover <= input.Length && oo + 16 * blocks0 + leftover <= output.Length && blocks0 > 0
    requires input != output || io == oo
    modifies output
    ensures var s := old(input[io..io + 16 * blocks0]);
            output[oo..oo + 16 * blocks0] == Written(f, mode, leftover, t0, s, blocks0, blocks0)
    ensures tweak == MulX(TweakUsed(mode, leftover, t0, blocks0 - 1, blocks0))
    ensures Swapped(mode, leftover, blocks0 - 1, blocks0) ==> prev == Tweak(t0, blocks0 - 1)
    ensures forall k :: 0 <= k < output.Length && !(oo <= k < oo + 16 * blocks0) ==> output[k] == old(output[k])
  {
    hide Xex, Written, MulX, Tweak, TweakUsed, Tweaked, Swapped;
    ghost var s := input[io..io + 16 * blocks0];
    tweak, prev := t0, t0;
    var blocks, ip, op := blocks0, io, oo;
    ghost var k: nat := 0;
    WrittenNone(f, mode, leftover, t0, s, blocks0);
    TweakedFirst(mode, leftover, t0, blocks0, prev);
    while blocks > 0
      invariant blocks + k == blocks0 && ip == io + 16 * k && op == oo + 16 * k
      invariant Tweaked(mode, leftover, t0, k, blocks0, tweak, prev)
      invariant output[oo..op] == Written(f, mode, leftover, t0, s, k, blocks0) && input[ip..ip + 16 * blocks] == s[16 * k..]
      invariant forall j :: 0 <= j < output.Length && !(oo <= j < op) ==> output[j] == old(output[j])
    {
      blocks := blocks - 1;
      tweak, prev := NextRound(f, mode, leftover, tweak, prev, blocks, input, ip, output, oo, op, t0, s, k, blocks0);
      op := op + 16;
      ip := ip + 16;
      k := k + 1;
    }
    TweakedEnd(mode, leftover, t0, blocks0, tweak, prev);
  }

  /** The round for block k of m, blocks being those after it. */
  method NextRound(f: Block -> Block, mode: Mode, leftover: nat, tweak0: Block, prev0: Block, blocks: nat,
                   input: array<Byte>, ip: nat, output: array<Byte>, ghost oo: nat, op: nat,
                   ghost t0: Block, ghost s: seq<Byte>, ghost k: nat, ghost m: nat)
    returns (tweak: Block, prev: Block)
    requires blocks + k + 1 == m && |s| == 16 * m && ip + 16 * (m - k) <= input.Length && op + 16 <= output.Length
    requires op == oo + 16 * k && (input != output || ip == op)
    requires Tweaked(mode, leftover, t0, k, m, tweak0, prev0)
    requires output[oo..op] == Written(f, mode, leftover, t0, s, k, m) && input[ip..ip + 16 * (m - k)] == s[16 * k..]
    modifies output
    ensures Tweaked(mode, leftover, t0, k + 1, m, tweak, prev)
    ensures output[oo..op + 16] == Written(f, mode, leftover, t0, s, k + 1, m)
    ensures input[ip + 16..ip + 16 * (m - k)] == s[16 * (k + 1)..]
    ensures forall j :: 0 <= j < output.Length && !(op <= j < op + 16) ==> output[j] == old(output[j])
  {
    hide Xex, Written, MulX, Tweak, TweakUsed, Tweaked, Swapped;
    var swap := leftover > 0 && mode == Decrypt && blocks == 0;
    TweakedNext(mode, leftover, t0, k, m, tweak0, prev0);
    prev := if swap then tweak0 else prev0;
    NextSlice(s, 16 * k, k);
    WrittenNext(f, mode, leftover, t0, s, k, m);
    tweak := NextBlock(f, tweak0, swap, input, ip, ip + 16 * (m - k), output, oo, op);
  }

  /** The two tweaks after k of m blocks. */
  ghost predicate Tweaked(mode: Mode, leftover: nat, t0: Block, k: nat, m: nat, tweak: Block, prev: Block)
  {
    (k < m ==> tweak == Tweak(t0, k)) &&
    (k == m > 0 ==> tweak == MulX(TweakUsed(mode, leftover, t0, m - 1, m))) &&
    (k == m > 0 && Swapped(mode, leftover, m - 1, m) ==> prev == Tweak(t0, m - 1))
  }

  lemma TweakedFirst(mode: Mode, leftover: nat, t0: Block, m: nat, prev: Block)
    requires m > 0
    ensures Tweaked(mode, leftover, t0, 0, m, t0, prev)
  {}

  lemma TweakedNext(mode: Mode, leftover: nat, t0: Block, k: nat, m: nat, tweak: Block, prev: Block)
    requires k < m && Tweaked(mode, leftover, t0, k, m, tweak, prev)
    ensures var swap := leftover > 0 && mode == Decrypt && m - k - 1 == 0;
            var used := if swap then MulX(tweak) else tweak;
            used == TweakUsed(mode, leftover, t0, k, m) &&
            Tweaked(mode, leftover, t0, k + 1, m, MulX(used), if swap then tweak else prev)
  {
    hide MulX;
    NextTweak(mode, leftover, t0, k, m);
  }

  lemma TweakedEnd(mode: Mode, leftover: nat, t0: Block, m: nat, tweak: Block, prev: Block)
    requires m > 0 && Tweaked(mode, leftover, t0, m, m, tweak, prev)
    ensures tweak == MulX(TweakUsed(mode, leftover, t0, m - 1, m))
    ensures Swapped(mode, leftover, m - 1, m) ==> prev == Tweak(t0, m - 1)
  {}

  lemma NextTweak(mode: Mode, leftover: nat, t0: Block, k: nat, m: nat)
    ensures TweakUsed(mode, leftover, t0, k, m) == if Swapped(mode, leftover, k, m) then MulX(Tweak(t0, k)) else Tweak(t0, k)
    ensures Tweak(t0, k + 1) == MulX(Tweak(t0, k))
  {
    hide MulX;
  }

  lemma NextSlice(s: seq<Byte>, i: nat, k: nat)
    requires i + 16 <= |s| && i == 16 * k
    ensures s[i..][..16] == s[16 * k..16 * k + 16] && s[i..][16..] == s[16 * (k + 1)..]
  {}

  lemma WrittenNone(f: Block -> Block, mode: Mode, leftover: nat, t0: Block, s: seq<Byte>, m: nat)
    ensures Written(f, mode, leftover, t0, s, 0, m) == []
  {}

  lemma WrittenNext(f: Block -> Block, mode: Mode, leftover: nat, t0: Block, s: seq<Byte>, k: nat, m: nat)
    requires 16 * k + 16 <= |s|
    ensures Written(f, mode, leftover, t0, s, k + 1, m)
         == Written(f, mode, leftover, t0, s, k, m) + Xex(f, TweakUsed(mode, leftover, t0, k, m), s[16 * k..16 * k + 16])
  {
    hide Xex;
    assert 16 * (k + 1) == 16 * k + 16;
  }

  /** XTS in the direction of f. */
  function XtsOf(mode: Mode, f: Block -> Block, t0: Block, s: seq<Byte>): (r: seq<Byte>)
    requires |s| >= 16
    ensures |r| == |s|
  {
    if mode == Encrypt then XtsEncrypt(f, t0, s) else XtsDecrypt(f, t0, s)
  }

  /** What the last full block becomes before any of it is stolen. */
  function LastFull(mode: Mode, f: Block -> Block, t0: Block, s: seq<Byte>): Block
    requires |s| >= 16
  {
    var m := |s| / 16;
    Xex(f, Tweak(t0, if mode == Decrypt then m else m - 1), s[16 * (m - 1)..16 * m])
  }

  /** What a call in place takes the data unit to be: its partial block is overwritten before it is read. */
  function Overwritten(mode: Mode, f: Block -> Block, t0: Block, s: seq<Byte>): (r: seq<Byte>)
    requires |s| >= 16
    ensures |r| == |s|
  {
    if |s| % 16 == 0 then s else s[..16 * (|s| / 16)] + LastFull(mode, f, t0, s)[..|s| % 16]
  }

  /** mbedtls_aes_crypt_xts. e and d are the two directions of the data key, w the tweak key's encryption. */
  method CryptXts(e: Block -> Block, d: Block -> Block, w: Block -> Block, mode: Mode, length: nat, dataUnit: Block,
                  input: array<Byte>, io: nat, output: array<Byte>, oo: nat)
    returns (ret: XtsRet)
    requires io + length <= input.Length && oo + length <= output.Length
    requires input != output || io == oo
    modifies output
    ensures ret == if length < 16 || length > 0x10_0000 * 16 then InvalidInputLength else Done
    ensures ret == Done ==> var s, f, t0 := old(input[io..io + length]), if mode == Encrypt then e else d, w(dataUnit);
            output[oo..oo + length] == XtsOf(mode, f, t0, if input == output then Overwritten(mode, f, t0, s) else s)
    ensures forall k :: 0 <= k < output.Length && !(oo <= k < oo + length) ==> output[k] == old(output[k])
  {
    hide XtsOf, Overwritten;
    var blocks, leftover := length / 16, length % 16;
    if length < 16 {
      return InvalidInputLength;
    }
    if length > 0x10_0000 * 16 {
      return InvalidInputLength;
    }
    CryptUnit(if mode == Encrypt then e else d, mode, w(dataUnit), blocks, leftover, input, io, output, oo);
    ret := Done;
  }

  /** The full blocks, and the partial one if there is one. */
  method CryptUnit(f: Block -> Block, mode: Mode, t0: Block, blocks: nat, leftover: nat,
                   input: array<Byte>, io: nat, output: array<Byte>, oo: nat)
    requires 0 < blocks && leftover < 16 && io + 16 * blocks + leftover <= input.Length && oo + 16 * blocks + leftover <= output.Length
    requires input != output || io == oo
    modifies output
    ensures var s := old(input[io..io + 16 * blocks + leftover]);
            output[oo..oo + 16 * blocks + leftover] == XtsOf(mode, f, t0, if input == output then Overwritten(mode, f, t0, s) else s)
    ensures forall k :: 0 <= k < output.Length && !(oo <= k < oo + 16 * blocks + leftover) ==> output[k] == old(output[k])
  {
    hide Xex, Written, MulX, XtsOf, Overwritten, Tweak, TweakUsed, Stolen, LastFull;
    ghost var n := 16 * blocks;
    ghost var s := input[io..io + n + leftover];
    assert input[io..io + n] == s[..n];
    var tweak, prev := CryptBlocks(f, mode, t0, blocks, leftover, input, io, output, oo);
    ghost var out := output[oo..oo + n];
    Finished(f, mode, t0, s, blocks, leftover, out);
    if leftover > 0 {
      NextTweak(mode, leftover, t0, blocks - 1, blocks);
      InPlace(f, mode, t0, s, blocks, leftover, out);
      assert input != output ==> input[io + n..io + n + leftover] == s[n..];
      FinalRound(f, if mode == Decrypt then prev else tweak, input, io + 16 * blocks, leftover, output, oo, 16 * blocks);
    }
  }

  /** The full blocks, with the last one replaced by ciphertext stealing, are what the standard prescribes. */
  lemma Finished(f: Block -> Block, mode: Mode, t0: Block, s: seq<Byte>, m: nat, b: nat, out: seq<Byte>)
    requires m > 0 && b < 16 && |s| == 16 * m + b && out == Written(f, mode, b, t0, s[..16 * m], m, m)
    ensures b == 0 ==> out == XtsOf(mode, f, t0, s) && Overwritten(mode, f, t0, s) == s
    ensures b > 0 ==> Stolen(f, if mode == Decrypt then Tweak(t0, m - 1) else Tweak(t0, m), out, s[16 * m..]) == XtsOf(mode, f, t0, s)
    ensures b > 0 ==> out[16 * m - 16..] == LastFull(mode, f, t0, s)
  {
    hide Xex, Blocks, Written, Tweak;
    var u := s[..16 * m];
    BlocksPrefix(f, t0, s, u, m);
    BlocksPrefix(f, t0, s, u, m - 1);
    if b == 0 {
      WrittenIsBlocks(f, mode, b, t0, u, m, m);
    } else {
      LastBlocks(f, mode, t0, s, m, b, out);
    }
  }

  lemma LastBlocks(f: Block -> Block, mode: Mode, t0: Block, s: seq<Byte>, m: nat, b: nat, out: seq<Byte>)
    requires m > 0 && 0 < b < 16 && |s| == 16 * m + b && out == Written(f, mode, b, t0, s[..16 * m], m, m)
    ensures out[..16 * m - 16] == Blocks(f, t0, s, m - 1)
    ensures out[16 * m - 16..] == LastFull(mode, f, t0, s)
  {
    hide Xex, Blocks, Written, Tweak;
    var u, n := s[..16 * m], 16 * (m - 1);
    BlocksPrefix(f, t0, s, u, m - 1);
    WrittenIsBlocks(f, mode, b, t0, u, m - 1, m);
    WrittenNext(f, mode, b, t0, u, m - 1, m);
    assert u[n..n + 16] == s[n..16 * m];
    assert out[..n] == Written(f, mode, b, t0, u, m - 1, m);
  }

  /** Working in place, the partial block read is the bytes just copied over it. */
  lemma InPlace(f: Block -> Block, mode: Mode, t0: Block, s: seq<Byte>, m: nat, b: nat, out: seq<Byte>)
    requires m > 0 && 0 < b < 16 && |s| == 16 * m + b && out == Written(f, mode, b, t0, s[..16 * m], m, m)
    ensures Stolen(f, if mode == Decrypt then Tweak(t0, m - 1) else Tweak(t0, m), out, out[16 * m - 16..][..b])
         == XtsOf(mode, f, t0, Overwritten(mode, f, t0, s))
  {
    hide Xex, Written, Tweak, XtsOf, Stolen;
    var r := Overwritten(mode, f, t0, s);
    LastBlocks(f, mode, t0, s, m, b, out);
    assert r[..16 * m] == s[..16 * m] && r[16 * m..] == out[16 * m - 16..][..b];
    Finished(f, mode, t0, r, m, b, out);
  }

  /** In place, a data unit is processed right exactly when it has no partial block or that block happens to be
      what is copied over it. */
  lemma InPlaceRightIff(g: Block -> Block, f: Block -> Block, mode: Mode, t0: Block, s: seq<Byte>)
    requires Undoes(g, f) && |s| >= 16
    ensures XtsOf(mode, f, t0, Overwritten(mode, f, t0, s)) == XtsOf(mode, f, t0, s)
       <==> |s| % 16 == 0 || s[16 * (|s| / 16)..] == LastFull(mode, f, t0, s)[..|s| % 16]
  {
    hide Xex, Blocks, Tweak, Undoes;
    var m, b := |s| / 16, |s| % 16;
    if b > 0 {
      var r, last := Overwritten(mode, f, t0, s), LastFull(mode, f, t0, s);
      var t := if mode == Decrypt then Tweak(t0, m - 1) else Tweak(t0, m);
      var part, copy := s[16 * m..], last[..b];
      assert r[16 * m..] == copy && r[..16 * m] == s[..16 * m];
      BlocksPrefix(f, t0, s, s[..16 * m], m - 1);
      BlocksPrefix(f, t0, r, r[..16 * m], m - 1);
      assert r[16 * (m - 1)..16 * m] == s[16 * (m - 1)..16 * m];
      XexInverse(f, g, t, part + last[b..]);
      XexInverse(f, g, t, copy + last[b..]);
      var head := Blocks(f, t0, s, m - 1);
      SamePieces(head, Xex(f, t, copy + last[b..]), Xex(f, t, part + last[b..]), copy);
      SameStart(copy, part, last[b..]);
    }
  }

  lemma SamePieces(head: seq<Byte>, x: seq<Byte>, y: seq<Byte>, tail: seq<Byte>)
    requires |x| == |y|
    ensures head + x + tail == head + y + tail <==> x == y
  {
    assert (head + x + tail)[|head|..|head| + |x|] == x && (head + y + tail)[|head|..|head| + |x|] == y;
  }

  lemma SameStart(x: seq<Byte>, y: seq<Byte>, tail: seq<Byte>)
    requires |x| == |y|
    ensures x + tail == y + tail <==> x == y
  {
    assert (x + tail)[..|x|] == x && (y + tail)[..|x|] == y;
  }

  /** So a call in place is right for every data unit of a length exactly when that length is whole blocks. */
  lemma InPlaceRightForLengthIff(g: Block -> Block, f: Block -> Block, mode: Mode, t0: Block, n: nat)
    requires Undoes(g, f) && n >= 16
    ensures n % 16 == 0
       <==> forall s: seq<Byte> :: |s| == n ==> XtsOf(mode, f, t0, Overwritten(mode, f, t0, s)) == XtsOf(mode, f, t0, s)
  {
    hide XtsOf, Undoes;
    if n % 16 > 0 {
      var s := SomeUnitGoesWrong(g, f, mode, t0, n / 16, n % 16);
    }
  }

  lemma SomeUnitGoesWrong(g: Block -> Block, f: Block -> Block, mode: Mode, t0: Block, m: nat, b: nat) returns (s: seq<Byte>)
    requires Undoes(g, f) && m > 0 && 0 < b < 16
    ensures |s| == 16 * m + b && XtsOf(mode, f, t0, Overwritten(mode, f, t0, s)) != XtsOf(mode, f, t0, s)
  {
    hide XtsOf, Overwritten, Undoes, LastFull;
    var whole := seq(16 * m, _ => 0 as Byte);
    s := whole + seq(b, _ => 0 as Byte);
    var u := whole + seq(b, _ => 1 as Byte);
    InPlaceRightIff(g, f, mode, t0, s);
    InPlaceRightIff(g, f, mode, t0, u);
    SameLastFull(mode, f, t0, s, u, m, b);
    assert s[16 * m..][0] == 0 && u[16 * m..][0] == 1;
    if XtsOf(mode, f, t0, Overwritten(mode, f, t0, s)) == XtsOf(mode, f, t0, s) { s := u; }
  }

  lemma SameLastFull(mode: Mode, f: Block -> Block, t0: Block, s: seq<Byte>, u: seq<Byte>, m: nat, b: nat)
    requires m > 0 && b < 16 && |s| == |u| == 16 * m + b && s[..16 * m] == u[..16 * m]
    ensures LastFull(mode, f, t0, s) == LastFull(mode, f, t0, u)
  {
    hide Xex, Tweak;
    assert s[16 * (m - 1)..16 * m] == s[..16 * m][16 * (m - 1)..];
    assert u[16 * (m - 1)..16 * m] == u[..16 * m][16 * (m - 1)..];
  }

  lemma {:induction false} BlocksPrefix(f: Block -> Block, t0: Block, s: seq<Byte>, u: seq<Byte>, k: nat)
    requires 16 * k <= |u| <= |s| && u == s[..|u|]
    ensures Blocks(f, t0, u, k) == Blocks(f, t0, s, k)
  {
    hide Xex, Tweak;
    if k > 0 {
      BlocksPrefix(f, t0, s, u, k - 1);
      assert u[16 * (k - 1)..16 * k] == s[16 * (k - 1)..16 * k];
    }
  }
}
