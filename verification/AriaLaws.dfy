/** What the key schedule and the rounds of ARIA have to satisfy (RFC 5794, sections 2.2 and 2.3). */
module AriaLaws {
  import opened Bytes
  import opened AriaDiffusion
  import opened Aria
  import opened AriaKeys
  import opened AriaTables

  lemma XorSwap(a: Block, b: Block)
    ensures XorBlock(a, b) == XorBlock(b, a)
  {
    forall i | 0 <= i < 16
      ensures XorBlock(a, b)[i] == XorBlock(b, a)[i]
    {
      XorComm(a[i], b[i]);
    }
  }

  /** Either operand of an exclusive-or is determined by the result and the other. */
  lemma XorDetermines(x: Block, a: Block, y: Block, b: Block)
    requires XorBlock(x, a) == XorBlock(y, b)
    ensures (x == y) == (a == b)
  {
    hide XorBlock;
    XorCancel(x, a);
    XorCancel(y, b);
    XorSwap(x, a);
    XorSwap(y, b);
    XorCancel(a, x);
    XorCancel(b, y);
  }

  // ----- the key words -----

  /** The constants of the standard, byte by byte. */
  function C1(): Block { [0x51, 0x7c, 0xc1, 0xb7, 0x27, 0x22, 0x0a, 0x94, 0xfe, 0x13, 0xab, 0xe8, 0xfa, 0x9a, 0x6e, 0xe0] }
  function C2(): Block { [0x6d, 0xb1, 0x4a, 0xcc, 0x9e, 0x21, 0xc8, 0x20, 0xff, 0x28, 0xb1, 0xd5, 0xef, 0x5d, 0xe2, 0xb0] }
  function C3(): Block { [0xdb, 0x92, 0x37, 0x1d, 0x21, 0x26, 0xe9, 0x70, 0x03, 0x24, 0x97, 0x75, 0x04, 0xe8, 0xc9, 0x0e] }

  lemma Constants(i: nat)
    ensures ToBlock(Ck(3 * i)) == C1() && ToBlock(Ck(3 * i + 1)) == C2() && ToBlock(Ck(3 * i + 2)) == C3()
  {
    hide ToBlock, C1, C2, C3;
    FirstConstant(Ck(3 * i));
    SecondConstant(Ck(3 * i + 1));
    ThirdConstant(Ck(3 * i + 2));
  }

  /** The order in which the constants are used depends on the key size. */
  lemma KeyWordsAreStandard(key: seq<Byte>, keybits: nat)
    requires keybits == 128 || keybits == 192 || keybits == 256
    requires |key| * 8 >= keybits
    ensures var kl: Block, kr: Block := PaddedKey(key, keybits)[..16], PaddedKey(key, keybits)[16..];
            var w := KeyWords(key, keybits);
            var ck1 := if keybits == 128 then C1() else if keybits == 192 then C2() else C3();
            var ck2 := if keybits == 128 then C2() else if keybits == 192 then C3() else C1();
            var ck3 := if keybits == 128 then C3() else if keybits == 192 then C1() else C2();
            w[0] == kl && w[1] == XorBlock(Fo(w[0], ck1), kr) && w[2] == XorBlock(Fe(w[1], ck2), w[0]) && w[3] == XorBlock(Fo(w[2], ck3), w[1])
  {
    hide ToBlock, C1, C2, C3, Fo, Fe, XorBlock, Ck, PaddedKey;
    Constants(0);
    Constants(1);
  }

  lemma FirstConstant(q: Quad)
    requires q == Quad(Word(0xB7C17C51), Word(0x940A2227), Word(0xE8AB13FE), Word(0xE06E9AFA))
    ensures ToBlock(q) == C1()
  {}

  lemma SecondConstant(q: Quad)
    requires q == Quad(Word(0xCC4AB16D), Word(0x20C8219E), Word(0xD5B128FF), Word(0xB0E25DEF))
    ensures ToBlock(q) == C2()
  {}

  lemma ThirdConstant(q: Quad)
    requires q == Quad(Word(0x1D3792DB), Word(0x70E92621), Word(0x75972403), Word(0x0EC9E804))
    ensures ToBlock(q) == C3()
  {}

  /** The key words are a Feistel network on the two halves of the key, so any two neighbours determine the key. */
  lemma WordsDetermineKey(key1: seq<Byte>, key2: seq<Byte>, keybits: nat, i: nat)
    requires keybits == 128 || keybits == 192 || keybits == 256
    requires |key1| * 8 >= keybits && |key2| * 8 >= keybits && i < 3
    requires KeyWord(key1, keybits, i) == KeyWord(key2, keybits, i) && KeyWord(key1, keybits, i + 1) == KeyWord(key2, keybits, i + 1)
    ensures key1[..keybits / 8] == key2[..keybits / 8]
    decreases i
  {
    hide XorBlock, Fo, Fe, ToBlock, Ck;
    if i == 0 {
      var q := (keybits - 128) / 64;
      var f1, f2 := Fo(KeyWord(key1, keybits, 0), ToBlock(Ck(q))), Fo(KeyWord(key2, keybits, 0), ToBlock(Ck(q)));
      XorDetermines(f1, PaddedKey(key1, keybits)[16..], f2, PaddedKey(key2, keybits)[16..]);
      HalvesDetermine(key1, key2, keybits);
    } else {
      EarlierWord(key1, key2, keybits, i);
      WordsDetermineKey(key1, key2, keybits, i - 1);
    }
  }

  lemma EarlierWord(key1: seq<Byte>, key2: seq<Byte>, keybits: nat, i: nat)
    requires keybits == 128 || keybits == 192 || keybits == 256
    requires |key1| * 8 >= keybits && |key2| * 8 >= keybits && 0 < i < 3
    requires KeyWord(key1, keybits, i) == KeyWord(key2, keybits, i) && KeyWord(key1, keybits, i + 1) == KeyWord(key2, keybits, i + 1)
    ensures KeyWord(key1, keybits, i - 1) == KeyWord(key2, keybits, i - 1)
  {
    hide XorBlock, Fo, Fe, ToBlock, Ck;
    var c := ToBlock(Ck((keybits - 128) / 64 + i));
    var x1, x2, w1, w2 := KeyWord(key1, keybits, i), KeyWord(key2, keybits, i), KeyWord(key1, keybits, i - 1), KeyWord(key2, keybits, i - 1);
    if i == 1 {
      XorDetermines(Fe(x1, c), w1, Fe(x2, c), w2);
    } else {
      XorDetermines(Fo(x1, c), w1, Fo(x2, c), w2);
    }
  }

  lemma HalvesDetermine(key1: seq<Byte>, key2: seq<Byte>, keybits: nat)
    requires keybits == 128 || keybits == 192 || keybits == 256
    requires |key1| * 8 >= keybits && |key2| * 8 >= keybits
    requires PaddedKey(key1, keybits)[..16] == PaddedKey(key2, keybits)[..16]
    requires PaddedKey(key1, keybits)[16..] == PaddedKey(key2, keybits)[16..]
    ensures key1[..keybits / 8] == key2[..keybits / 8]
  {
    var n := keybits / 8;
    var p1, p2 := PaddedKey(key1, keybits), PaddedKey(key2, keybits);
    assert p1 == p1[..16] + p1[16..] && p2 == p2[..16] + p2[16..];
    assert p1[..n] == key1[..n] && p2[..n] == key2[..n];
  }

  // ----- the round keys -----

  /** Bit i of a block from the most significant one, the top bit of byte 0. */
  predicate BlockBit(x: Block, i: nat)
    requires i < 128
  {
    ByteBit(x[i / 8], Low(7 - i % 8))
  }

  /** j as an amount. */
  function Low(j: nat): (c: Count)
    requires j < 32
    ensures c < 32 && c as nat == j
  {
    j as bv8
  }

  predicate ByteBit(b: Byte, j: Count)
    requires j < 8
  {
    (b >> j) & 1 == 1
  }

  /** Round key j: a key word and the next one, rotated right by 19 or 31 or left by 61, 31 or 19 bits. */
  lemma RoundKeyBits(w: seq<Block>, j: nat, i: nat)
    requires |w| == 4 && j <= 16 && i < 128
    ensures var from := if j < 4 then i - 19 else if j < 8 then i - 31 else if j < 12 then i + 61 else if j < 16 then i + 31 else i + 19;
            BlockBit(EncKey(w, j), i) == (BlockBit(w[j % 4], i) != BlockBit(w[(j + 1) % 4], from % 128))
  {
    hide BlockBit, RotL, ToBlock, FromBlock, XorBlock;
    var n: Count := if j < 4 then 128 - 19 else if j < 8 then 128 - 31 else if j < 12 then 61 else if j < 16 then 31 else 19;
    var k := if j < 4 then 109 else if j < 8 then 97 else if j < 12 then 61 else if j < 16 then 31 else 19;
    Amounts(n, k);
    RotatedLeft(w[(j + 1) % 4], n, k, i);
    XorBits(w[j % 4], ToBlock(RotL(FromBlock(w[(j + 1) % 4]), n)), i);
  }

  lemma Amounts(n: Count, k: nat)
    requires (n == 109 && k == 109) || (n == 97 && k == 97) || (n == 61 && k == 61) || (n == 31 && k == 31) || (n == 19 && k == 19)
    ensures Words(n) == k / 32 && Bits(n) != 0 && Bits(n) as nat == k % 32
  {}

  lemma XorBits(x: Block, y: Block, i: nat)
    requires i < 128
    ensures BlockBit(XorBlock(x, y), i) == (BlockBit(x, i) != BlockBit(y, i))
  {
    hide XorByte, ByteBit;
    XorByteBit(x[i / 8], y[i / 8], Low(7 - i % 8));
  }

  lemma XorByteBit(a: Byte, b: Byte, j: Count)
    requires j < 8
    ensures ByteBit(XorByte(a, b), j) == (ByteBit(a, j) != ByteBit(b, j))
  {}

  /** The rotation of words is the rotation of the 128-bit number. */
  lemma RotatedLeft(x: Block, n: Count, k: nat, i: nat)
    requires i < 128 && Words(n) == k / 32 && Bits(n) != 0 && Bits(n) as nat == k % 32 && k < 128
    ensures BlockBit(ToBlock(RotL(FromBlock(x), n)), i) == BlockBit(x, (i + k) % 128)
  {
    hide *;
    var l, m := i / 32, 31 - i % 32;
    var j := Low(m);
    InWord(i);
    Places(i, k);
    ResultBit(x, n, i, l, j, m);
    RotationBits(FromBlock(x), n, l, j);
    SourceBit(x, n, l, j, m, k % 32);
  }

  lemma InWord(i: nat)
    requires i < 128
    ensures i / 32 < 4 && 0 <= 31 - i % 32 < 32
  {}

  lemma ResultBit(x: Block, n: Count, i: nat, l: nat, j: Count, m: nat)
    requires l < 4 && j < 32 && j as nat == m < 32 && i == 32 * l + 31 - m
    ensures BitAt(RotL(FromBlock(x), n), l, j) == BlockBit(ToBlock(RotL(FromBlock(x), n)), i)
  {
    hide *;
    QuadOfBlock(RotL(FromBlock(x), n));
    WordBits(ToBlock(RotL(FromBlock(x), n)), l, j, m);
  }

  lemma SourceBit(x: Block, n: Count, l: nat, j: Count, m: nat, r: nat)
    requires l < 4 && j < 32 && j as nat == m < 32 && Bits(n) as nat == r < 32
    ensures RotatedBit(FromBlock(x), n, l, j)
            == if m >= r then BlockBit(x, 32 * Index(Words(n) + l) + 31 - (m - r)) else BlockBit(x, 32 * Index(Words(n) + l + 1) + 31 - (32 + m - r))
  {
    hide *;
    if m >= r { SourceAbove(x, n, l, j, m, r); } else { SourceBelow(x, n, l, j, m, r); }
  }

  lemma SourceAbove(x: Block, n: Count, l: nat, j: Count, m: nat, r: nat)
    requires l < 4 && j < 32 && j as nat == m < 32 && Bits(n) as nat == r <= m
    ensures RotatedBit(FromBlock(x), n, l, j) == BlockBit(x, 32 * Index(Words(n) + l) + 31 - (m - r))
  {
    hide *;
    var d := Minus(j, Bits(n), m, r);
    UpperSource(FromBlock(x), n, l, j, d);
    WordBits(x, Index(Words(n) + l), d, m - r);
  }

  lemma SourceBelow(x: Block, n: Count, l: nat, j: Count, m: nat, r: nat)
    requires l < 4 && j < 32 && j as nat == m < r && Bits(n) as nat == r <= 32
    ensures RotatedBit(FromBlock(x), n, l, j) == BlockBit(x, 32 * Index(Words(n) + l + 1) + 31 - (32 + m - r))
  {
    hide *;
    var d := MinusRound(j, Bits(n), m, r);
    LowerSource(FromBlock(x), n, l, j, d);
    WordBits(x, Index(Words(n) + l + 1), d, 32 + m - r);
  }

  lemma UpperSource(b: Quad, n: Count, l: nat, j: Count, d: Count)
    requires l < 4 && Bits(n) <= j < 32 && d == j - Bits(n) && d < 32
    ensures RotatedBit(b, n, l, j) == BitAt(b, Index(Words(n) + l), d)
  {
    hide BitAt, Bits, Words, Index;
  }

  lemma LowerSource(b: Quad, n: Count, l: nat, j: Count, d: Count)
    requires l < 4 && j < Bits(n) && d == 32 + j - Bits(n) && d < 32
    ensures RotatedBit(b, n, l, j) == BitAt(b, Index(Words(n) + l + 1), d)
  {
    hide BitAt, Bits, Words, Index;
  }

  lemma Places(i: nat, k: nat)
    requires i < 128 && k < 128
    ensures var m, r := 31 - i % 32, k % 32;
            32 * (i / 32) + 31 - m == i &&
            (i + k) % 128 == if m >= r then 32 * Index(k / 32 + i / 32) + 31 - (m - r) else 32 * Index(k / 32 + i / 32 + 1) + 31 - (32 + m - r)
  {}

  lemma Minus(a: Count, b: Count, m: nat, n: nat) returns (d: Count)
    requires a < 32 && b < 32 && a as nat == m && b as nat == n && n <= m
    ensures b <= a && d == a - b && d < 32 && d as nat == m - n
  {
    d := a - b;
  }

  lemma MinusRound(a: Count, b: Count, m: nat, n: nat) returns (d: Count)
    requires a < 32 && b < 32 && a as nat == m && b as nat == n && m < n
    ensures a < b && d == 32 + a - b && d < 32 && d as nat == 32 + m - n
  {
    d := 32 + a - b;
  }

  /** Bit j of word l, counted from the least significant one. */
  lemma WordBits(x: Block, l: nat, j: Count, m: nat)
    requires l < 4 && j < 32 && j as nat == m
    ensures m < 32 && BitAt(FromBlock(x), l, j) == BlockBit(x, 32 * l + 31 - m)
  {
    hide Le32, ByteBit, BitOf, P3, Low, FromBlock;
    Split(j, m);
    InByte(l, m);
    WordOf(x, l);
    Le32Bits(x[4 * l], x[4 * l + 1], x[4 * l + 2], x[4 * l + 3], j);
  }

  lemma WordOf(x: Block, l: nat)
    requires l < 4
    ensures WordAt(FromBlock(x), l) == Le32(x[4 * l], x[4 * l + 1], x[4 * l + 2], x[4 * l + 3])
  {
    hide Le32;
  }

  lemma InByte(l: nat, m: nat)
    requires l < 4 && m < 32
    ensures (32 * l + 31 - m) / 8 == 4 * l + (if m < 8 then 3 else if m < 16 then 2 else if m < 24 then 1 else 0)
    ensures 7 - (32 * l + 31 - m) % 8 == m % 8
  {}

  lemma Split(j: Count, m: nat)
    requires j < 32 && j as nat == m
    ensures m < 32 && j % 8 == Low(m % 8) && j % 8 < 8 && (j < 8 <==> m < 8) && (j < 16 <==> m < 16) && (j < 24 <==> m < 24)
  {}

  lemma Le32Bits(p: Byte, q: Byte, r: Byte, s: Byte, j: Count)
    requires j < 32
    ensures BitOf(P3(Le32(p, q, r, s)), j) == ByteBit(if j < 8 then s else if j < 16 then r else if j < 24 then q else p, j % 8)
  {}

  // ----- the rounds -----

  /** The state after m pairs of rounds. */
  function Pairs(rk: seq<Block>, p: Block, m: nat): Block
    requires 2 * m <= |rk|
  {
    if m == 0 then p else Fe(Fo(Pairs(rk, p, m - 1), rk[2 * m - 2]), rk[2 * m - 1])
  }

  lemma {:induction false} BeforeIsPairs(rk: seq<Block>, p: Block, m: nat)
    requires 2 * m <= |rk|
    ensures Before(rk, p, 2 * m) == Pairs(rk, p, m)
  {
    hide A, Sl1, Sl2, XorBlock;
    if m > 0 {
      BeforeIsPairs(rk, p, m - 1);
      assert Before(rk, p, 2 * m - 1) == Fo(Before(rk, p, 2 * m - 2), rk[2 * m - 2]);
    }
  }

  /** The rounds as the standard writes them down: FO and FE in turn, and at the end a substitution between two keys. */
  lemma CryptIsStandard(rk: seq<Block>, p: Block, m: nat)
    requires m > 0 && 2 * m < |rk|
    ensures Crypt(rk, 2 * m, p)
            == XorBlock(Sl2(XorBlock(Fo(Pairs(rk, p, m - 1), rk[2 * m - 2]), rk[2 * m - 1])), rk[2 * m])
  {
    hide A, Sl1, Sl2, XorBlock;
    BeforeIsPairs(rk, p, m - 1);
    assert Before(rk, p, 2 * m - 1) == Fo(Before(rk, p, 2 * m - 2), rk[2 * m - 2]);
  }

  /** Which table serves which byte: the substitution layers on a block of zeros. */
  lemma ZerosSubstituted(x: Block, i: nat)
    requires i < 4 && forall j :: 0 <= j < 16 ==> x[j] == 0
    ensures Sl1(x)[4 * i] == 0x63 && Sl1(x)[4 * i + 1] == 0xE2 && Sl1(x)[4 * i + 2] == 0x52 && Sl1(x)[4 * i + 3] == 0x30
    ensures Sl2(x)[4 * i] == 0x52 && Sl2(x)[4 * i + 1] == 0x30 && Sl2(x)[4 * i + 2] == 0x63 && Sl2(x)[4 * i + 3] == 0xE2
  {
    hide Sb1, Sb2, Is1, Is2;
    FirstEntries();
  }

  lemma FirstEntries()
    ensures Sb1(0) == 0x63 && Sb2(0) == 0xE2 && Is1(0) == 0x52 && Is2(0) == 0x30
  {}

  lemma SlDetermines(i: nat, x: Block, y: Block)
    requires SlOf(i, x) == SlOf(i, y)
    ensures x == y
  {
    hide Sl1, Sl2;
    SlInverse(x);
    SlInverse(y);
  }

  lemma ADetermines(x: Block, y: Block)
    requires A(x) == A(y)
    ensures x == y
  {
    hide A;
    AInvolution(x);
    AInvolution(y);
  }

  /** Two runs that agree in all round keys from k on, and differ before round k, differ before round i. */
  lemma {:induction false} StaysDifferent(rk1: seq<Block>, rk2: seq<Block>, p1: Block, p2: Block, k: nat, i: nat)
    requires k <= i <= |rk1| && i <= |rk2| && Before(rk1, p1, k) != Before(rk2, p2, k)
    requires forall j :: k <= j < i ==> rk1[j] == rk2[j]
    ensures Before(rk1, p1, i) != Before(rk2, p2, i)
    decreases i
  {
    hide A, SlOf, XorBlock;
    if i > k {
      StaysDifferent(rk1, rk2, p1, p2, k, i - 1);
      var x, y := Before(rk1, p1, i - 1), Before(rk2, p2, i - 1);
      var u, v := XorBlock(x, rk1[i - 1]), XorBlock(y, rk2[i - 1]);
      if Before(rk1, p1, i) == Before(rk2, p2, i) {
        ADetermines(SlOf(i - 1, u), SlOf(i - 1, v));
        SlDetermines(i - 1, u, v);
        XorDetermines(x, rk1[i - 1], y, rk2[i - 1]);
      }
    }
  }

  lemma {:induction false} SameStates(rk1: seq<Block>, rk2: seq<Block>, p: Block, i: nat)
    requires i <= |rk1| && i <= |rk2| && forall j :: 0 <= j < i ==> rk1[j] == rk2[j]
    ensures Before(rk1, p, i) == Before(rk2, p, i)
    decreases i
  {
    if i > 0 { SameStates(rk1, rk2, p, i - 1); }
  }

  /** No round key is without effect: for every message, changing exactly one of them changes the ciphertext. */
  lemma EveryKeyMatters(rk1: seq<Block>, rk2: seq<Block>, nr: nat, p: Block, k: nat)
    requires 0 < nr < |rk1| && nr < |rk2| && k <= nr
    requires forall j :: 0 <= j <= nr ==> (rk1[j] == rk2[j] <==> j != k)
    ensures Crypt(rk1, nr, p) != Crypt(rk2, nr, p)
  {
    hide A, SlOf, XorBlock, Before;
    var x, y := Before(rk1, p, nr - 1), Before(rk2, p, nr - 1);
    var u, v := XorBlock(x, rk1[nr - 1]), XorBlock(y, rk2[nr - 1]);
    if k < nr {
      StatesBeforeLast(rk1, rk2, nr, p, k);
      assert u != v by { if u == v { XorDetermines(x, rk1[nr - 1], y, rk2[nr - 1]); } }
      if Crypt(rk1, nr, p) == Crypt(rk2, nr, p) {
        XorDetermines(SlOf(nr - 1, u), rk1[nr], SlOf(nr - 1, v), rk2[nr]);
        SlDetermines(nr - 1, u, v);
      }
    } else {
      SameStates(rk1, rk2, p, nr - 1);
      if Crypt(rk1, nr, p) == Crypt(rk2, nr, p) {
        XorDetermines(SlOf(nr - 1, u), rk1[nr], SlOf(nr - 1, v), rk2[nr]);
      }
    }
  }

  /** A changed round key before the last but one has changed the state, a changed last but one key has not. */
  lemma StatesBeforeLast(rk1: seq<Block>, rk2: seq<Block>, nr: nat, p: Block, k: nat)
    requires 0 < nr < |rk1| && nr < |rk2| && k < nr
    requires forall j :: 0 <= j <= nr ==> (rk1[j] == rk2[j] <==> j != k)
    ensures (Before(rk1, p, nr - 1) == Before(rk2, p, nr - 1)) <==> k == nr - 1
  {
    hide A, SlOf, XorBlock;
    SameStates(rk1, rk2, p, k);
    if k < nr - 1 {
      var x, u, v := Before(rk1, p, k), XorBlock(Before(rk1, p, k), rk1[k]), XorBlock(Before(rk2, p, k), rk2[k]);
      if Before(rk1, p, k + 1) == Before(rk2, p, k + 1) {
        ADetermines(SlOf(k, u), SlOf(k, v));
        SlDetermines(k, u, v);
        XorDetermines(x, rk1[k], x, rk2[k]);
      }
      StaysDifferent(rk1, rk2, p, p, k + 1, nr - 1);
    }
  }

  // ----- diffusion -----

  /** Bit k of m. */
  predicate Has(m: bv16, k: nat)
  {
    if k == 0 then m & 1 == 1 else Has(m >> 1, k - 1)
  }

  /** Input byte k is a term of output byte i. */
  predicate Reaches(k: nat, i: nat)
    requires i < 16
  {
    Has(Row(i), k)
  }

  /** A sum with one nonzero term. */
  lemma {:induction false} LinOne(m: bv16, s: seq<Byte>, k: nat)
    requires k < |s| && forall j :: 0 <= j < |s| && j != k ==> s[j] == 0
    ensures Lin(m, s) == if Has(m, k) then s[k] else 0
    decreases k
  {
    hide XorByte;
    XorZero(s[k]);
    XorZero(0);
    if k == 0 {
      LinNone(m >> 1, s[1..]);
    } else {
      LinOne(m >> 1, s[1..], k - 1);
    }
  }

  lemma {:induction false} LinNone(m: bv16, s: seq<Byte>)
    requires forall j :: 0 <= j < |s| ==> s[j] == 0
    ensures Lin(m, s) == 0
  {
    hide XorByte;
    XorZero(0);
    if |s| > 0 { LinNone(m >> 1, s[1..]); }
  }

  /** One changed byte changes exactly the output bytes it is a term of, whatever the other bytes are. */
  lemma ASpreads(x: Block, y: Block, k: nat, i: nat)
    requires k < 16 && i < 16 && forall j :: 0 <= j < 16 ==> (x[j] == y[j] <==> j != k)
    ensures A(x)[i] != A(y)[i] <==> Reaches(k, i)
  {
    hide XorByte, Lin, Row, A, Has;
    var d := XorBlock(x, y);
    forall j | 0 <= j < 16
      ensures d[j] == 0 <==> j != k
    {
      XorOfEqual(x[j], y[j]);
    }
    ALinear(x, y);
    AByte(d, i);
    LinOne(Row(i), d, k);
    XorOfEqual(A(x)[i], A(y)[i]);
  }

  lemma AByte(x: Block, i: nat)
    requires i < 16
    ensures A(x)[i] == Lin(Row(i), x)
  {
    hide Lin, Row;
  }

  lemma XorOfEqual(a: Byte, b: Byte)
    ensures XorByte(a, b) == 0 <==> a == b
  {}

  lemma SlSpreads(x: Block, y: Block, j: nat)
    requires j < 16
    ensures (Sl1(x)[j] == Sl1(y)[j]) <==> x[j] == y[j]
    ensures (Sl2(x)[j] == Sl2(y)[j]) <==> x[j] == y[j]
  {
    hide Sb1, Sb2, Is1, Is2;
    Is1UndoesSb1(x[j]);
    Is1UndoesSb1(y[j]);
    Sb1UndoesIs1(x[j]);
    Sb1UndoesIs1(y[j]);
    Is2UndoesSb2(x[j]);
    Is2UndoesSb2(y[j]);
    Sb2UndoesIs2(x[j]);
    Sb2UndoesIs2(y[j]);
  }

  /** Through a round, one changed byte of the state changes exactly the bytes that the diffusion sends it to. */
  lemma RoundSpreads(x: Block, y: Block, rk: Block, k: nat, i: nat)
    requires k < 16 && i < 16 && forall j :: 0 <= j < 16 ==> (x[j] == y[j] <==> j != k)
    ensures Fo(x, rk)[i] != Fo(y, rk)[i] <==> Reaches(k, i)
    ensures Fe(x, rk)[i] != Fe(y, rk)[i] <==> Reaches(k, i)
  {
    hide XorByte, A, Sl1, Sl2, Reaches;
    var u, v := XorBlock(x, rk), XorBlock(y, rk);
    forall j | 0 <= j < 16
      ensures (Sl1(u)[j] == Sl1(v)[j] <==> j != k) && (Sl2(u)[j] == Sl2(v)[j] <==> j != k)
    {
      XorByteTwice(x[j], rk[j]);
      XorByteTwice(y[j], rk[j]);
      SlSpreads(u, v, j);
    }
    ASpreads(Sl1(u), Sl1(v), k, i);
    ASpreads(Sl2(u), Sl2(v), k, i);
  }
}
