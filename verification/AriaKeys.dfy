/** aria.c: the key schedules and the block routine, on a context whose round keys are changed in place. */
module AriaKeys {
  import opened Bytes
  import opened AriaDiffusion
  import opened Aria
  import AriaTables

  // ----- 128-bit rotation -----

  /** uint8_t, as the amount of a rotation. */
  type Count = bv8

  function ShlN(u: Word, n: Count): Word
    requires n <= 32
  {
    Word(u.bits << n)
  }

  function ShrN(u: Word, n: Count): Word
    requires n <= 32
  {
    Word(u.bits >> n)
  }

  function OrWord(u: Word, v: Word): Word { Word(u.bits | v.bits) }

  /** The bit offset, the reverse bit offset and the word offset of a rotation by n. */
  function Bits(n: Count): (m: Count)
    ensures m < 32
  {
    n % 32
  }

  function Back(n: Count): (m: Count)
    ensures m <= 32
  {
    if Bits(n) != 0 then 32 - Bits(n) else 0
  }

  function Words(n: Count): (j: nat)
  {
    ((n / 32) % 4) as nat
  }

  function Index(k: nat): (j: nat)
    ensures j < 4
  {
    k % 4
  }

  function WordAt(q: Quad, j: nat): Word
    requires j < 4
  {
    if j == 0 then q.a else if j == 1 then q.b else if j == 2 then q.c else q.d
  }

  /** Word i of the result, put together from two neighbouring words. */
  function RotWord(b: Quad, n: Count, i: nat): Word
  {
    P3(OrWord(ShlN(P3(WordAt(b, Index(Words(n) + i))), Bits(n)), ShrN(P3(WordAt(b, Index(Words(n) + i + 1))), Back(n))))
  }

  /** b <<< n as the code computes it. */
  function RotL(b: Quad, n: Count): Quad
  {
    Quad(RotWord(b, n, 0), RotWord(b, n, 1), RotWord(b, n, 2), RotWord(b, n, 3))
  }

  /** A block read as a number, first byte most significant: bit j of its word k, word 0 being the highest. */
  predicate BitAt(q: Quad, k: nat, j: Count)
    requires k < 4 && j < 32
  {
    BitOf(P3(WordAt(q, k)), j)
  }

  predicate BitOf(w: Word, j: Count)
    requires j < 32
  {
    (w.bits >> j) & 1 == 1
  }

  /** Bit j of word k of the rotation by n: n positions lower, going round, words counting down from the top. */
  predicate RotatedBit(b: Quad, n: Count, k: nat, j: Count)
    requires k < 4 && j < 32
  {
    if j >= Bits(n) then BitAt(b, Index(Words(n) + k), j - Bits(n)) else BitAt(b, Index(Words(n) + k + 1), 32 + j - Bits(n))
  }

  lemma P3Twice(w: Word)
    ensures P3(P3(w)) == w
  {}

  lemma ShiftedBit(u: Word, v: Word, m: Count, j: Count)
    requires 0 < m < 32 && j < 32
    ensures BitOf(OrWord(ShlN(u, m), ShrN(v, 32 - m)), j) == if j >= m then BitOf(u, j - m) else BitOf(v, 32 + j - m)
  {
    hide BitOf, OrWord, ShlN, ShrN;
    if j >= m { UpperBit(u, v, m, j); } else { LowerBit(u, v, m, j); }
  }

  lemma UpperBit(u: Word, v: Word, m: Count, j: Count)
    requires 0 < m <= j < 32
    ensures BitOf(OrWord(ShlN(u, m), ShrN(v, 32 - m)), j) == BitOf(u, j - m)
  {}

  lemma LowerBit(u: Word, v: Word, m: Count, j: Count)
    requires j < m < 32
    ensures BitOf(OrWord(ShlN(u, m), ShrN(v, 32 - m)), j) == BitOf(v, 32 + j - m)
  {}

  lemma RotLWord(b: Quad, n: Count, k: nat)
    requires k < 4
    ensures WordAt(RotL(b, n), k) == RotWord(b, n, k)
  {
    hide RotWord;
  }

  /** What the code computes is the rotation of the 128-bit number whenever the amount is not a multiple of 32. */
  lemma RotationBits(b: Quad, n: Count, k: nat, j: Count)
    requires k < 4 && j < 32 && Bits(n) != 0
    ensures BitAt(RotL(b, n), k, j) == RotatedBit(b, n, k, j)
  {
    hide P3, ShlN, ShrN, OrWord, BitOf, RotL, Bits, Words, Index;
    RotLWord(b, n, k);
    var u, v := P3(WordAt(b, Index(Words(n) + k))), P3(WordAt(b, Index(Words(n) + k + 1)));
    P3Twice(OrWord(ShlN(u, Bits(n)), ShrN(v, Back(n))));
    ShiftedBit(u, v, Bits(n), j);
  }

  /** For a multiple of 32 it combines neighbouring words, so it is the rotation for every block exactly otherwise. */
  lemma RotatesIff(n: Count)
    ensures Bits(n) != 0 <==>
            forall b: Quad, k: nat, j: Count :: k < 4 && j < 32 ==> BitAt(RotL(b, n), k, j) == RotatedBit(b, n, k, j)
  {
    hide RotL, BitAt, RotatedBit, Bits;
    forall b: Quad, k: nat, j: Count | k < 4 && j < 32 && Bits(n) != 0
      ensures BitAt(RotL(b, n), k, j) == RotatedBit(b, n, k, j)
    {
      RotationBits(b, n, k, j);
    }
    if Bits(n) == 0 {
      var b := CombinesWords(n);
      assert BitAt(RotL(b, n), 0, 0) != RotatedBit(b, n, 0, 0);
    }
  }

  /** A block on which the amount n goes wrong: only the word that should not be read is not zero. */
  lemma CombinesWords(n: Count) returns (b: Quad)
    requires Bits(n) == 0
    ensures BitAt(RotL(b, n), 0, 0) && !RotatedBit(b, n, 0, 0)
  {
    hide Bits, Words, P3, BitOf, ShlN, ShrN, OrWord;
    var j, one, zero := Index(Words(n) + 1), Word(0x0100_0000), Word(0);
    b := Quad(if j == 0 then one else zero, if j == 1 then one else zero, if j == 2 then one else zero, if j == 3 then one else zero);
    assert WordAt(b, Index(Words(n))) == zero && WordAt(b, j) == one;
    CombinedBit(zero, one);
  }

  lemma CombinedBit(zero: Word, one: Word)
    requires zero == Word(0) && one == Word(0x0100_0000)
    ensures BitOf(P3(P3(OrWord(ShlN(P3(zero), 0), ShrN(P3(one), 0)))), 0) && !BitOf(P3(zero), 0)
  {}

  lemma NextIndex(k: nat)
    ensures (Index(k) + 1) % 4 == Index(k + 1)
  {}

  /** aria_rot128: r = a ^ (b <<< n). */
  method Rot128(a: Quad, b: Quad, n: Count) returns (r: Quad)
    ensures r == XorQuad(a, RotL(b, n))
  {
    hide P3, ShlN, ShrN, OrWord, XorWord, Index, Words, Bits;
    var n1, n2 := Bits(n), Back(n);
    var w := Words(n);
    var j := Index(w);
    var t := P3(WordAt(b, j));
    var u: Word;
    var out: seq<Word> := [];
    for i := 0 to 4
      invariant |out| == i && j == Index(w + i) && t == P3(WordAt(b, j))
      invariant forall k :: 0 <= k < i ==> out[k] == XorWord(WordAt(a, k), RotWord(b, n, k))
    {
      NextIndex(w + i);
      j := (j + 1) % 4;
      u := P3(WordAt(b, j));
      t := ShlN(t, n1);
      t := OrWord(t, ShrN(u, n2));
      t := P3(t);
      out := out + [XorWord(WordAt(a, i), t)];
      t := u;
    }
    r := Quad(out[0], out[1], out[2], out[3]);
  }

  // ----- the key schedule -----

  /** The round functions FO and FE applied to key material. */
  function Fo(d: Block, k: Block): Block { A(Sl1(XorBlock(d, k))) }
  function Fe(d: Block, k: Block): Block { A(Sl2(XorBlock(d, k))) }

  /** The constants C1 to C3 of the standard, as the words of the code. */
  function Ck(i: nat): Quad
  {
    if i % 3 == 0 then Quad(Word(0xB7C17C51), Word(0x940A2227), Word(0xE8AB13FE), Word(0xE06E9AFA))
    else if i % 3 == 1 then Quad(Word(0xCC4AB16D), Word(0x20C8219E), Word(0xD5B128FF), Word(0xB0E25DEF))
    else Quad(Word(0x1D3792DB), Word(0x70E92621), Word(0x75972403), Word(0x0EC9E804))
  }

  method FoXor(p: Quad, k: Quad, x: Quad) returns (r: Quad)
    ensures r == FromBlock(XorBlock(Fo(ToBlock(p), ToBlock(k)), ToBlock(x)))
  {
    hide ToBlock, FromBlock, XorQuad, XorBlock, A, Sl;
    XorOfQuads(p, k);
    r := XorQuad(p, k);
    BlockOfQuad(XorBlock(ToBlock(p), ToBlock(k)));
    r := AriaSl(r, AriaTables.Sb1, AriaTables.Sb2, AriaTables.Is1, AriaTables.Is2);
    BlockOfQuad(Sl1(XorBlock(ToBlock(p), ToBlock(k))));
    r := AriaA(r);
    BlockOfQuad(Fo(ToBlock(p), ToBlock(k)));
    XorOfQuads(r, x);
    r := XorQuad(r, x);
  }

  method FeXor(p: Quad, k: Quad, x: Quad) returns (r: Quad)
    ensures r == FromBlock(XorBlock(Fe(ToBlock(p), ToBlock(k)), ToBlock(x)))
  {
    hide ToBlock, FromBlock, XorQuad, XorBlock, A, Sl;
    XorOfQuads(p, k);
    r := XorQuad(p, k);
    BlockOfQuad(XorBlock(ToBlock(p), ToBlock(k)));
    r := AriaSl(r, AriaTables.Is1, AriaTables.Is2, AriaTables.Sb1, AriaTables.Sb2);
    BlockOfQuad(Sl2(XorBlock(ToBlock(p), ToBlock(k))));
    r := AriaA(r);
    BlockOfQuad(Fe(ToBlock(p), ToBlock(k)));
    XorOfQuads(r, x);
    r := XorQuad(r, x);
  }

  /** Exclusive-or on words is exclusive-or on bytes. */
  lemma XorOfQuads(q: Quad, k: Quad)
    ensures XorQuad(q, k) == FromBlock(XorBlock(ToBlock(q), ToBlock(k))) && ToBlock(XorQuad(q, k)) == XorBlock(ToBlock(q), ToBlock(k))
  {
    hide ToBlock, FromBlock, XorQuad, XorBlock;
    QuadOfBlock(q);
    QuadOfBlock(k);
    XorQuadIs(ToBlock(q), ToBlock(k));
    BlockOfQuad(XorBlock(ToBlock(q), ToBlock(k)));
  }

  /** The key as the standard's KL || KR, padded with zeros to 256 bits. */
  function PaddedKey(key: seq<Byte>, keybits: nat): (k: seq<Byte>)
    requires keybits == 128 || keybits == 192 || keybits == 256
    requires |key| * 8 >= keybits
    ensures |k| == 32
  {
    key[..keybits / 8] + seq(32 - keybits / 8, i => 0)
  }

  /** W0 to W3. */
  function KeyWord(key: seq<Byte>, keybits: nat, i: nat): Block
    requires keybits == 128 || keybits == 192 || keybits == 256
    requires |key| * 8 >= keybits && i < 4
  {
    var k := PaddedKey(key, keybits);
    var q := (keybits - 128) / 64;
    if i == 0 then k[..16]
    else if i == 1 then XorBlock(Fo(KeyWord(key, keybits, 0), ToBlock(Ck(q))), k[16..])
    else if i == 2 then XorBlock(Fe(KeyWord(key, keybits, 1), ToBlock(Ck(q + 1))), KeyWord(key, keybits, 0))
    else XorBlock(Fo(KeyWord(key, keybits, 2), ToBlock(Ck(q + 2))), KeyWord(key, keybits, 1))
  }

  /** Round key j, for j from 0 to 16: RFC 5794, section 2.2. Right rotations by 19 and 31 are left rotations by 109 and 97. */
  function EncKey(w: seq<Block>, j: nat): Block
    requires |w| == 4 && j <= 16
  {
    var n: Count := if j < 4 then 128 - 19 else if j < 8 then 128 - 31 else if j < 12 then 61 else if j < 16 then 31 else 19;
    XorBlock(w[j % 4], ToBlock(RotL(FromBlock(w[(j + 1) % 4]), n)))
  }

  function KeyWords(key: seq<Byte>, keybits: nat): (w: seq<Block>)
    requires keybits == 128 || keybits == 192 || keybits == 256
    requires |key| * 8 >= keybits
    ensures |w| == 4
  {
    [KeyWord(key, keybits, 0), KeyWord(key, keybits, 1), KeyWord(key, keybits, 2), KeyWord(key, keybits, 3)]
  }

  function EncKeys(key: seq<Byte>, keybits: nat): (rk: seq<Block>)
    requires keybits == 128 || keybits == 192 || keybits == 256
    requires |key| * 8 >= keybits
    ensures |rk| == 17
  {
    seq(17, j requires 0 <= j < 17 => EncKey(KeyWords(key, keybits), j))
  }

  /** The number of rounds. */
  function Rounds(keybits: nat): (nr: nat)
    requires keybits == 128 || keybits == 192 || keybits == 256
    ensures nr == if keybits == 128 then 12 else if keybits == 192 then 14 else 16
  {
    12 + 2 * ((keybits - 128) / 64)
  }

  // ----- the context -----

  class AriaContext {
    var nr: nat
    const rk: array<Quad>

    constructor ()
      ensures rk.Length == 17 && fresh(rk)
    {
      nr := 0;
      rk := new Quad[17];
    }

    /** The context holds the round keys k. */
    ghost predicate Holds(k: seq<Block>)
      reads this, rk
    {
      rk.Length == 17 && nr < |k| && nr <= 16 && forall j :: 0 <= j <= nr ==> rk[j] == FromBlock(k[j])
    }

    /** mbedtls_aria_setkey_enc. */
    method SetKeyEnc(key: seq<Byte>, keybits: nat) returns (ok: bool)
      requires rk.Length == 17 && |key| * 8 >= keybits
      modifies this, rk
      ensures ok <==> keybits == 128 || keybits == 192 || keybits == 256
      ensures ok ==> nr == Rounds(keybits) && Holds(EncKeys(key, keybits))
    {
      hide ToBlock, FromBlock, XorBlock, Fo, Fe, KeyWord, Ck, EncKey;
      if keybits != 128 && keybits != 192 && keybits != 256 {
        return false;
      }
      var w0, w1, w2, w3 := ExpandKey(key, keybits);
      nr := 12 + 2 * ((keybits - 128) / 64);
      RoundKeys(w0, w1, w2, w3, KeyWords(key, keybits));
      ok := true;
    }

    /** The loop that rotates and combines the key words, and the last round key. */
    method RoundKeys(w0: Quad, w1: Quad, w2: Quad, w3: Quad, ghost w: seq<Block>)
      requires rk.Length == 17 && |w| == 4
      requires w0 == FromBlock(w[0]) && w1 == FromBlock(w[1]) && w2 == FromBlock(w[2]) && w3 == FromBlock(w[3])
      modifies rk
      ensures forall j :: 0 <= j <= 16 ==> rk[j] == FromBlock(EncKey(w, j))
    {
      hide ToBlock, FromBlock, XorBlock, EncKey, RotL, XorQuad;
      for i := 0 to 4
        invariant forall j :: 0 <= j < 16 && j % 4 < i ==> rk[j] == FromBlock(EncKey(w, j))
      {
        var a := if i == 0 then w0 else if i == 1 then w1 else if i == 2 then w2 else w3;
        var b := if i == 0 then w1 else if i == 1 then w2 else if i == 2 then w3 else w0;
        EncKeyIs(w, i, a, b, 128 - 19);
        EncKeyIs(w, i + 4, a, b, 128 - 31);
        EncKeyIs(w, i + 8, a, b, 61);
        EncKeyIs(w, i + 12, a, b, 31);
        rk[i] := Rot128(a, b, 128 - 19);
        rk[i + 4] := Rot128(a, b, 128 - 31);
        rk[i + 8] := Rot128(a, b, 61);
        rk[i + 12] := Rot128(a, b, 31);
      }
      EncKeyIs(w, 16, w0, w1, 19);
      rk[16] := Rot128(w0, w1, 19);
    }

    /** mbedtls_aria_setkey_dec. */
    method SetKeyDec(key: seq<Byte>, keybits: nat) returns (ok: bool)
      requires rk.Length == 17 && |key| * 8 >= keybits
      modifies this, rk
      ensures ok <==> keybits == 128 || keybits == 192 || keybits == 256
      ensures ok ==> nr == Rounds(keybits) && Holds(DecKeys(EncKeys(key, keybits), nr))
    {
      hide ToBlock, FromBlock, EncKeys, A;
      ok := SetKeyEnc(key, keybits);
      if !ok {
        return;
      }
      ghost var ek := EncKeys(key, keybits);
      Flip(ek);
      Transform(ek);
    }

    /** Reverses the order of the round keys in place. */
    method Flip(ghost ek: seq<Block>)
      requires Holds(ek) && |ek| == 17
      modifies rk
      ensures forall j :: 0 <= j <= nr ==> rk[j] == FromBlock(ek[nr - j])
    {
      hide FromBlock, Flipped;
      ghost var was := rk[..];
      var i, j := 0, nr;
      FlippedNone(was, nr);
      while i < j
        invariant 0 <= i <= j + 1 && i + j == nr
        invariant Flipped(rk[..], was, i, nr)
      {
        FlippedNext(rk[..], was, i, nr);
        SwapKeys(i, j);
        i := i + 1;
        j := j - 1;
      }
      FlippedAll(rk[..], was, i, nr);
    }

    method SwapKeys(i: nat, j: nat)
      requires i < j < rk.Length
      modifies rk
      ensures rk[..] == old(rk[..][i := rk[j]][j := rk[i]])
    {
      var t := rk[i];
      rk[i] := rk[j];
      rk[j] := t;
    }

    /** Applies the affine transform to all but the first and the last round key. */
    method Transform(ghost ek: seq<Block>)
      requires rk.Length == 17 && 0 < nr <= 16 && |ek| == 17 && forall j :: 0 <= j <= nr ==> rk[j] == FromBlock(ek[nr - j])
      modifies rk
      ensures Holds(DecKeys(ek, nr))
    {
      hide FromBlock, ToBlock, A;
      for i := 1 to nr
        invariant rk[0] == FromBlock(ek[nr]) && rk[nr] == FromBlock(ek[0])
        invariant forall j :: 0 < j < i ==> rk[j] == FromBlock(A(ek[nr - j]))
        invariant forall j :: i <= j < nr ==> rk[j] == FromBlock(ek[nr - j])
      {
        BlockOfQuad(ek[nr - i]);
        var t := AriaA(rk[i]);
        rk[i] := t;
      }
    }

    /** mbedtls_aria_crypt_ecb: encrypts or decrypts, depending on the round keys. */
    method CryptEcb(input: Block, ghost k: seq<Block>) returns (output: Block)
      requires Holds(k) && 0 < nr && nr % 2 == 0
      ensures output == Crypt(k, nr, input)
    {
      hide FromBlock, ToBlock, A, Sl, XorBlock, XorQuad;
      var s := FromBlock(input);
      var i := 0;
      while true
        invariant 0 <= i < nr && i % 2 == 0 && s == FromBlock(Before(k, input, i))
        decreases nr - i
      {
        s := AddKeySl(s, rk[i], true, Before(k, input, i), k[i]);
        i := i + 1;
        s := Diffuse(s, SlOf(i - 1, XorBlock(Before(k, input, i - 1), k[i - 1])));
        s := AddKeySl(s, rk[i], false, Before(k, input, i), k[i]);
        i := i + 1;
        if i >= nr {
          break;
        }
        s := Diffuse(s, SlOf(i - 1, XorBlock(Before(k, input, i - 1), k[i - 1])));
      }
      XorQuadIs(SlOf(nr - 1, XorBlock(Before(k, input, nr - 1), k[nr - 1])), k[nr]);
      s := XorQuad(s, rk[nr]);
      BlockOfQuad(Crypt(k, nr, input));
      output := ToBlock(s);
    }

    method Diffuse(s: Quad, ghost x: Block) returns (r: Quad)
      requires s == FromBlock(x)
      ensures r == FromBlock(A(x))
    {
      hide FromBlock, ToBlock, A;
      BlockOfQuad(x);
      r := AriaA(s);
    }

    /** Key addition and one of the two substitution layers. */
    method AddKeySl(s: Quad, key: Quad, first: bool, ghost x: Block, ghost k: Block) returns (r: Quad)
      requires s == FromBlock(x) && key == FromBlock(k)
      ensures r == FromBlock(if first then Sl1(XorBlock(x, k)) else Sl2(XorBlock(x, k)))
    {
      hide FromBlock, ToBlock, Sl, XorBlock, XorQuad;
      XorQuadIs(x, k);
      BlockOfQuad(XorBlock(x, k));
      r := XorQuad(s, key);
      if first {
        r := AriaSl(r, AriaTables.Sb1, AriaTables.Sb2, AriaTables.Is1, AriaTables.Is2);
      } else {
        r := AriaSl(r, AriaTables.Is1, AriaTables.Is2, AriaTables.Sb1, AriaTables.Sb2);
      }
    }
  }

  /** The outer i keys on either side have changed places. */
  ghost predicate Flipped(r: seq<Quad>, was: seq<Quad>, i: nat, nr: nat)
  {
    |r| == |was| > nr &&
    (forall k :: 0 <= k <= nr && (k < i || k > nr - i) ==> r[k] == was[nr - k]) &&
    (forall k :: i <= k <= nr - i ==> r[k] == was[k])
  }

  lemma FlippedNone(r: seq<Quad>, nr: nat)
    requires nr < |r|
    ensures Flipped(r, r, 0, nr)
  {}

  lemma FlippedNext(r: seq<Quad>, was: seq<Quad>, i: nat, nr: nat)
    requires Flipped(r, was, i, nr) && 2 * i < nr
    ensures Flipped(r[i := r[nr - i]][nr - i := r[i]], was, i + 1, nr)
  {}

  lemma FlippedAll(r: seq<Quad>, was: seq<Quad>, i: nat, nr: nat)
    requires Flipped(r, was, i, nr) && 2 * i >= nr
    ensures forall k :: 0 <= k <= nr ==> r[k] == was[nr - k]
  {}

  lemma EncKeyIs(w: seq<Block>, j: nat, a: Quad, b: Quad, n: Count)
    requires |w| == 4 && j <= 16 && a == FromBlock(w[j % 4]) && b == FromBlock(w[(j + 1) % 4])
    requires n == if j < 4 then 128 - 19 else if j < 8 then 128 - 31 else if j < 12 then 61 else if j < 16 then 31 else 19
    ensures XorQuad(a, RotL(b, n)) == FromBlock(EncKey(w, j))
  {
    hide ToBlock, FromBlock, XorBlock, XorQuad, RotL;
    XorOfQuads(a, RotL(b, n));
    BlockOfQuad(w[j % 4]);
  }

  /** The key words w[0] to w[3]. */
  method ExpandKey(key: seq<Byte>, keybits: nat) returns (w0: Quad, w1: Quad, w2: Quad, w3: Quad)
    requires keybits == 128 || keybits == 192 || keybits == 256
    requires |key| * 8 >= keybits
    ensures var w := KeyWords(key, keybits);
            w0 == FromBlock(w[0]) && w1 == FromBlock(w[1]) && w2 == FromBlock(w[2]) && w3 == FromBlock(w[3])
  {
    hide ToBlock, FromBlock, XorBlock, Fo, Fe, Ck;
    w0 := FromBlock(key[..16]);
    assert PaddedKey(key, keybits)[..16] == key[..16];
    var right: Block := key[16..keybits / 8] + seq(32 - keybits / 8, i => 0);
    assert PaddedKey(key, keybits)[16..] == right;
    w1 := FromBlock(right);
    var i := (keybits - 128) / 64;
    BlockOfQuad(KeyWord(key, keybits, 0));
    BlockOfQuad(right);
    w1 := FoXor(w0, Ck(i), w1);
    i := if i < 2 then i + 1 else 0;
    CkCycles((keybits - 128) / 64);
    BlockOfQuad(KeyWord(key, keybits, 1));
    w2 := FeXor(w1, Ck(i), w0);
    i := if i < 2 then i + 1 else 0;
    BlockOfQuad(KeyWord(key, keybits, 2));
    w3 := FoXor(w2, Ck(i), w1);
  }

  lemma CkCycles(i: nat)
    ensures Ck(i + 1) == Ck(if i == 2 then 0 else i + 1) && Ck(i + 2) == Ck(if i == 2 then 1 else if i == 1 then 0 else i + 2)
  {}

  /** For every key size, key and block: the decryption context undoes the encryption context. */
  lemma AriaRoundTrip(key: seq<Byte>, keybits: nat, p: Block)
    requires keybits == 128 || keybits == 192 || keybits == 256
    requires |key| * 8 >= keybits
    ensures var ek, nr := EncKeys(key, keybits), Rounds(keybits);
            Crypt(DecKeys(ek, nr), nr, Crypt(ek, nr, p)) == p
  {
    hide EncKeys, Crypt;
    DecryptionUndoesEncryption(EncKeys(key, keybits), Rounds(keybits), p);
  }
}
