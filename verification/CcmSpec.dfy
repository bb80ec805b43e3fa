/** What CCM computes (NIST SP 800-38C, section 6 and appendix A), over any block function. */
module CcmSpec {
  import opened Arith
  import opened Bytes

  // ----- numbers as big-endian byte strings -----

  /** The q low-order bytes of n, most significant first. */
  function BeBytes(n: nat, q: nat): (s: seq<Byte>)
    ensures |s| == q
    decreases q
  {
    if q == 0 then [] else
      DivModDef(n, 256);
      BeBytes(n / 256, q - 1) + [ToByte(n % 256)]
  }

  lemma {:induction false} BeInjective(m: nat, n: nat, q: nat)
    requires m < Pow(256, q) && n < Pow(256, q) && BeBytes(m, q) == BeBytes(n, q)
    ensures m == n
    decreases q
  {
    hide ToByte;
    if q > 0 {
      var s, t := BeBytes(m, q), BeBytes(n, q);
      assert s[q - 1] == ToByte(m % 256) && t[q - 1] == ToByte(n % 256);
      assert s[..q - 1] == BeBytes(m / 256, q - 1) && t[..q - 1] == BeBytes(n / 256, q - 1);
      ByteRoundTrip(m % 256);
      ByteRoundTrip(n % 256);
      Quotients(m, Pow(256, q - 1));
      Quotients(n, Pow(256, q - 1));
      BeInjective(m / 256, n / 256, q - 1);
      DivModDef(m, 256);
      DivModDef(n, 256);
    }
  }

  lemma Quotients(m: nat, p: nat)
    requires m < 256 * p
    ensures 0 <= m / 256 < p
  {}

  // ----- counter blocks -----

  /** Flags, nonce and the counter i in the bytes that remain. */
  function Ctr(nonce: seq<Byte>, i: nat): Block
    requires 7 <= |nonce| <= 13
  {
    [ToByte(14 - |nonce|)] + nonce + BeBytes(i, 15 - |nonce|)
  }

  /** Counters below 2^(8q) give different blocks. */
  lemma CtrInjective(nonce: seq<Byte>, i: nat, j: nat)
    requires 7 <= |nonce| <= 13 && i < Pow(256, 15 - |nonce|) && j < Pow(256, 15 - |nonce|)
    requires Ctr(nonce, i) == Ctr(nonce, j)
    ensures i == j
  {
    hide ToByte;
    var n := 1 + |nonce|;
    assert Ctr(nonce, i)[n..] == BeBytes(i, 15 - |nonce|) && Ctr(nonce, j)[n..] == BeBytes(j, 15 - |nonce|);
    BeInjective(i, j, 15 - |nonce|);
  }

  /** Byte k of the key stream that masks the data: counters start from 1. */
  function KeyByte(e: Block -> Block, nonce: seq<Byte>, k: nat): Byte
    requires 7 <= |nonce| <= 13
  {
    e(Ctr(nonce, 1 + k / 16))[k % 16]
  }

  /** Encryption and decryption of the data. */
  function CtrCrypt(e: Block -> Block, nonce: seq<Byte>, s: seq<Byte>): (r: seq<Byte>)
    requires 7 <= |nonce| <= 13
    ensures |r| == |s|
  {
    seq(|s|, k requires 0 <= k < |s| => XorByte(s[k], KeyByte(e, nonce, k)))
  }

  lemma CtrTwice(e: Block -> Block, nonce: seq<Byte>, s: seq<Byte>)
    requires 7 <= |nonce| <= 13
    ensures CtrCrypt(e, nonce, CtrCrypt(e, nonce, s)) == s
  {
    hide KeyByte;
    forall k | 0 <= k < |s|
      ensures CtrCrypt(e, nonce, CtrCrypt(e, nonce, s))[k] == s[k]
    {
      XorByteTwice(s[k], KeyByte(e, nonce, k));
    }
  }

  // ----- CBC-MAC -----

  /** Exclusive-or of p into y from byte o on. */
  function XorAt(y: Block, o: nat, p: seq<Byte>): Block
    requires o + |p| <= 16
  {
    seq(16, i requires 0 <= i < 16 => if o <= i < o + |p| then XorByte(y[i], p[i - o]) else y[i])
  }

  /** The working value after the bytes s of a longer string: whole blocks are encrypted, the rest is added in. */
  function Part(e: Block -> Block, y: Block, s: seq<Byte>): Block
    decreases |s|
  {
    if |s| < 16 then XorAt(y, 0, s) else Part(e, e(XorAt(y, 0, s[..16])), s[16..])
  }

  /** The working value after the whole string: a partial last block is encrypted too, as if padded with zeros. */
  function Absorb(e: Block -> Block, y: Block, s: seq<Byte>): Block
  {
    if |s| % 16 == 0 then Part(e, y, s) else e(Part(e, y, s))
  }

  /** After s of a string of the given total length. */
  function Absorbed(e: Block -> Block, y: Block, s: seq<Byte>, total: nat): Block
  {
    if |s| == total then Absorb(e, y, s) else Part(e, y, s)
  }

  /** Adding a piece that does not cross a block boundary. */
  lemma {:induction false} PartStep(e: Block -> Block, y: Block, s: seq<Byte>, p: seq<Byte>)
    requires |s| % 16 + |p| <= 16 && |p| > 0
    ensures var o := |s| % 16;
            var w := XorAt(Part(e, y, s), o, p);
            Part(e, y, s + p) == if o + |p| == 16 then e(w) else w
    decreases |s|
  {
    hide XorAt, Part;
    if |s| < 16 {
      PartStepShort(e, y, s, p);
    } else {
      var y' := e(XorAt(y, 0, s[..16]));
      assert (s + p)[..16] == s[..16] && (s + p)[16..] == s[16..] + p;
      PartStep(e, y', s[16..], p);
      LessBlock(|s|);
      PartBlock(e, y, s);
      PartBlock(e, y, s + p);
    }
  }

  lemma PartBlock(e: Block -> Block, y: Block, s: seq<Byte>)
    requires |s| >= 16
    ensures Part(e, y, s) == Part(e, e(XorAt(y, 0, s[..16])), s[16..])
  {
    hide XorAt;
  }

  lemma LessBlock(n: nat)
    requires n >= 16
    ensures (n - 16) % 16 == n % 16
  {}

  lemma PartStepShort(e: Block -> Block, y: Block, s: seq<Byte>, p: seq<Byte>)
    requires |s| < 16 && |s| + |p| <= 16
    ensures var w := XorAt(Part(e, y, s), |s|, p);
            Part(e, y, s + p) == if |s| + |p| == 16 then e(w) else w
  {
    hide XorAt;
    XorAtMerge(y, s, p);
    if |s| + |p| == 16 {
      assert (s + p)[..16] == s + p && (s + p)[16..] == [];
      XorAtNone(e(XorAt(y, 0, s + p)));
    }
  }

  lemma XorAtMerge(y: Block, s: seq<Byte>, p: seq<Byte>)
    requires |s| + |p| <= 16
    ensures XorAt(XorAt(y, 0, s), |s|, p) == XorAt(y, 0, s + p)
  {}

  lemma XorAtNone(y: Block)
    ensures XorAt(y, 0, []) == y
  {}

  /** The step of the code: add the piece, and encrypt at the end of a block or of the string. */
  lemma AbsorbedStep(e: Block -> Block, y: Block, s: seq<Byte>, p: seq<Byte>, total: nat)
    requires |s| % 16 + |p| <= 16 && |p| > 0 && |s| + |p| <= total
    ensures var o := |s| % 16;
            var w := XorAt(Absorbed(e, y, s, total), o, p);
            Absorbed(e, y, s + p, total) == if o + |p| == 16 || |s| + |p| == total then e(w) else w
  {
    hide XorAt, Part;
    PartStep(e, y, s, p);
    ModStep(|s|, |p|);
  }

  lemma ModStep(m: nat, n: nat)
    requires m % 16 + n <= 16 && n > 0
    ensures (m + n) % 16 == if m % 16 + n == 16 then 0 else m % 16 + n
  {}

  // ----- the reference: CBC-MAC of the formatted blocks -----

  /** CBC-MAC of whole blocks. */
  function CbcMac(e: Block -> Block, y: Block, s: seq<Byte>): Block
    decreases |s|
  {
    if |s| < 16 then y else CbcMac(e, e(XorBlock(y, s[..16])), s[16..])
  }

  /** Padding with zeros to whole blocks. */
  function Pad16(s: seq<Byte>): (r: seq<Byte>)
    ensures |r| % 16 == 0 && |s| <= |r| < |s| + 16
  {
    s + seq((16 - |s| % 16) % 16, i => 0)
  }

  lemma {:induction false} MacSplit(e: Block -> Block, y: Block, s: seq<Byte>, t: seq<Byte>)
    requires |s| % 16 == 0
    ensures CbcMac(e, y, s + t) == CbcMac(e, CbcMac(e, y, s), t)
    decreases |s|
  {
    if |s| < 16 {
      assert s + t == t;
    } else {
      assert (s + t)[..16] == s[..16] && (s + t)[16..] == s[16..] + t;
      MacSplit(e, e(XorBlock(y, s[..16])), s[16..], t);
    }
  }

  /** The streaming form is the CBC-MAC of the padded string. */
  lemma {:induction false} AbsorbIsMac(e: Block -> Block, y: Block, s: seq<Byte>)
    ensures Absorb(e, y, s) == CbcMac(e, y, Pad16(s))
    decreases |s|
  {
    hide XorAt, XorBlock, Pad16;
    if |s| < 16 {
      ShortMac(e, y, s);
    } else {
      XorAtWhole(y, s[..16]);
      PadTail(s);
      LessBlock(|s|);
      AbsorbIsMac(e, e(XorAt(y, 0, s[..16])), s[16..]);
    }
  }

  lemma PadTail(s: seq<Byte>)
    requires |s| >= 16
    ensures |Pad16(s)| >= 16 && Pad16(s)[..16] == s[..16] && Pad16(s)[16..] == Pad16(s[16..])
  {
    LessBlock(|s|);
  }

  lemma ShortMac(e: Block -> Block, y: Block, s: seq<Byte>)
    requires |s| < 16
    ensures Absorb(e, y, s) == CbcMac(e, y, Pad16(s))
  {
    hide XorAt, XorBlock;
    if |s| == 0 {
      XorAtNone(y);
      assert s == [];
    } else {
      var p: Block := Pad16(s);
      XorAtPadded(y, s);
      assert p[..16] == p && p[16..] == [];
    }
  }

  lemma XorAtPadded(y: Block, s: seq<Byte>)
    requires |s| < 16
    ensures XorAt(y, 0, s) == XorBlock(y, s + seq(16 - |s|, i => 0))
  {
    forall i | 0 <= i < 16
      ensures XorAt(y, 0, s)[i] == XorBlock(y, s + seq(16 - |s|, i => 0))[i]
    {
      XorByteAssoc(y[i], 0, 0);
    }
  }

  lemma XorAtWhole(y: Block, b: Block)
    ensures XorAt(y, 0, b) == XorBlock(y, b)
  {}

  // ----- CCM -----

  /** The flags of the first block: bit 6 for associated data, then (t - 2) / 2 and q - 1. */
  function Flags(hasAd: bool, t: nat, q: nat): Byte
    requires 4 <= t <= 16 && 2 <= q <= 8
  {
    ToByte((if hasAd then 64 else 0) + 8 * ((t - 2) / 2) + (q - 1))
  }

  function B0(nonce: seq<Byte>, hasAd: bool, t: nat, length: nat): Block
    requires 7 <= |nonce| <= 13 && 4 <= t <= 16
  {
    [Flags(hasAd, t, 15 - |nonce|)] + nonce + BeBytes(length, 15 - |nonce|)
  }

  /** The encoding of the associated data: its length in two bytes, then the data; nothing if there is none. */
  function EncodedAd(ad: seq<Byte>): seq<Byte>
    requires |ad| < 0xFF00
  {
    if |ad| == 0 then [] else [ToByte(|ad| / 256), ToByte(|ad| % 256)] + ad
  }

  /** The authentication value before masking. */
  function Mac(e: Block -> Block, nonce: seq<Byte>, ad: seq<Byte>, p: seq<Byte>, t: nat): Block
    requires 7 <= |nonce| <= 13 && 4 <= t <= 16 && |ad| < 0xFF00
  {
    Absorb(e, Absorb(e, e(B0(nonce, |ad| > 0, t, |p|)), EncodedAd(ad)), p)
  }

  function Tag(e: Block -> Block, nonce: seq<Byte>, ad: seq<Byte>, p: seq<Byte>, t: nat): (tag: seq<Byte>)
    requires 7 <= |nonce| <= 13 && 4 <= t <= 16 && |ad| < 0xFF00
    ensures |tag| == t
  {
    WholeTag(e, nonce, ad, p, t)[..t]
  }

  /** The authentication value masked with counter block 0, before it is cut to the tag length. */
  function WholeTag(e: Block -> Block, nonce: seq<Byte>, ad: seq<Byte>, p: seq<Byte>, t: nat): Block
    requires 7 <= |nonce| <= 13 && 4 <= t <= 16 && |ad| < 0xFF00
  {
    XorBlock(Mac(e, nonce, ad, p, t), e(Ctr(nonce, 0)))
  }

  /** The authentication value is the CBC-MAC, from a zero block, of the formatted input of the standard. */
  lemma MacIsStandard(e: Block -> Block, nonce: seq<Byte>, ad: seq<Byte>, p: seq<Byte>, t: nat)
    requires 7 <= |nonce| <= 13 && 4 <= t <= 16 && |ad| < 0xFF00
    ensures var zero: Block := seq(16, i => 0);
            Mac(e, nonce, ad, p, t)
            == CbcMac(e, zero, B0(nonce, |ad| > 0, t, |p|) + Pad16(EncodedAd(ad)) + Pad16(p))
  {
    hide Absorb, Pad16, EncodedAd, B0;
    var zero: Block := seq(16, i => 0);
    var b: seq<Byte> := B0(nonce, |ad| > 0, t, |p|);
    var a, d := Pad16(EncodedAd(ad)), Pad16(p);
    ZeroFirst(e, b);
    MacSplit(e, zero, b, a);
    MacSplit(e, zero, b + a, d);
    AbsorbIsMac(e, e(b), EncodedAd(ad));
    AbsorbIsMac(e, Absorb(e, e(b), EncodedAd(ad)), p);
  }

  lemma ZeroFirst(e: Block -> Block, b: Block)
    ensures CbcMac(e, seq(16, i => 0), b) == e(b)
  {
    var zero: Block := seq(16, i => 0);
    forall i | 0 <= i < 16
      ensures XorBlock(zero, b)[i] == b[i]
    {
      XorByteTwice(zero[i], b[i]);
      XorByteAssoc(b[i], 0, 0);
    }
    assert XorBlock(zero, b) == b;
    assert b[..16] == b && b[16..] == [];
  }

  // ----- the format -----

  /** The string that is authenticated. */
  function Format(nonce: seq<Byte>, ad: seq<Byte>, p: seq<Byte>, t: nat): seq<Byte>
    requires 7 <= |nonce| <= 13 && 4 <= t <= 16 && |ad| < 0xFF00
  {
    B0(nonce, |ad| > 0, t, |p|) + Pad16(EncodedAd(ad)) + Pad16(p)
  }

  /** The fields can be read back from the flags. */
  lemma FlagFields(hasAd: bool, t: nat, q: nat)
    requires 4 <= t <= 16 && 2 <= q <= 8
    ensures var n := ToNat(Flags(hasAd, t, q));
            n / 64 == (if hasAd then 1 else 0) && n / 8 % 8 == (t - 2) / 2 && n % 8 == q - 1
  {
    hide ToByte, ToNat;
    ByteRoundTrip((if hasAd then 64 else 0) + 8 * ((t - 2) / 2) + (q - 1));
  }

  lemma FlagsDetermine(h1: bool, t1: nat, q1: nat, h2: bool, t2: nat, q2: nat)
    requires 4 <= t1 <= 16 && 2 <= q1 <= 8 && 4 <= t2 <= 16 && 2 <= q2 <= 8 && Flags(h1, t1, q1) == Flags(h2, t2, q2)
    ensures h1 == h2 && t1 / 2 == t2 / 2 && q1 == q2
  {
    hide Flags, ToNat;
    FlagFields(h1, t1, q1);
    FlagFields(h2, t2, q2);
  }

  /** The first block determines its fields; of the tag length, the even number it encodes. */
  lemma FirstBlockDetermines(n1: seq<Byte>, h1: bool, t1: nat, l1: nat, n2: seq<Byte>, h2: bool, t2: nat, l2: nat)
    requires 7 <= |n1| <= 13 && 4 <= t1 <= 16 && l1 < Pow(256, 15 - |n1|)
    requires 7 <= |n2| <= 13 && 4 <= t2 <= 16 && l2 < Pow(256, 15 - |n2|)
    requires B0(n1, h1, t1, l1) == B0(n2, h2, t2, l2)
    ensures n1 == n2 && h1 == h2 && t1 / 2 == t2 / 2 && l1 == l2
  {
    hide B0, Flags, Pow, BeBytes;
    BlockParts(n1, h1, t1, l1);
    BlockParts(n2, h2, t2, l2);
    FlagsDetermine(h1, t1, 15 - |n1|, h2, t2, 15 - |n2|);
    BeInjective(l1, l2, 15 - |n1|);
  }

  lemma BlockParts(nonce: seq<Byte>, hasAd: bool, t: nat, length: nat)
    requires 7 <= |nonce| <= 13 && 4 <= t <= 16
    ensures var b := B0(nonce, hasAd, t, length);
            b[0] == Flags(hasAd, t, 15 - |nonce|) && b[1..1 + |nonce|] == nonce && b[1 + |nonce|..] == BeBytes(length, 15 - |nonce|)
  {
    hide Flags;
  }

  /** The law the format is made for: over all nonces, tag lengths, associated data and messages, the string determines
      what it was made from, and none begins another. */
  lemma FormatDetermines(n1: seq<Byte>, a1: seq<Byte>, p1: seq<Byte>, t1: nat, n2: seq<Byte>, a2: seq<Byte>, p2: seq<Byte>, t2: nat)
    requires 7 <= |n1| <= 13 && 4 <= t1 <= 16 && |a1| < 0xFF00 && |p1| < Pow(256, 15 - |n1|)
    requires 7 <= |n2| <= 13 && 4 <= t2 <= 16 && |a2| < 0xFF00 && |p2| < Pow(256, 15 - |n2|)
    requires Format(n1, a1, p1, t1) <= Format(n2, a2, p2, t2)
    ensures n1 == n2 && a1 == a2 && p1 == p2 && t1 / 2 == t2 / 2
  {
    hide B0, Pad16, EncodedAd, Pow;
    var b1, b2 := B0(n1, |a1| > 0, t1, |p1|), B0(n2, |a2| > 0, t2, |p2|);
    var d1, d2 := Pad16(EncodedAd(a1)), Pad16(EncodedAd(a2));
    PrefixParts(b1, d1 + Pad16(p1), b2, d2 + Pad16(p2), Format(n1, a1, p1, t1), Format(n2, a2, p2, t2));
    FirstBlockDetermines(n1, |a1| > 0, t1, |p1|, n2, |a2| > 0, t2, |p2|);
    AdDetermines(a1, Pad16(p1), a2, Pad16(p2));
    PaddedDetermines(p1, p2);
  }

  /** A prefix of two parts, the first of the same length, is equal there and a prefix in the rest. */
  lemma PrefixParts(b1: seq<Byte>, r1: seq<Byte>, b2: seq<Byte>, r2: seq<Byte>, s1: seq<Byte>, s2: seq<Byte>)
    requires |b1| == |b2| && s1 == b1 + r1 && s2 == b2 + r2 && s1 <= s2
    ensures b1 == b2 && r1 <= r2
  {
    assert s1[..|b1|] == b1 && s2[..|b2|] == b2 && s1[|b1|..] == r1 && s2[|b2|..] == r2;
    assert forall i :: 0 <= i < |r1| ==> r1[i] == s1[|b1| + i] == s2[|b2| + i] == r2[i];
  }

  /** Encoded associated data announces its length, so that the message after it starts at a known place. */
  lemma AdDetermines(a1: seq<Byte>, r1: seq<Byte>, a2: seq<Byte>, r2: seq<Byte>)
    requires |a1| < 0xFF00 && |a2| < 0xFF00 && (|a1| > 0 <==> |a2| > 0)
    requires Pad16(EncodedAd(a1)) + r1 <= Pad16(EncodedAd(a2)) + r2
    ensures a1 == a2 && r1 <= r2
  {
    hide ToByte, Pad16;
    var e1, e2 := EncodedAd(a1), EncodedAd(a2);
    var d1, d2 := Pad16(e1), Pad16(e2);
    PadStarts(e1);
    PadStarts(e2);
    if |a1| > 0 {
      assert (d1 + r1)[0] == e1[0] && (d2 + r2)[0] == e2[0] && (d1 + r1)[1] == e1[1] && (d2 + r2)[1] == e2[1];
      TwoBytes(|a1|, |a2|);
    }
    PadLength(|e1|, e1, e2);
    PrefixParts(d1, r1, d2, r2, d1 + r1, d2 + r2);
    PaddedDetermines(e1, e2);
    assert |a1| > 0 ==> a1 == e1[2..] && a2 == e2[2..];
  }

  /** The announced length is two octets, most significant first. */
  lemma EncodedLengthFirst(ad: seq<Byte>)
    requires 0 < |ad| < 0xFF00
    ensures var s := EncodedAd(ad);
            |s| == |ad| + 2 && 256 * ToNat(s[0]) + ToNat(s[1]) == |ad| && s[2..] == ad
  {
    hide ToByte, ToNat;
    ByteRoundTrip(|ad| / 256);
    ByteRoundTrip(|ad| % 256);
  }

  lemma TwoBytes(m: nat, n: nat)
    requires m < 0x10000 && n < 0x10000 && ToByte(m / 256) == ToByte(n / 256) && ToByte(m % 256) == ToByte(n % 256)
    ensures m == n
  {
    hide ToByte;
    ByteRoundTrip(m / 256);
    ByteRoundTrip(n / 256);
    ByteRoundTrip(m % 256);
    ByteRoundTrip(n % 256);
  }

  lemma PadStarts(s: seq<Byte>)
    ensures |Pad16(s)| >= |s| && Pad16(s)[..|s|] == s
    ensures forall i :: 0 <= i < |s| ==> Pad16(s)[i] == s[i]
  {}

  lemma PadLength(n: nat, s: seq<Byte>, t: seq<Byte>)
    requires |s| == |t| == n
    ensures |Pad16(s)| == |Pad16(t)|
  {}

  lemma PaddedDetermines(s: seq<Byte>, t: seq<Byte>)
    requires |s| == |t| && Pad16(s) <= Pad16(t)
    ensures s == t
  {
    PadStarts(s);
    PadStarts(t);
  }

  // ----- the masks -----

  /** Octet i from the end of a number written in q octets is its digit i to the base 256. */
  lemma {:induction false} BeDigit(n: nat, q: nat, i: nat)
    requires i < q
    ensures Pow(256, i) > 0 && ToNat(BeBytes(n, q)[q - 1 - i]) == (n / Pow(256, i)) % 256
    decreases q
  {
    hide ToByte, ToNat;
    PowPos(256, i);
    DivModDef(n, 256);
    if i == 0 {
      ByteRoundTrip(n % 256);
      DivModUnique(n, 1, n, 0);
    } else {
      PowPos(256, i - 1);
      BeDigit(n / 256, q - 1, i - 1);
      DivDiv(n, 256, Pow(256, i - 1));
    }
  }

  /** CBC-MAC from the other end: the last block is added to the value so far and encrypted. */
  lemma MacLastBlock(e: Block -> Block, y: Block, s: seq<Byte>, b: Block)
    requires |s| % 16 == 0
    ensures CbcMac(e, y, []) == y && CbcMac(e, y, s + b) == e(XorBlock(CbcMac(e, y, s), b))
  {
    hide XorBlock;
    MacSplit(e, y, s, b);
    assert b[..16] == b && b[16..] == [];
  }

  /** Octet i of data block j is masked by octet i of the encrypted counter block: the octet q - 1, the nonce, and
      j + 1 in q octets. */
  lemma DataIsMasked(e: Block -> Block, nonce: seq<Byte>, s: seq<Byte>, j: nat, i: nat)
    requires 7 <= |nonce| <= 13 && i < 16 && 16 * j + i < |s|
    ensures var q := 15 - |nonce|;
            var counter: Block := [ToByte(q - 1)] + nonce + BeBytes(j + 1, q);
            CtrCrypt(e, nonce, s)[16 * j + i] == XorByte(s[16 * j + i], e(counter)[i])
  {
    hide ToByte, BeBytes, XorByte;
    BlockIndex(j, i);
    var k := 16 * j + i;
    assert CtrCrypt(e, nonce, s)[k] == XorByte(s[k], KeyByte(e, nonce, k));
  }

  lemma BlockIndex(j: nat, i: nat)
    requires i < 16
    ensures (16 * j + i) / 16 == j && (16 * j + i) % 16 == i
  {}

  /** The tag is the authentication value under the mask of counter zero: the octet q - 1, the nonce, and q zeros. */
  lemma TagIsMasked(e: Block -> Block, nonce: seq<Byte>, ad: seq<Byte>, p: seq<Byte>, t: nat, i: nat)
    requires 7 <= |nonce| <= 13 && 4 <= t <= 16 && |ad| < 0xFF00 && i < t
    ensures var q := 15 - |nonce|;
            var zero, counter: Block := seq(16, k => 0), [ToByte(q - 1)] + nonce + seq(q, k => 0);
            Tag(e, nonce, ad, p, t)[i] == XorByte(CbcMac(e, zero, Format(nonce, ad, p, t))[i], e(counter)[i])
  {
    hide Mac, B0, Pad16, EncodedAd, CbcMac;
    MacIsStandard(e, nonce, ad, p, t);
    BeZero(15 - |nonce|);
  }

  lemma {:induction false} BeZero(q: nat)
    ensures BeBytes(0, q) == seq(q, k => 0)
  {
    if q > 0 { BeZero(q - 1); }
  }

  /** Decrypting the ciphertext recovers the plaintext, and so the same tag. */
  lemma CcmRoundTrip(e: Block -> Block, nonce: seq<Byte>, ad: seq<Byte>, p: seq<Byte>, t: nat)
    requires 7 <= |nonce| <= 13 && 4 <= t <= 16 && |ad| < 0xFF00
    ensures var d := CtrCrypt(e, nonce, CtrCrypt(e, nonce, p));
            d == p && Tag(e, nonce, ad, d, t) == Tag(e, nonce, ad, p, t)
  {
    CtrTwice(e, nonce, p);
  }

  /** No counter is used for two blocks of data, and none is the tag's counter 0. */
  lemma CountersFresh(nonce: seq<Byte>, length: nat, j: nat, k: nat)
    requires 7 <= |nonce| <= 13 && length < Pow(256, 15 - |nonce|) && j < length && k < length
    ensures Ctr(nonce, 1 + j / 16) != Ctr(nonce, 0)
    ensures Ctr(nonce, 1 + j / 16) == Ctr(nonce, 1 + k / 16) ==> j / 16 == k / 16
  {
    hide Ctr;
    var q := 15 - |nonce|;
    PowPos(256, q - 2);
    assert Pow(256, q) == 256 * (256 * Pow(256, q - 2));
    if Ctr(nonce, 1 + j / 16) == Ctr(nonce, 0) { CtrInjective(nonce, 1 + j / 16, 0); }
    if Ctr(nonce, 1 + j / 16) == Ctr(nonce, 1 + k / 16) { CtrInjective(nonce, 1 + j / 16, 1 + k / 16); }
  }

  // ----- when counters repeat -----

  /** Counters are taken modulo 2^(8q). */
  lemma {:induction false} BeWraps(n: nat, q: nat)
    ensures BeBytes(n + Pow(256, q), q) == BeBytes(n, q)
    decreases q
  {
    hide ToByte;
    if q > 0 {
      var p := Pow(256, q - 1);
      DivModDef(n, 256);
      DivModUnique(n + 256 * p, 256, n / 256 + p, n % 256);
      BeWraps(n / 256, q - 1);
    }
  }

  ghost predicate AllDifferent(nonce: seq<Byte>, n: nat)
    requires 7 <= |nonce| <= 13
  {
    forall i: nat, j: nat :: 1 <= i < j <= n ==> Ctr(nonce, i) != Ctr(nonce, j)
  }

  /** A message of n blocks uses n different counter blocks exactly when n is at most 2^(8q). With a tag the length
      check ensures this; CCM* without a tag checks no length. */
  lemma CountersDifferentIff(nonce: seq<Byte>, n: nat)
    requires 7 <= |nonce| <= 13
    ensures AllDifferent(nonce, n) <==> n <= Pow(256, 15 - |nonce|)
  {
    hide Ctr, Pow;
    var p := Pow(256, 15 - |nonce|);
    if n > p {
      CountersWrap(nonce);
      assert Ctr(nonce, 1) == Ctr(nonce, 1 + p);
    } else {
      forall i: nat, j: nat | 1 <= i < j <= n
        ensures Ctr(nonce, i) != Ctr(nonce, j)
      {
        CountersDiffer(nonce, i, j);
      }
    }
  }

  lemma CountersWrap(nonce: seq<Byte>)
    requires 7 <= |nonce| <= 13
    ensures var p := Pow(256, 15 - |nonce|); p > 0 && Ctr(nonce, 1) == Ctr(nonce, 1 + p) && Ctr(nonce, 0) == Ctr(nonce, p)
  {
    hide Ctr, BeBytes;
    var q := 15 - |nonce|;
    PowPos(256, q);
    BeWraps(1, q);
    BeWraps(0, q);
    CtrEqual(nonce, 1, 1 + Pow(256, q));
    CtrEqual(nonce, 0, Pow(256, q));
  }

  lemma CountersDiffer(nonce: seq<Byte>, i: nat, j: nat)
    requires 7 <= |nonce| <= 13 && 1 <= i < j <= Pow(256, 15 - |nonce|)
    ensures Ctr(nonce, i) != Ctr(nonce, j)
  {
    hide Ctr;
    if Ctr(nonce, i) == Ctr(nonce, j) {
      CountersWrap(nonce);
      if j == Pow(256, 15 - |nonce|) { CtrInjective(nonce, i, 0); } else { CtrInjective(nonce, i, j); }
    }
  }

  lemma CtrEqual(nonce: seq<Byte>, i: nat, j: nat)
    requires 7 <= |nonce| <= 13 && BeBytes(i, 15 - |nonce|) == BeBytes(j, 15 - |nonce|)
    ensures Ctr(nonce, i) == Ctr(nonce, j)
  {}
}
