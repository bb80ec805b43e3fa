/** aes.c and ctr.h: counter mode that can stop anywhere in a block and resume. */
module AesCtr {
  import opened Arith
  import opened Bytes
  import opened CcmSpec

  datatype CtrRet = Done | BadInputData

  // ----- incrementing the counter, 32 bits at a time -----

  const WORD: nat := 0x1_0000_0000

  /** A big-endian byte string as a number. */
  function BeNat(s: seq<Byte>): nat
  {
    if |s| == 0 then 0 else 256 * BeNat(s[..|s| - 1]) + ToNat(s[|s| - 1])
  }

  lemma {:induction false} BeNatOfBytes(n: nat, q: nat)
    ensures Pow(256, q) > 0 && BeNat(BeBytes(n, q)) == n % Pow(256, q)
    decreases q
  {
    hide ToByte, ToNat;
    PowPos(256, q);
    if q > 0 {
      var s := BeBytes(n, q);
      DivModDef(n, 256);
      assert s[..q - 1] == BeBytes(n / 256, q - 1) && s[q - 1] == ToByte(n % 256);
      ByteRoundTrip(n % 256);
      BeNatOfBytes(n / 256, q - 1);
      ModDigits(n, Pow(256, q - 1));
    }
  }

  lemma ModDigits(n: nat, p: nat)
    requires p > 0
    ensures 256 * ((n / 256) % p) + n % 256 == n % (256 * p)
  {
    DivModDef(n, 256);
    DivModDef(n / 256, p);
    var a, b, c := (n / 256) / p, (n / 256) % p, n % 256;
    MulDist(256, a * p, b);
    MulAssoc(a, 256, p);
    MulAssoc(256, a, p);
    DivModUnique(n, 256 * p, a, 256 * b + c);
  }

  /** The last four bytes are the number modulo 2^32, the others its quotient. */
  lemma LastWord(n: nat, q: nat)
    requires q >= 4
    ensures 0 <= n / WORD && BeBytes(n, q) == BeBytes(n / WORD, q - 4) + BeBytes(n % WORD, 4)
  {
    hide ToByte, BeBytes;
    BeFour(n, q);
    BeFour(n % WORD, 4);
    DivModDef(n, WORD);
    var a, r := n / WORD, n % WORD;
    Digit(a, r, 0x100_0000, 256);
    Digit(a, r, 0x1_0000, 0x1_0000);
    Digit(a, r, 256, 0x100_0000);
    CongIntro(n, r, 256, a * 0x100_0000);
    NoDigits(r / WORD, 0);
    assert BeBytes(0, 0) == [] by { EmptyBe(); }
  }

  lemma EmptyBe()
    ensures BeBytes(0, 0) == []
  {}

  /** Digits of n = a * 2^32 + r below 2^32 are digits of r. */
  lemma Digit(a: nat, r: nat, d: nat, c: nat)
    requires d > 0 && d * c == WORD && c % 256 == 0
    ensures ((a * WORD + r) / d) % 256 == (r / d) % 256
  {
    DivModDef(r, d);
    MulAssoc(a, c, d);
    MulDist(d, a * c, r / d);
    DivModUnique(a * WORD + r, d, a * c + r / d, r % d);
    MulAssoc(a, c / 256, 256);
    CongIntro(a * c + r / d, r / d, 256, a * (c / 256));
  }

  lemma BeFour(n: nat, q: nat)
    requires q >= 4
    ensures 0 <= n / WORD
    ensures BeBytes(n, q) == BeBytes(n / WORD, q - 4) + [ToByte((n / 0x100_0000) % 256), ToByte((n / 0x1_0000) % 256), ToByte((n / 256) % 256), ToByte(n % 256)]
  {
    hide ToByte;
    BeStep(n, q);
    BeStep(n / 256, q - 1);
    BeStep((n / 256) / 256, q - 2);
    BeStep(((n / 256) / 256) / 256, q - 3);
    DivDiv(n, 256, 256);
    DivDiv(n, 0x1_0000, 256);
    DivDiv(n, 0x100_0000, 256);
  }

  lemma BeStep(n: nat, q: nat)
    requires q > 0
    ensures 0 <= n / 256 && BeBytes(n, q) == BeBytes(n / 256, q - 1) + [ToByte(n % 256)]
  {
    DivModDef(n, 256);
  }

  /** mbedtls_ctr_increment_counter. */
  method IncrementCounter(c0: Block, ghost n: nat) returns (c: Block)
    requires c0 == BeBytes(n, 16)
    ensures c == BeBytes(n + 1, 16)
  {
    hide BeBytes, BeNat;
    c := c0;
    var i: nat := 3;
    ghost var m: nat := n;
    ghost var tail: seq<Byte> := [];
    assert BeBytes(m, 16) + tail == BeBytes(m, 16) && BeBytes(m + 1, 16) + tail == BeBytes(m + 1, 16);
    while true
      invariant 0 <= i <= 3 && |tail| == 12 - 4 * i
      invariant c == BeBytes(m, 4 * i + 4) + tail && BeBytes(n + 1, 16) == BeBytes(m + 1, 4 * i + 4) + tail
      decreases i
    {
      var x := BeNat(c[4 * i..4 * i + 4]);
      WordStep(m, 4 * i + 4, tail, c);
      x := (x + 1) % WORD;
      c := c[..4 * i] + BeBytes(x, 4) + c[4 * i + 4..];
      if x != 0 || i == 0 {
        if i == 0 { NoDigits(m / WORD, m / WORD + 1); }
        break;
      }
      tail := BeBytes(0, 4) + tail;
      m := m / WORD;
      i := i - 1;
    }
  }

  lemma NoDigits(m: nat, n: nat)
    ensures BeBytes(m, 0) == BeBytes(n, 0)
  {}

  /** Incrementing the last word of the part still to be incremented. */
  lemma WordStep(m: nat, r: nat, tail: seq<Byte>, c: Block)
    requires 4 <= r && r + |tail| == 16 && c == BeBytes(m, r) + tail
    ensures 0 <= m / WORD && BeNat(c[r - 4..r]) == m % WORD
    ensures var x := (m % WORD + 1) % WORD;
            c[..r - 4] + BeBytes(x, 4) + c[r..] == BeBytes(m / WORD, r - 4) + (BeBytes(x, 4) + tail) &&
            BeBytes(m + 1, r) == (if x != 0 then BeBytes(m / WORD, r - 4) else BeBytes(m / WORD + 1, r - 4)) + BeBytes(x, 4)
    ensures var x := (m % WORD + 1) % WORD;
            BeBytes(m + 1, r) + tail == (if x != 0 then BeBytes(m / WORD, r - 4) else BeBytes(m / WORD + 1, r - 4)) + (BeBytes(x, 4) + tail)
  {
    hide BeBytes, BeNat;
    LastWord(m, r);
    LastWord(m + 1, r);
    BeNatOfBytes(m % WORD, 4);
    assert Pow(256, 1) == 256 && Pow(256, 2) == 0x1_0000 && Pow(256, 3) == 0x100_0000 && Pow(256, 4) == WORD;
    SmallMod(m % WORD, WORD);
    assert c[r - 4..r] == BeBytes(m % WORD, 4) && c[..r - 4] == BeBytes(m / WORD, r - 4) && c[r..] == tail;
    DivModDef(m, WORD);
    if m % WORD + 1 == WORD {
      DivModUnique(m + 1, WORD, m / WORD + 1, 0);
    } else {
      DivModUnique(m + 1, WORD, m / WORD, m % WORD + 1);
    }
  }

  // ----- the mode -----

  /** Byte k of the key stream that starts from counter n. */
  function StreamByte(e: Block -> Block, n: nat, k: nat): Byte
  {
    e(BeBytes(n + k / 16, 16))[k % 16]
  }

  /** Where the caller's counter, stream block and offset are after k bytes of the stream from counter n. */
  ghost predicate At(e: Block -> Block, n: nat, k: nat, off: nat, counter: Block, stream: Block)
  {
    off == k % 16 && counter == BeBytes(n + (k + 15) / 16, 16) && (off > 0 ==> stream == e(BeBytes(n + k / 16, 16)))
  }

  /** mbedtls_aes_crypt_ctr; n and k say where the stream started and how many bytes of it have been used. */
  method CryptCtr(e: Block -> Block, length: nat, ncOff: nat, counter0: Block, stream0: Block,
                  input: array<Byte>, io: nat, output: array<Byte>, oo: nat, ghost n: nat, ghost k: nat)
    returns (ret: CtrRet, ncOff': nat, counter: Block, stream: Block)
    requires io + length <= input.Length && oo + length <= output.Length && (input != output || io == oo)
    requires ncOff <= 15 ==> At(e, n, k, ncOff, counter0, stream0)
    modifies output
    ensures ret == if ncOff > 15 then BadInputData else Done
    ensures ret == Done ==> At(e, n, k + length, ncOff', counter, stream)
    ensures ret == Done ==> output[oo..oo + length] == Masked(e, n, k, old(input[io..io + length]))
    ensures forall j :: 0 <= j < output.Length && !(ret == Done && oo <= j < oo + length) ==> output[j] == old(output[j])
  {
    hide BeBytes, Masked, At;
    counter, stream, ncOff' := counter0, stream0, ncOff;
    var offset := ncOff;
    if offset > 0x0F {
      return BadInputData, ncOff, counter, stream;
    }
    AtOffset(e, n, k, ncOff, counter, stream);
    counter, stream := CtrLoop(e, length, offset, counter, stream, input, io, output, oo, n, k);
    Advance(k, length, ncOff);
    ncOff' := (ncOff + length) % 16;
    ret := Done;
  }

  lemma Advance(k: nat, length: nat, off: nat)
    requires off == k % 16
    ensures (off + length) % 16 == (k + length) % 16
  {}

  /** The loop over blocks, the first of which may already be partly used. */
  method CtrLoop(e: Block -> Block, length: nat, offset0: nat, counter0: Block, stream0: Block,
                 input: array<Byte>, io: nat, output: array<Byte>, oo: nat, ghost n: nat, ghost k: nat)
    returns (counter: Block, stream: Block)
    requires io + length <= input.Length && oo + length <= output.Length && (input != output || io == oo)
    requires At(e, n, k, offset0, counter0, stream0) && offset0 == k % 16
    modifies output
    ensures At(e, n, k + length, (k + length) % 16, counter, stream)
    ensures output[oo..oo + length] == Masked(e, n, k, old(input[io..io + length]))
    ensures forall j :: 0 <= j < output.Length && !(oo <= j < oo + length) ==> output[j] == old(output[j])
  {
    hide *;
    counter, stream := counter0, stream0;
    var offset := offset0;
    ghost var x := input[io..io + length];
    NothingMasked(e, n, k);
    var i: nat := 0;
    while i < length
      invariant 0 <= i <= length && (i < length ==> offset == (k + i) % 16)
      invariant At(e, n, k + i, (k + i) % 16, counter, stream)
      invariant output[oo..oo + i] == Masked(e, n, k, x[..i]) && input[io + i..io + length] == x[i..]
      invariant forall j :: 0 <= j < output.Length && !(oo <= j < oo + i) ==> output[j] == old(output[j])
    {
      var len := 16 - offset;
      if len > length - i {
        len := length - i;
      }
      counter, stream := CtrRound(e, len, offset, counter, stream, input, io, output, oo, i, length, x, n, k);
      offset := 0;
      i := i + len;
      Restart(k + i, len, i, length);
    }
    assert x[..length] == x;
  }

  /** One round: a piece of at most a block is masked and stored. */
  method CtrRound(e: Block -> Block, len: nat, offset: nat, counter0: Block, stream0: Block, input: array<Byte>, io: nat,
                  output: array<Byte>, oo: nat, i: nat, ghost length: nat, ghost x: seq<Byte>, ghost n: nat, ghost k: nat)
    returns (counter: Block, stream: Block)
    requires 0 < len && offset + len <= 16 && i + len <= length == |x|
    requires io + length <= input.Length && oo + length <= output.Length && (input != output || io == oo)
    requires At(e, n, k + i, offset, counter0, stream0)
    requires output[oo..oo + i] == Masked(e, n, k, x[..i]) && input[io + i..io + length] == x[i..]
    modifies output
    ensures At(e, n, k + i + len, (k + i + len) % 16, counter, stream)
    ensures output[oo..oo + i + len] == Masked(e, n, k, x[..i + len]) && input[io + i + len..io + length] == x[i + len..]
    ensures forall j :: 0 <= j < output.Length && !(oo + i <= j < oo + i + len) ==> output[j] == old(output[j])
  {
    hide *;
    ghost var in0 := input[..];
    var p := input[io + i..io + i + len];
    NextPart(input, io, i, len, x);
    var c;
    c, counter, stream := NextPiece(e, p, offset, counter0, stream0, n, k + i);
    MaskedNext(e, n, k, x, i, p);
    StoreNext(output, oo, i, c);
    KeptSlice(input, in0, io + i + len, io + length);
  }

  /** The body of the loop: a new block of key stream if the last one is used up, then the exclusive-or. */
  method NextPiece(e: Block -> Block, p: seq<Byte>, offset: nat, counter0: Block, stream0: Block, ghost n: nat, ghost k: nat)
    returns (c: seq<Byte>, counter: Block, stream: Block)
    requires At(e, n, k, offset, counter0, stream0) && 0 < |p| && offset + |p| <= 16
    ensures c == Masked(e, n, k, p) && At(e, n, k + |p|, (k + |p|) % 16, counter, stream)
  {
    hide BeBytes, StreamByte;
    counter, stream := counter0, stream0;
    Ceiling(k);
    if offset == 0 {
      stream := e(counter);
      counter := IncrementCounter(counter, n + (k + 15) / 16);
    }
    BlockOf(e, n, k, offset, |p|, stream, counter);
    c := Xor(p, stream[offset..]);
  }

  lemma Ceiling(k: nat)
    ensures (k + 15) / 16 == if k % 16 == 0 then k / 16 else k / 16 + 1
  {}

  /** After a piece that is not the last one, the position is at a block boundary. */
  lemma Restart(pos: nat, len: nat, i: nat, length: nat)
    requires len <= i <= pos && 0 < len && i <= length
    requires i < length ==> len == 16 - (pos - len) % 16
    ensures i < length ==> pos % 16 == 0
  {}

  /** The data masked with the key stream from its byte k on. */
  function Masked(e: Block -> Block, n: nat, k: nat, s: seq<Byte>): (r: seq<Byte>)
    ensures |r| == |s|
  {
    seq(|s|, j requires 0 <= j < |s| => XorByte(s[j], StreamByte(e, n, k + j)))
  }

  /** Byte i of block j is masked by byte i of an encrypted block that holds n + j modulo 2^128. */
  lemma MaskedByte(e: Block -> Block, n: nat, s: seq<Byte>, j: nat, i: nat) returns (counter: Block)
    requires i < 16 && 16 * j + i < |s|
    ensures Pow(256, 16) > 0 && BeNat(counter) == (n + j) % Pow(256, 16)
    ensures Masked(e, n, 0, s)[16 * j + i] == XorByte(s[16 * j + i], e(counter)[i])
  {
    hide BeBytes, XorByte, BeNat, Pow;
    counter := BeBytes(n + j, 16);
    BeNatOfBytes(n + j, 16);
    BlockIndex(j, i);
    assert StreamByte(e, n, 16 * j + i) == e(counter)[i];
  }

  lemma NothingMasked(e: Block -> Block, n: nat, k: nat)
    ensures Masked(e, n, k, []) == []
  {}

  lemma AtOffset(e: Block -> Block, n: nat, k: nat, off: nat, counter: Block, stream: Block)
    requires At(e, n, k, off, counter, stream)
    ensures off == k % 16
  {}

  /** Data can be masked in pieces of any size. */
  lemma MaskedSplit(e: Block -> Block, n: nat, k: nat, s: seq<Byte>, t: seq<Byte>)
    ensures Masked(e, n, k, s + t) == Masked(e, n, k, s) + Masked(e, n, k + |s|, t)
  {
    hide StreamByte;
  }

  lemma MaskedNext(e: Block -> Block, n: nat, k: nat, x: seq<Byte>, i: nat, p: seq<Byte>)
    requires i + |p| <= |x| && p == x[i..i + |p|]
    ensures Masked(e, n, k, x[..i + |p|]) == Masked(e, n, k, x[..i]) + Masked(e, n, k + i, p)
  {
    hide Masked;
    assert x[..i + |p|] == x[..i] + p;
    MaskedSplit(e, n, k, x[..i], p);
  }

  /** Masking twice gives the data back: decryption is the same call. */
  lemma MaskedTwice(e: Block -> Block, n: nat, k: nat, s: seq<Byte>)
    ensures Masked(e, n, k, Masked(e, n, k, s)) == s
  {
    hide StreamByte;
    forall j | 0 <= j < |s|
      ensures Masked(e, n, k, Masked(e, n, k, s))[j] == s[j]
    {
      XorByteTwice(s[j], StreamByte(e, n, k + j));
    }
  }

  /** One block of key stream covers the next len bytes, and the state moves on by that many. */
  lemma BlockOf(e: Block -> Block, n: nat, k: nat, offset: nat, len: nat, stream: Block, counter: Block)
    requires offset == k % 16 && 0 < len && offset + len <= 16
    requires stream == e(BeBytes(n + k / 16, 16)) && counter == BeBytes(n + k / 16 + 1, 16)
    ensures forall j :: 0 <= j < len ==> StreamByte(e, n, k + j) == stream[offset..][j]
    ensures At(e, n, k + len, (k + len) % 16, counter, stream)
  {
    hide BeBytes;
    var q := k / 16;
    forall j | 0 <= j < len
      ensures StreamByte(e, n, k + j) == stream[offset..][j]
    {
      DivModUnique(k + j, 16, q, offset + j);
    }
    DivModUnique(k + len, 16, if offset + len == 16 then q + 1 else q, if offset + len == 16 then 0 else offset + len);
    DivModUnique(k + len + 15, 16, q + 1, offset + len - 1);
  }
}
