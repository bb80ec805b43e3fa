/** cipher.c: the padding methods of the CBC layer. */
module Padding {
  import opened Bytes

  datatype Padding = NoPadding | Pkcs7 | OneAndZeros | ZerosAndLen | Zeros

  /** The largest block of any cipher. */
  const MAX_BLOCK: nat := 16

  lemma ByteOfNat(n: nat)
    requires n <= MAX_BLOCK
    ensures ToNat(ToByte(n)) == n
  {}

  // ----- what the padding methods are -----

  /** The n bytes of padding. */
  function Pad(padding: Padding, n: nat): (s: seq<Byte>)
    requires 0 < n <= MAX_BLOCK
    ensures |s| == n
  {
    match padding
    case Pkcs7 => seq(n, i => ToByte(n))
    case OneAndZeros => [0x80] + seq(n - 1, i => 0)
    case ZerosAndLen => seq(n - 1, i => 0) + [ToByte(n)]
    case _ => seq(n, i => 0)
  }

  /** The first d bytes of b are the data and the rest is padding. */
  ghost predicate PaddedAt(padding: Padding, b: seq<Byte>, d: nat)
    requires |b| <= MAX_BLOCK
  {
    d < |b| && b[d..] == Pad(padding, |b| - d)
  }

  ghost predicate IsPadded(padding: Padding, b: seq<Byte>)
    requires |b| <= MAX_BLOCK
  {
    exists d: nat :: PaddedAt(padding, b, d)
  }

  /** A block is padded in at most one way, except with zeros. */
  lemma PaddedOnce(padding: Padding, b: seq<Byte>, d1: nat, d2: nat)
    requires padding == Pkcs7 || padding == OneAndZeros || padding == ZerosAndLen
    requires |b| <= MAX_BLOCK && PaddedAt(padding, b, d1) && PaddedAt(padding, b, d2)
    ensures d1 == d2
  {
    PaddedEnds(padding, b, d1);
    PaddedEnds(padding, b, d2);
  }

  /** The padding starts and ends with bytes that give its length away. */
  lemma PaddedEnds(padding: Padding, b: seq<Byte>, d: nat)
    requires padding == Pkcs7 || padding == OneAndZeros || padding == ZerosAndLen
    requires |b| <= MAX_BLOCK && PaddedAt(padding, b, d)
    ensures d < |b| && (padding != OneAndZeros ==> ToNat(b[|b| - 1]) == |b| - d)
    ensures padding == OneAndZeros ==> b[d] != 0 && forall k :: d < k < |b| ==> b[k] == 0
  {
    ByteOfNat(|b| - d);
    assert forall k :: d <= k < |b| ==> b[k] == b[d..][k - d];
  }

  /** Byte j of n bytes of padding: their number in all bytes or in the last one, or 128 in the first one; the others
      are zero. */
  function PadNumber(padding: Padding, n: nat, j: nat): nat
  {
    if padding == Pkcs7 || (padding == ZerosAndLen && j == n - 1) then n
    else if padding == OneAndZeros && j == 0 then 128
    else 0
  }

  lemma PadByte(padding: Padding, n: nat, j: nat)
    requires j < n <= MAX_BLOCK
    ensures ToNat(Pad(padding, n)[j]) == PadNumber(padding, n, j)
  {
    hide ToNat, ToByte;
    ByteOfNat(n);
    Zero();
    TopBitAlone();
  }

  lemma TopBitAlone()
    ensures ToNat(0x80) == 128
  {}

  /** What is padded, byte by byte. */
  lemma PaddedIff(padding: Padding, b: seq<Byte>, d: nat)
    requires |b| <= MAX_BLOCK
    ensures PaddedAt(padding, b, d) <==> d < |b| && forall k :: d <= k < |b| ==> ToNat(b[k]) == PadNumber(padding, |b| - d, k - d)
  {
    hide ToNat, Pad, PadNumber;
    if PaddedAt(padding, b, d) {
      forall k | d <= k < |b|
        ensures ToNat(b[k]) == PadNumber(padding, |b| - d, k - d)
      {
        PadByte(padding, |b| - d, k - d);
        assert b[k] == b[d..][k - d];
      }
    }
    if d < |b| && forall k :: d <= k < |b| ==> ToNat(b[k]) == PadNumber(padding, |b| - d, k - d) {
      var n, e := |b| - d, b[d..];
      forall j | 0 <= j < n
        ensures e[j] == Pad(padding, n)[j]
      {
        PadByte(padding, n, j);
        assert e[j] == b[d + j];
        NatInjective(e[j], Pad(padding, n)[j]);
      }
      assert e == Pad(padding, n);
    }
  }

  // ----- adding -----

  method AddPkcsPadding(output: array<Byte>, outputLen: nat, dataLen: nat)
    requires dataLen < outputLen <= output.Length && outputLen <= MAX_BLOCK
    modifies output
    ensures output[..outputLen] == old(output[..dataLen]) + Pad(Pkcs7, outputLen - dataLen)
  {
    var paddingLen := outputLen - dataLen;
    for i := 0 to paddingLen
      invariant output[..dataLen] == old(output[..dataLen])
      invariant forall k :: dataLen <= k < dataLen + i ==> output[k] == ToByte(paddingLen)
    {
      output[dataLen + i] := ToByte(paddingLen);
    }
  }

  method AddOneAndZerosPadding(output: array<Byte>, outputLen: nat, dataLen: nat)
    requires dataLen < outputLen <= output.Length && outputLen <= MAX_BLOCK
    modifies output
    ensures output[..outputLen] == old(output[..dataLen]) + Pad(OneAndZeros, outputLen - dataLen)
  {
    var paddingLen := outputLen - dataLen;
    output[dataLen] := 0x80;
    for i := 1 to paddingLen
      invariant output[..dataLen] == old(output[..dataLen]) && output[dataLen] == 0x80
      invariant forall k :: dataLen < k < dataLen + i ==> output[k] == 0
    {
      output[dataLen + i] := 0x00;
    }
  }

  method AddZerosAndLenPadding(output: array<Byte>, outputLen: nat, dataLen: nat)
    requires dataLen < outputLen <= output.Length && outputLen <= MAX_BLOCK
    modifies output
    ensures output[..outputLen] == old(output[..dataLen]) + Pad(ZerosAndLen, outputLen - dataLen)
  {
    var paddingLen := outputLen - dataLen;
    for i := 1 to paddingLen
      invariant output[..dataLen] == old(output[..dataLen])
      invariant forall k :: dataLen <= k < dataLen + i - 1 ==> output[k] == 0
    {
      output[dataLen + i - 1] := 0x00;
    }
    output[outputLen - 1] := ToByte(paddingLen);
  }

  method AddZerosPadding(output: array<Byte>, outputLen: nat, dataLen: nat)
    requires dataLen < outputLen <= output.Length && outputLen <= MAX_BLOCK
    modifies output
    ensures output[..outputLen] == old(output[..dataLen]) + Pad(Zeros, outputLen - dataLen)
  {
    for k := dataLen to outputLen
      invariant output[..dataLen] == old(output[..dataLen])
      invariant forall j :: dataLen <= j < k ==> output[j] == 0
    {
      output[k] := 0;
    }
  }

  // ----- removing -----

  /** The number of size_t values. */
  type SizeRange = n: nat | n == 0x1_0000_0000 || n == 0x1_0000_0000_0000_0000 witness 0x1_0000_0000
  const SIZE_RANGE: SizeRange

  /** a - b as size_t. */
  function SizeSub(a: nat, b: nat): nat
    requires a < SIZE_RANGE && b < SIZE_RANGE
  {
    if a >= b then a - b else a - b + SIZE_RANGE
  }

  /** bad exactly when the block does not end in PKCS#7 padding; the length of the data otherwise, and 0 when bad. */
  method GetPkcsPadding(input: array<Byte>, o: nat, inputLen: nat) returns (dataLen: nat, bad: bool)
    requires o + inputLen <= input.Length && 0 < inputLen <= MAX_BLOCK
    ensures bad <==> !IsPadded(Pkcs7, input[o..o + inputLen])
    ensures if bad then dataLen == 0 else PaddedAt(Pkcs7, input[o..o + inputLen], dataLen)
  {
    ghost var b := input[o..o + inputLen];
    var paddingLen := ToNat(input[o + inputLen - 1]);
    bad := paddingLen > inputLen || paddingLen == 0;
    var padIdx := SizeSub(inputLen, paddingLen);
    ghost var badLen := bad;
    for i := 0 to inputLen
      invariant bad <==> badLen || exists k :: 0 <= k < i && k >= padIdx && ToNat(b[k]) != paddingLen
    {
      assert b[i] == input[o + i];
      bad := bad || (i >= padIdx && ToNat(input[o + i]) != paddingLen);
    }
    dataLen := if bad then 0 else inputLen - paddingLen;
    PkcsPadded(b, paddingLen, badLen, bad);
  }

  lemma PkcsPadded(b: seq<Byte>, len: nat, badLen: bool, bad: bool)
    requires 0 < |b| <= MAX_BLOCK && len == ToNat(b[|b| - 1]) && (badLen <==> len > |b| || len == 0)
    requires bad <==> badLen || exists k :: 0 <= k < |b| && k >= |b| - len && ToNat(b[k]) != len
    ensures !bad ==> PaddedAt(Pkcs7, b, |b| - len)
    ensures bad ==> forall d: nat :: !PaddedAt(Pkcs7, b, d)
  {
    hide ToNat, ToByte;
    if !bad {
      ByteOfNat(len);
      forall k | |b| - len <= k < |b|
        ensures b[k] == ToByte(len)
      {
        NatInjective(b[k], ToByte(len));
      }
    }
    forall d: nat | PaddedAt(Pkcs7, b, d)
      ensures !bad
    {
      ByteOfNat(|b| - d);
      assert forall k :: d <= k < |b| ==> b[k] == b[d..][k - d];
    }
  }

  method GetOneAndZerosPadding(input: array<Byte>, o: nat, inputLen: nat) returns (dataLen: nat, bad: bool)
    requires o + inputLen <= input.Length && inputLen <= MAX_BLOCK
    ensures bad <==> !IsPadded(OneAndZeros, input[o..o + inputLen])
    ensures !bad ==> PaddedAt(OneAndZeros, input[o..o + inputLen], dataLen)
  {
    ghost var b := input[o..o + inputLen];
    var inPadding := true;
    bad := true;
    dataLen := 0;
    var i := inputLen - 1;
    while i >= 0
      invariant -1 <= i < inputLen
      invariant inPadding ==> bad && forall k :: i < k < inputLen ==> b[k] == 0
      invariant !inPadding ==> i < dataLen < inputLen && b[dataLen] != 0 && forall k :: dataLen < k < inputLen ==> b[k] == 0
      invariant !inPadding ==> (bad <==> b[dataLen] != 0x80)
    {
      assert b[i] == input[o + i];
      var isNonzero := input[o + i] != 0;
      var hitFirstNonzero := isNonzero && inPadding;
      dataLen := if hitFirstNonzero then i else dataLen;
      bad := if hitFirstNonzero then input[o + i] != 0x80 else bad;
      inPadding := inPadding && !isNonzero;
      i := i - 1;
    }
    OneAndZerosPadded(b, dataLen, inPadding, bad);
  }

  lemma OneAndZerosPadded(b: seq<Byte>, d0: nat, inPadding: bool, bad: bool)
    requires |b| <= MAX_BLOCK
    requires inPadding ==> bad && forall k :: 0 <= k < |b| ==> b[k] == 0
    requires !inPadding ==> d0 < |b| && b[d0] != 0 && (forall k :: d0 < k < |b| ==> b[k] == 0) && (bad <==> b[d0] != 0x80)
    ensures !bad ==> PaddedAt(OneAndZeros, b, d0)
    ensures bad <==> !IsPadded(OneAndZeros, b)
  {
    hide ToByte;
    if !bad {
      assert b[d0..] == Pad(OneAndZeros, |b| - d0);
      assert PaddedAt(OneAndZeros, b, d0);
    }
    forall d: nat | PaddedAt(OneAndZeros, b, d)
      ensures !bad
    {
      OneThenZeros(b, d);
    }
  }

  lemma OneThenZeros(b: seq<Byte>, d: nat)
    requires |b| <= MAX_BLOCK && PaddedAt(OneAndZeros, b, d)
    ensures d < |b| && b[d] == 0x80 && forall k :: d < k < |b| ==> b[k] == 0
  {
    assert forall k :: d <= k < |b| ==> b[k] == b[d..][k - d];
  }

  method GetZerosAndLenPadding(input: array<Byte>, o: nat, inputLen: nat) returns (dataLen: nat, bad: bool)
    requires o + inputLen <= input.Length && 0 < inputLen <= MAX_BLOCK
    ensures bad <==> !IsPadded(ZerosAndLen, input[o..o + inputLen])
    ensures !bad ==> PaddedAt(ZerosAndLen, input[o..o + inputLen], dataLen)
  {
    ghost var b := input[o..o + inputLen];
    var paddingLen := ToNat(input[o + inputLen - 1]);
    dataLen := SizeSub(inputLen, paddingLen);
    bad := paddingLen > inputLen || paddingLen == 0;
    ghost var badLen := bad;
    var padIdx := SizeSub(inputLen, paddingLen);
    for i := 0 to inputLen - 1
      invariant bad <==> badLen || NonzeroFrom(b, padIdx, i)
    {
      assert b[i] == input[o + i];
      bad := bad || (i >= padIdx && input[o + i] != 0);
    }
    ZerosAndLenPadded(b, paddingLen, badLen, bad);
  }

  /** One of the bytes from lo on and below hi is not zero. */
  ghost predicate NonzeroFrom(b: seq<Byte>, lo: nat, hi: nat)
    requires hi <= |b|
  {
    exists k :: lo <= k < hi && b[k] != 0
  }

  lemma ZerosAndLenPadded(b: seq<Byte>, len: nat, badLen: bool, bad: bool)
    requires 0 < |b| <= MAX_BLOCK && len == ToNat(b[|b| - 1]) && (badLen <==> len > |b| || len == 0)
    requires bad <==> badLen || NonzeroFrom(b, SizeSub(|b|, len), |b| - 1)
    ensures !bad ==> PaddedAt(ZerosAndLen, b, |b| - len)
    ensures bad ==> forall d: nat :: !PaddedAt(ZerosAndLen, b, d)
  {
    hide ToNat, ToByte;
    if !bad {
      ByteOfNat(len);
      NatInjective(b[|b| - 1], ToByte(len));
      assert b[|b| - len..] == Pad(ZerosAndLen, len);
    }
    forall d: nat | PaddedAt(ZerosAndLen, b, d)
      ensures !bad
    {
      ByteOfNat(|b| - d);
      assert forall k :: d <= k < |b| ==> b[k] == b[d..][k - d];
    }
  }

  /** The data is what is left of b without its trailing zeros. */
  ghost predicate ZerosStripped(b: seq<Byte>, d: nat)
  {
    d <= |b| && (forall k :: d <= k < |b| ==> b[k] == 0) && (d > 0 ==> b[d - 1] != 0)
  }

  /** Strips every trailing zero; never reports an error. */
  method GetZerosPadding(input: array<Byte>, o: nat, inputLen: nat) returns (dataLen: nat, bad: bool)
    requires o + inputLen <= input.Length
    ensures !bad && ZerosStripped(input[o..o + inputLen], dataLen)
  {
    ghost var b := input[o..o + inputLen];
    var done := false;
    dataLen := 0;
    var i := inputLen;
    while i > 0
      invariant 0 <= i <= inputLen
      invariant !done ==> dataLen == 0 && forall k :: i <= k < inputLen ==> b[k] == 0
      invariant done ==> ZerosStripped(b, dataLen)
    {
      assert b[i - 1] == input[o + i - 1];
      var prevDone := done;
      done := done || input[o + i - 1] != 0;
      dataLen := if done != prevDone then i else dataLen;
      i := i - 1;
    }
    bad := false;
  }
}
