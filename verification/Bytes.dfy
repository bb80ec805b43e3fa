/** Bytes, blocks and the exclusive-or of byte strings. */
module Bytes {

  type Byte = bv8

  /** A cipher block. */
  type Block = b: seq<Byte> | |b| == 16 witness seq(16, _ => 0)

  function XorByte(a: Byte, b: Byte): Byte
  {
    a ^ b
  }

  lemma XorByteTwice(a: Byte, b: Byte)
    ensures XorByte(XorByte(a, b), b) == a && XorByte(b, XorByte(a, b)) == a && XorByte(a, b) == XorByte(b, a)
  {}

  lemma XorByteAssoc(a: Byte, b: Byte, c: Byte)
    ensures XorByte(XorByte(a, b), c) == XorByte(a, XorByte(b, c)) && XorByte(a, a) == 0 && XorByte(a, 0) == a
  {}

  /** mbedtls_xor on as many bytes as a has; b may be longer. */
  function Xor(a: seq<Byte>, b: seq<Byte>): (r: seq<Byte>)
    requires |a| <= |b|
    ensures |r| == |a| && forall i :: 0 <= i < |a| ==> r[i] == XorByte(a[i], b[i])
  {
    seq(|a|, i requires 0 <= i < |a| => XorByte(a[i], b[i]))
  }

  function XorBlock(a: Block, b: Block): Block
  {
    Xor(a, b)
  }

  lemma XorTwice(a: seq<Byte>, b: seq<Byte>)
    requires |a| <= |b|
    ensures Xor(Xor(a, b), b) == a
  {
    forall i | 0 <= i < |a|
      ensures Xor(Xor(a, b), b)[i] == a[i]
    {
      XorByteTwice(a[i], b[i]);
    }
  }

  /** d undoes e on every block. */
  ghost predicate Undoes(d: Block -> Block, e: Block -> Block)
  {
    forall x: Block {:trigger e(x)} :: d(e(x)) == x
  }

  // ----- slices of arrays -----

  lemma SplitSlice(a: array<Byte>, i: nat, j: nat, k: nat)
    requires i <= j <= k <= a.Length
    ensures a[i..k] == a[i..j] + a[j..k]
  {}

  lemma SubSlice(a: array<Byte>, i: nat, j: nat, lo: nat, hi: nat)
    requires i <= j <= a.Length && lo <= hi <= j - i
    ensures a[i..j][lo..hi] == a[i + lo..i + hi]
  {
    var s := a[i..j];
    assert forall k :: lo <= k < hi ==> s[k] == a[i + k];
    assert |s[lo..hi]| == |a[i + lo..i + hi]|;
  }

  /** Elements that are as they were make a slice that is as it was. */
  lemma KeptSlice(a: array<Byte>, was: seq<Byte>, i: nat, j: nat)
    requires i <= j <= a.Length == |was| && forall k :: i <= k < j ==> a[k] == was[k]
    ensures a[i..j] == was[i..j]
  {}

  /** The next len bytes of what is left of the input x, which lies at io. */
  lemma NextPart(input: array<Byte>, io: nat, n: nat, len: nat, x: seq<Byte>)
    requires io + |x| <= input.Length && n + len <= |x| && input[io + n..io + |x|] == x[n..]
    ensures input[io + n..io + n + len] == x[n..n + len] && input[io + n + len..io + |x|] == x[n + len..]
    ensures x[..n + len] == x[..n] + x[n..n + len]
  {
    SubSlice(input, io + n, io + |x|, 0, len);
    SubSlice(input, io + n, io + |x|, len, |x| - n);
    assert x[n..][0..len] == x[n..n + len] && x[n..][len..|x| - n] == x[n + len..];
  }

  /** memcpy of a byte string into an array. */
  method Store(output: array<Byte>, o: nat, s: seq<Byte>)
    requires o + |s| <= output.Length
    modifies output
    ensures output[o..o + |s|] == s && forall k :: o <= k < o + |s| ==> output[k] == s[k - o]
    ensures forall k :: 0 <= k < output.Length && !(o <= k < o + |s|) ==> output[k] == old(output[k])
  {
    for i := 0 to |s|
      invariant forall k :: o <= k < o + i ==> output[k] == s[k - o]
      invariant forall k :: 0 <= k < output.Length && !(o <= k < o + i) ==> output[k] == old(output[k])
    {
      output[o + i] := s[i];
    }
  }

  /** The same, after the i bytes that are already there. */
  method StoreNext(output: array<Byte>, o: nat, i: nat, s: seq<Byte>)
    requires o + i + |s| <= output.Length
    modifies output
    ensures output[o..o + i + |s|] == old(output[o..o + i]) + s
    ensures forall k :: 0 <= k < output.Length && !(o + i <= k < o + i + |s|) ==> output[k] == old(output[k])
  {
    ghost var was := output[..];
    Store(output, o + i, s);
    KeptSlice(output, was, o, o + i);
    SplitSlice(output, o, o + i, o + i + |s|);
  }

  // ----- bytes as numbers -----

  function ToByte(n: nat): Byte
    requires n < 256
  {
    n as bv8
  }

  function ToNat(b: Byte): (n: nat)
    ensures n < 256
  {
    b as nat
  }

  lemma ByteBack(b: Byte)
    ensures ToByte(ToNat(b)) == b
  {}

  lemma Zero()
    ensures ToNat(0) == 0
  {}

  lemma Succ(b: Byte)
    requires b < 255
    ensures ToNat(b + 1) == ToNat(b) + 1
  {}

  lemma BelowTop(b: Byte)
    requires ToNat(b) < 255
    ensures b < 255
  {}

  /** Every number below 256 is that of a byte, counting up from zero. */
  lemma {:induction false} ByteOf(n: nat) returns (b: Byte)
    requires n < 256
    ensures ToNat(b) == n
  {
    hide *;
    if n == 0 {
      Zero();
      b := 0;
    } else {
      b := ByteOf(n - 1);
      BelowTop(b);
      Succ(b);
      b := b + 1;
    }
  }

  lemma ByteRoundTrip(n: nat)
    requires n < 256
    ensures ToNat(ToByte(n)) == n
  {
    hide *;
    var b := ByteOf(n);
    ByteBack(b);
  }

  lemma NatInjective(a: Byte, b: Byte)
    requires ToNat(a) == ToNat(b)
    ensures a == b
  {}
}
