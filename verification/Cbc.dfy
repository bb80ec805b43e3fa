/** CBC: the block loop of aes.c, for blocks of 8 or 16 bytes and any block permutation. */
module CbcMode {
  import opened Arith
  import opened Bytes

  type BlockSize = n: nat | n == 8 || n == 16 witness 16

  /** The block size of the cipher; both sizes are covered. */
  const BLOCK: BlockSize

  type CBlock = b: seq<Byte> | |b| == BLOCK witness seq(BLOCK, _ => 0)

  ghost predicate Inverts(d: CBlock -> CBlock, e: CBlock -> CBlock)
  {
    forall x: CBlock {:trigger e(x)} :: d(e(x)) == x
  }

  // ----- cipher block chaining as a function -----

  function XorC(a: CBlock, b: CBlock): CBlock
  {
    Xor(a, b)
  }

  /** One block in and the chaining value: the block out. */
  function Chain(encrypt: bool, f: CBlock -> CBlock, iv: CBlock, b: CBlock): CBlock
  {
    if encrypt then f(XorC(b, iv)) else XorC(f(b), iv)
  }

  /** A whole number of blocks. */
  predicate Whole(n: nat)
  {
    n % BLOCK == 0
  }

  lemma WholeStep(n: nat)
    ensures n >= BLOCK ==> (Whole(n) <==> Whole(n - BLOCK)) && (n - BLOCK) % BLOCK == n % BLOCK
    ensures Whole(n) && n < BLOCK ==> n == 0
    ensures Whole(n) ==> Whole(n + BLOCK)
    ensures Whole(0) && Whole(BLOCK)
  {
    var q, r := n / BLOCK, n % BLOCK;
    DivModDef(n, BLOCK);
    MulDist(BLOCK, q, 1);
    DivModUnique(n - BLOCK, BLOCK, q - 1, r);
    DivModUnique(n + BLOCK, BLOCK, q + 1, r);
    DivModUnique(0, BLOCK, 0, 0);
    DivModUnique(BLOCK, BLOCK, 1, 0);
    if n < BLOCK { SmallMod(n, BLOCK); }
  }

  /** The next chaining value is the ciphertext block. */
  function NextIv(encrypt: bool, f: CBlock -> CBlock, iv: CBlock, b: CBlock): CBlock
  {
    if encrypt then Chain(encrypt, f, iv, b) else b
  }

  /** NIST SP 800-38A, section 6.2: all the whole blocks of s. */
  function Cbc(encrypt: bool, f: CBlock -> CBlock, iv: CBlock, s: seq<Byte>): (r: seq<Byte>)
    decreases |s|
  {
    if |s| < BLOCK then []
    else Chain(encrypt, f, iv, s[..BLOCK]) + Cbc(encrypt, f, NextIv(encrypt, f, iv, s[..BLOCK]), s[BLOCK..])
  }

  lemma {:induction false} CbcLength(encrypt: bool, f: CBlock -> CBlock, iv: CBlock, s: seq<Byte>)
    ensures |Cbc(encrypt, f, iv, s)| == |s| - |s| % BLOCK
    decreases |s|
  {
    hide Chain, NextIv;
    if |s| >= BLOCK {
      WholeStep(|s|);
      CbcLength(encrypt, f, NextIv(encrypt, f, iv, s[..BLOCK]), s[BLOCK..]);
    }
  }

  /** The chaining value after them. */
  function CbcIv(encrypt: bool, f: CBlock -> CBlock, iv: CBlock, s: seq<Byte>): CBlock
    decreases |s|
  {
    if |s| < BLOCK then iv
    else CbcIv(encrypt, f, NextIv(encrypt, f, iv, s[..BLOCK]), s[BLOCK..])
  }

  /** Chaining can be interrupted after any whole number of blocks. */
  lemma {:induction false} CbcSplit(encrypt: bool, f: CBlock -> CBlock, iv: CBlock, s: seq<Byte>, t: seq<Byte>)
    requires Whole(|s|)
    ensures var iv' := CbcIv(encrypt, f, iv, s);
            Cbc(encrypt, f, iv, s + t) == Cbc(encrypt, f, iv, s) + Cbc(encrypt, f, iv', t) &&
            CbcIv(encrypt, f, iv, s + t) == CbcIv(encrypt, f, iv', t)
    decreases |s|
  {
    hide Chain, NextIv, Whole;
    WholeStep(|s|);
    if |s| < BLOCK {
      assert s + t == t;
    } else {
      var b := s[..BLOCK];
      assert (s + t)[..BLOCK] == b && (s + t)[BLOCK..] == s[BLOCK..] + t;
      CbcSplit(encrypt, f, NextIv(encrypt, f, iv, b), s[BLOCK..], t);
    }
  }

  lemma CbcOne(encrypt: bool, f: CBlock -> CBlock, iv: CBlock, b: CBlock)
    ensures Cbc(encrypt, f, iv, b) == Chain(encrypt, f, iv, b) && CbcIv(encrypt, f, iv, b) == NextIv(encrypt, f, iv, b)
  {
    hide Chain, NextIv;
    assert b[..BLOCK] == b && b[BLOCK..] == [];
  }

  lemma CbcEmpty(encrypt: bool, f: CBlock -> CBlock, iv: CBlock)
    ensures Cbc(encrypt, f, iv, []) == [] && CbcIv(encrypt, f, iv, []) == iv
  {}

  /** Decryption undoes encryption, and leaves the same chaining value. */
  lemma {:induction false} CbcInverse(e: CBlock -> CBlock, d: CBlock -> CBlock, iv: CBlock, p: seq<Byte>)
    requires Inverts(d, e) && Whole(|p|)
    ensures Cbc(false, d, iv, Cbc(true, e, iv, p)) == p
    ensures CbcIv(false, d, iv, Cbc(true, e, iv, p)) == CbcIv(true, e, iv, p)
    decreases |p|
  {
    hide Chain, Inverts, Whole;
    WholeStep(|p|);
    if |p| >= BLOCK {
      var b: seq<Byte> := p[..BLOCK];
      var c: seq<Byte> := Chain(true, e, iv, b);
      ChainInverse(e, d, iv, b);
      CbcInverse(e, d, c, p[BLOCK..]);
      var rest: seq<Byte> := Cbc(true, e, c, p[BLOCK..]);
      assert (c + rest)[..BLOCK] == c && (c + rest)[BLOCK..] == rest;
      assert p == b + p[BLOCK..];
    }
  }

  lemma ChainInverse(e: CBlock -> CBlock, d: CBlock -> CBlock, iv: CBlock, b: CBlock)
    requires Inverts(d, e)
    ensures Chain(false, d, iv, Chain(true, e, iv, b)) == b
  {
    var x := XorC(b, iv);
    assert d(e(x)) == x;
    XorTwice(b, iv);
  }

  // ----- the blocks one by one -----

  /** The chaining value is the last ciphertext block, or the initial value if there is none. */
  lemma CbcIvIs(encrypt: bool, f: CBlock -> CBlock, iv: CBlock, s: seq<Byte>)
    requires Whole(|s|)
    ensures |Cbc(encrypt, f, iv, s)| == |s|
    ensures CbcIv(encrypt, f, iv, s) == if |s| == 0 then iv else LastBlock(if encrypt then Cbc(encrypt, f, iv, s) else s)
  {
    hide Chain, Whole, Cbc, CbcIv;
    CbcLength(encrypt, f, iv, s);
    WholeStep(|s|);
    WholeIs(|s|);
    if |s| == 0 {
      CbcEmpty(encrypt, f, iv);
    } else {
      var n := |s| - BLOCK;
      var t, b := s[..n], s[n..];
      assert s == t + b;
      CbcSplit(encrypt, f, iv, t, b);
      CbcOne(encrypt, f, CbcIv(encrypt, f, iv, t), b);
    }
  }

  lemma WholeIs(n: nat)
    ensures Whole(n) <==> n % BLOCK == 0
  {}

  function LastBlock(s: seq<Byte>): (b: seq<Byte>)
  {
    if |s| < BLOCK then s else s[|s| - BLOCK..]
  }

  /** Each block is chained to the ciphertext block before it: in encryption the block at n is added to it before the
      block function, in decryption after it. */
  lemma CbcBlocks(encrypt: bool, f: CBlock -> CBlock, iv: CBlock, s: seq<Byte>, n: nat)
    requires Whole(|s|) && Whole(n) && n + BLOCK <= |s|
    ensures var r := Cbc(encrypt, f, iv, s);
            |r| == |s| && (n > 0 ==> n >= BLOCK) &&
            var before := if n == 0 then iv else if encrypt then r[n - BLOCK..n] else s[n - BLOCK..n];
            r[n..n + BLOCK] == if encrypt then f(Xor(s[n..n + BLOCK], before)) else Xor(f(s[n..n + BLOCK]), before)
  {
    hide Whole, Cbc, CbcIv, NextIv;
    var t, b, u := s[..n], s[n..n + BLOCK], s[n + BLOCK..];
    assert s == t + (b + u);
    WholeStep(n);
    WholeStep(BLOCK);
    CbcIvIs(encrypt, f, iv, t);
    CbcIvIs(encrypt, f, iv, s);
    var v := CbcIv(encrypt, f, iv, t);
    CbcSplit(encrypt, f, iv, t, b + u);
    CbcSplit(encrypt, f, v, b, u);
    CbcOne(encrypt, f, v, b);
    var r, h := Cbc(encrypt, f, iv, s), Cbc(encrypt, f, iv, t);
    assert r[..n] == h && r[n..n + BLOCK] == Chain(encrypt, f, v, b);
    if n > 0 {
      assert LastBlock(h) == r[n - BLOCK..n] && LastBlock(t) == s[n - BLOCK..n];
    }
  }

  // ----- the loop -----

  /** mbedtls_aes_crypt_cbc on whole blocks, out of place or in place. */
  method CryptCbc(encrypt: bool, f: CBlock -> CBlock, length: nat, iv0: CBlock, input: array<Byte>, io: nat, output: array<Byte>, oo: nat)
    returns (iv: CBlock)
    requires Whole(length) && io + length <= input.Length && oo + length <= output.Length
    requires input != output || io == oo
    modifies output
    ensures output[oo..oo + length] == Cbc(encrypt, f, iv0, old(input[io..io + length]))
    ensures iv == CbcIv(encrypt, f, iv0, old(input[io..io + length]))
    ensures forall k :: 0 <= k < output.Length && !(oo <= k < oo + length) ==> output[k] == old(output[k])
  {
    hide Cbc, CbcIv, Chain, NextIv, XorC, Whole;
    WholeStep(0);
    iv := iv0;
    ghost var s := input[io..io + length];
    CbcEmpty(encrypt, f, iv0);
    assert s[..0] == [];
    var n: nat := 0;
    while n < length
      invariant n <= length && Whole(n)
      invariant output[oo..oo + n] == Cbc(encrypt, f, iv0, s[..n]) && iv == CbcIv(encrypt, f, iv0, s[..n])
      invariant input[io + n..io + length] == s[n..]
      invariant forall k :: 0 <= k < output.Length && !(oo <= k < oo + n) ==> output[k] == old(output[k])
    {
      WholeBlocks(n, length);
      iv := CbcRound(encrypt, f, iv, input, io, length, output, oo, n, iv0, s);
      n := n + BLOCK;
    }
    assert s[..length] == s;
  }

  /** The block at n is processed. */
  method CbcRound(encrypt: bool, f: CBlock -> CBlock, iv1: CBlock, input: array<Byte>, io: nat, ghost length: nat,
                  output: array<Byte>, oo: nat, n: nat, ghost iv0: CBlock, ghost s: seq<Byte>)
    returns (iv: CBlock)
    requires Whole(n) && n + BLOCK <= length == |s| && io + length <= input.Length && oo + length <= output.Length
    requires input != output || io == oo
    requires output[oo..oo + n] == Cbc(encrypt, f, iv0, s[..n]) && iv1 == CbcIv(encrypt, f, iv0, s[..n])
    requires input[io + n..io + length] == s[n..]
    modifies output
    ensures output[oo..oo + n + BLOCK] == Cbc(encrypt, f, iv0, s[..n + BLOCK]) && iv == CbcIv(encrypt, f, iv0, s[..n + BLOCK])
    ensures input[io + n + BLOCK..io + length] == s[n + BLOCK..]
    ensures forall k :: 0 <= k < output.Length && !(oo + n <= k < oo + n + BLOCK) ==> output[k] == old(output[k])
  {
    hide Cbc, CbcIv, Chain, NextIv, XorC, Whole;
    ghost var out0, in0 := output[..], input[..];
    ghost var b: CBlock := input[io + n..io + n + BLOCK];
    NextPart(input, io, n, BLOCK, s);
    CbcSplit(encrypt, f, iv0, s[..n], b);
    CbcOne(encrypt, f, iv1, b);
    iv := CryptOne(encrypt, f, iv1, input, io + n, output, oo + n);
    KeptSlice(output, out0, oo, oo + n);
    SplitSlice(output, oo, oo + n, oo + n + BLOCK);
    KeptSlice(input, in0, io + n + BLOCK, io + length);
  }

  /** One pass of the loop. */
  method CryptOne(encrypt: bool, f: CBlock -> CBlock, iv0: CBlock, input: array<Byte>, ip: nat, output: array<Byte>, op: nat)
    returns (iv: CBlock)
    requires ip + BLOCK <= input.Length && op + BLOCK <= output.Length
    modifies output
    ensures var b: CBlock := old(input[ip..ip + BLOCK]);
            iv == NextIv(encrypt, f, iv0, b) && output[op..op + BLOCK] == Chain(encrypt, f, iv0, b)
    ensures forall k :: 0 <= k < output.Length && !(op <= k < op + BLOCK) ==> output[k] == old(output[k])
  {
    hide XorC;
    var b: CBlock := input[ip..ip + BLOCK];
    var o: CBlock;
    if encrypt {
      o := XorC(b, iv0);
      o := f(o);
      iv := o;
    } else {
      o := f(b);
      o := XorC(o, iv0);
      iv := b;
    }
    Store(output, op, o);
  }

  lemma WholeBlocks(n: nat, length: nat)
    requires Whole(n) && Whole(length) && n < length
    ensures n + BLOCK <= length && Whole(n + BLOCK)
  {
    WholeStep(n);
    DivModDef(n, BLOCK);
    DivModDef(length, BLOCK);
    var p, q := n / BLOCK, length / BLOCK;
    MulDist(BLOCK, p, 1);
    if q <= p { MulLe(q, p, BLOCK); } else { MulLe(p + 1, q, BLOCK); }
  }
}
