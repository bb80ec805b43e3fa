/** cipher.c: the buffering CBC layer. Input arrives in pieces of any size; a decryption with padding always
    holds back the last whole block, because it may be padding. */
module CbcStream {
  import opened Arith
  import opened Bytes
  import opened CbcMode
  import P = Padding

  datatype CipherRet = Done | BadInputData | FullBlockExpected

  // ----- how much is held back -----

  /** The number of bytes held back after n bytes of input; hold says that whole blocks are held back too. */
  function Held(hold: bool, n: nat): nat
  {
    if hold && n > 0 && n % BLOCK == 0 then BLOCK else n % BLOCK
  }

  lemma HeldBounds(hold: bool, n: nat)
    ensures Held(hold, n) <= n && Held(hold, n) <= BLOCK && Whole(n - Held(hold, n))
    ensures !hold ==> Held(hold, n) < BLOCK
    ensures Held(hold, n) == 0 && hold ==> n == 0
  {
    var q, r := n / BLOCK, n % BLOCK;
    DivModDef(n, BLOCK);
    MulDist(BLOCK, q, 1);
    if q < 0 { MulLe(q, -1, BLOCK); } else if q > 0 { MulLe(1, q, BLOCK); }
    DivModUnique(n - r, BLOCK, q, 0);
    DivModUnique(n - r - BLOCK, BLOCK, q - 1, 0);
  }

  lemma HeldIs(hold: bool, n: nat, h: nat)
    requires h <= n && Whole(n - h) && (if hold then h <= BLOCK && (h == 0 ==> n == 0) else h < BLOCK)
    ensures h == Held(hold, n)
  {
    var q := (n - h) / BLOCK;
    DivModDef(n - h, BLOCK);
    MulDist(BLOCK, q, 1);
    if h < BLOCK { DivModUnique(n, BLOCK, q, h); } else { DivModUnique(n, BLOCK, q + 1, 0); }
  }

  /** All the output a stream gives for the input fed to it so far: it does not depend on the pieces. */
  function Emitted(encrypt: bool, hold: bool, f: CBlock -> CBlock, iv: CBlock, fed: seq<Byte>): seq<Byte>
  {
    HeldBounds(hold, |fed|);
    Cbc(encrypt, f, iv, fed[..|fed| - Held(hold, |fed|)])
  }

  /** A message with its padding: at least one byte, up to the next block boundary. */
  function Padded(padding: P.Padding, msg: seq<Byte>): seq<Byte>
  {
    msg + P.Pad(padding, BLOCK - |msg| % BLOCK)
  }

  /** What get_padding reports for a block: its padding, or that it has none. */
  ghost predicate Unpadded(padding: P.Padding, b: CBlock, olen: nat, invalid: bool)
  {
    match padding
    case NoPadding => olen == BLOCK && !invalid
    case Zeros => P.ZerosStripped(b, olen) && !invalid
    case _ => (invalid <==> !P.IsPadded(padding, b)) && (!invalid ==> P.PaddedAt(padding, b, olen))
  }

  lemma PaddedIs(padding: P.Padding, fed: seq<Byte>)
    ensures var n := |fed| % BLOCK;
            n == Held(false, |fed|) && Padded(padding, fed) == fed[..|fed| - n] + (fed[|fed| - n..] + P.Pad(padding, BLOCK - n))
  {
    hide P.Pad;
    HeldBounds(false, |fed|);
  }

  lemma HeldWhole(hold: bool, n: nat)
    ensures Held(hold, n) == 0 || Held(hold, n) == BLOCK <==> Whole(n)
    ensures Held(hold, n) == BLOCK ==> n > 0
    ensures hold ==> (Held(hold, n) == BLOCK <==> Whole(n) && n > 0)
    ensures !hold ==> Held(hold, n) == n % BLOCK
  {}

  class CipherContext {
    const encrypt: bool
    const padding: P.Padding
    const f: CBlock -> CBlock
    const unprocessedData: array<Byte>
    var unprocessedLen: nat
    var iv: CBlock

    ghost const iv0: CBlock
    ghost var fed: seq<Byte>
    ghost var emitted: seq<Byte>

    constructor (encrypt: bool, padding: P.Padding, f: CBlock -> CBlock, iv: CBlock)
      ensures Valid() && fed == [] && emitted == [] && fresh(unprocessedData)
      ensures this.encrypt == encrypt && this.padding == padding && this.f == f && iv0 == iv
    {
      this.encrypt, this.padding, this.f, this.iv, this.iv0 := encrypt, padding, f, iv, iv;
      unprocessedData := new Byte[BLOCK];
      unprocessedLen := 0;
      fed, emitted := [], [];
      new;
      WholeStep(0);
      CbcEmpty(encrypt, f, iv);
      HeldIs(Hold(), 0, 0);
    }

    /** Whether whole blocks are held back: decryption with an add_padding function. */
    predicate Hold()
    {
      !encrypt && padding != P.NoPadding
    }

    /** The input c has been processed, and nothing else. */
    ghost predicate Consumed(c: seq<Byte>)
      reads this`iv, this`emitted
    {
      Whole(|c|) && emitted == Cbc(encrypt, f, iv0, c) && iv == CbcIv(encrypt, f, iv0, c)
    }

    ghost predicate Valid()
      reads this, unprocessedData
    {
      unprocessedData.Length == BLOCK && unprocessedLen == Held(Hold(), |fed|) && unprocessedLen <= |fed| && unprocessedLen <= BLOCK &&
      unprocessedData[..unprocessedLen] == fed[|fed| - unprocessedLen..] && Consumed(fed[..|fed| - unprocessedLen])
    }

    /** Completes the cached block from the input and processes it. */
    method ProcessCached(input: array<Byte>, ip: nat, output: array<Byte>, op: nat, ghost c: seq<Byte>, ghost b: seq<Byte>)
      requires unprocessedData.Length == BLOCK && 0 < unprocessedLen <= BLOCK && Consumed(c)
      requires ip + (BLOCK - unprocessedLen) <= input.Length && op + BLOCK <= output.Length
      requires b == unprocessedData[..unprocessedLen] + input[ip..ip + (BLOCK - unprocessedLen)]
      requires input != unprocessedData && output != unprocessedData && input != output
      modifies this, unprocessedData, output
      ensures unprocessedLen == 0 && fed == old(fed) && Consumed(c + b)
      ensures emitted == old(emitted) + output[op..op + BLOCK]
      ensures forall k :: 0 <= k < output.Length && !(op <= k < op + BLOCK) ==> output[k] == old(output[k])
    {
      hide Cbc, CbcIv, Whole;
      var copyLen := BLOCK - unprocessedLen;
      Store(unprocessedData, unprocessedLen, input[ip..ip + copyLen]);
      assert unprocessedData[0..BLOCK] == b;
      WholeStep(0);
      ProcessWhole(unprocessedData, 0, BLOCK, output, op, c, b);
      unprocessedLen := 0;
    }

    /** Processes n bytes of whole blocks, here from the caller's input or from the cached block. */
    method ProcessWhole(input: array<Byte>, ip: nat, n: nat, output: array<Byte>, op: nat, ghost c: seq<Byte>, ghost b: seq<Byte>)
      requires Consumed(c) && Whole(n) && ip + n <= input.Length && op + n <= output.Length && b == input[ip..ip + n]
      requires input != output || ip == op
      modifies this`iv, this`emitted, output
      ensures Consumed(c + b) && emitted == old(emitted) + output[op..op + n]
      ensures forall k :: 0 <= k < output.Length && !(op <= k < op + n) ==> output[k] == old(output[k])
    {
      hide Cbc, CbcIv, Whole;
      CbcSplit(encrypt, f, iv0, c, b);
      WholeSum(|c|, n);
      iv := CryptCbc(encrypt, f, n, iv, input, ip, output, op);
      emitted := emitted + output[op..op + n];
    }

    /** Caches the last, possibly incomplete, block and processes the whole blocks before it. */
    method ProcessRest(input: array<Byte>, ip: nat, ilen0: nat, output: array<Byte>, op: nat, ghost c: seq<Byte>)
      returns (olen: nat)
      requires unprocessedData.Length == BLOCK && unprocessedLen == 0 && Consumed(c)
      requires ip + ilen0 <= input.Length && op + ilen0 <= output.Length
      requires input != unprocessedData && output != unprocessedData && (input != output || ip == op)
      modifies this, unprocessedData, output
      ensures fed == old(fed) && unprocessedLen == Held(Hold(), ilen0) <= ilen0 && unprocessedLen <= BLOCK
      ensures var y := old(input[ip..ip + ilen0]);
              unprocessedData[..unprocessedLen] == y[ilen0 - unprocessedLen..] && Consumed(c + y[..ilen0 - unprocessedLen])
      ensures olen == ilen0 - unprocessedLen && emitted == old(emitted) + output[op..op + olen]
      ensures forall k :: 0 <= k < output.Length && !(op <= k < op + olen) ==> output[k] == old(output[k])
    {
      hide Cbc, CbcIv, Whole, Held, Consumed;
      ghost var y := input[ip..ip + ilen0];
      HeldBounds(Hold(), ilen0);
      var ilen := CacheTail(input, ip, ilen0);
      SubSlice(input, ip, ip + ilen0, 0, ilen);
      olen := 0;
      if ilen > 0 {
        ProcessWhole(input, ip, ilen, output, op, c, y[..ilen]);
        olen := ilen;
      } else {
        assert c + y[..ilen] == c && emitted == old(emitted) + output[op..op + olen];
      }
    }

    /** The caching of the final block; returns how much is left to process. */
    method CacheTail(input: array<Byte>, ip: nat, ilen0: nat) returns (ilen: nat)
      requires unprocessedData.Length == BLOCK && unprocessedLen == 0 && ip + ilen0 <= input.Length && input != unprocessedData
      modifies this`unprocessedLen, unprocessedData
      ensures unprocessedLen == Held(Hold(), ilen0) <= ilen0 && unprocessedLen <= BLOCK && ilen == ilen0 - unprocessedLen
      ensures unprocessedData[..unprocessedLen] == input[ip..ip + ilen0][ilen..]
    {
      HeldBounds(Hold(), ilen0);
      ilen := ilen0;
      if ilen != 0 {
        var copyLen := ilen % BLOCK;
        if copyLen == 0 && !encrypt && padding != P.NoPadding {
          copyLen := BLOCK;
        }
        Store(unprocessedData, 0, input[ip + ilen - copyLen..ip + ilen]);
        unprocessedLen := unprocessedLen + copyLen;
        ilen := ilen - copyLen;
        assert unprocessedData[0..unprocessedLen] == input[ip..ip + ilen0][ilen..];
      }
    }

    /** mbedtls_cipher_update in CBC mode. The output buffer has room for the input plus one block. */
    method Update(input: array<Byte>, io: nat, ilen0: nat, output: array<Byte>, oo: nat) returns (ret: CipherRet, olen: nat)
      requires Valid() && io + ilen0 <= input.Length && oo + ilen0 + BLOCK <= output.Length
      requires input != unprocessedData && output != unprocessedData && (input != output || io == oo)
      modifies this, unprocessedData, output
      ensures Valid()
      ensures ret == if input == output && (old(unprocessedLen) != 0 || ilen0 % BLOCK != 0) then BadInputData else Done
      ensures fed == old(fed) + if ret == Done then old(input[io..io + ilen0]) else []
      ensures olen <= ilen0 + BLOCK && emitted == old(emitted) + output[oo..oo + olen]
      ensures forall k :: 0 <= k < output.Length && !(oo <= k < oo + olen) ==> output[k] == old(output[k])
    {
      hide Cbc, CbcIv, Whole, Held;
      if input == output && (unprocessedLen != 0 || ilen0 % BLOCK != 0) {
        return BadInputData, 0;
      }
      ret := Done;
      if (!encrypt && padding != P.NoPadding && ilen0 <= BLOCK - unprocessedLen) ||
         (!encrypt && padding == P.NoPadding && ilen0 < BLOCK - unprocessedLen) ||
         (encrypt && ilen0 < BLOCK - unprocessedLen) {
        CacheAll(input, io, ilen0);
        olen := 0;
      } else {
        olen := ProcessAll(input, io, ilen0, output, oo);
      }
    }

    /** Not enough for a block that may be processed: cache it. */
    method CacheAll(input: array<Byte>, io: nat, ilen: nat)
      requires Valid() && io + ilen <= input.Length && input != unprocessedData
      requires if Hold() then ilen <= BLOCK - unprocessedLen else ilen < BLOCK - unprocessedLen
      modifies this, unprocessedData
      ensures Valid() && fed == old(fed) + input[io..io + ilen] && emitted == old(emitted)
    {
      hide Cbc, CbcIv, Whole, Held, Consumed;
      ghost var x, c, h := input[io..io + ilen], fed[..|fed| - unprocessedLen], fed[|fed| - unprocessedLen..];
      HeldBounds(Hold(), |fed|);
      CacheBytes(input, io, ilen);
      CachedMore(fed, x, c, h, Hold());
      fed := fed + x;
    }

    /** memcpy behind what is cached already. */
    method CacheBytes(input: array<Byte>, io: nat, ilen: nat)
      requires io + ilen <= input.Length && unprocessedLen + ilen <= unprocessedData.Length && input != unprocessedData
      modifies this`unprocessedLen, unprocessedData
      ensures unprocessedLen == old(unprocessedLen) + ilen
      ensures unprocessedData[..unprocessedLen] == old(unprocessedData[..unprocessedLen]) + input[io..io + ilen]
    {
      ghost var h := unprocessedData[..unprocessedLen];
      Store(unprocessedData, unprocessedLen, input[io..io + ilen]);
      SplitSlice(unprocessedData, 0, unprocessedLen, unprocessedLen + ilen);
      assert unprocessedData[0..unprocessedLen] == h;
      unprocessedLen := unprocessedLen + ilen;
    }

    /** At least one block can be processed. */
    method ProcessAll(input: array<Byte>, io: nat, ilen0: nat, output: array<Byte>, oo: nat) returns (olen: nat)
      requires Valid() && io + ilen0 <= input.Length && oo + ilen0 + BLOCK <= output.Length
      requires if Hold() then ilen0 > BLOCK - unprocessedLen else ilen0 >= BLOCK - unprocessedLen
      requires input != unprocessedData && output != unprocessedData && (input != output || (io == oo && unprocessedLen == 0))
      modifies this, unprocessedData, output
      ensures Valid() && fed == old(fed) + old(input[io..io + ilen0])
      ensures olen <= ilen0 + BLOCK && emitted == old(emitted) + output[oo..oo + olen]
      ensures forall k :: 0 <= k < output.Length && !(oo <= k < oo + olen) ==> output[k] == old(output[k])
    {
      hide Cbc, CbcIv, Whole, Held, Chain, NextIv;
      ghost var x, c, h := input[io..io + ilen0], fed[..|fed| - unprocessedLen], fed[|fed| - unprocessedLen..];
      if 0 != unprocessedLen {
        var copyLen := BLOCK - unprocessedLen;
        Pieces(fed, c, h, x, copyLen);
        assert input[io..io + copyLen] == x[..copyLen] && input[io + copyLen..io + ilen0] == x[copyLen..];
        olen := Resume(input, io, ilen0, output, oo, x, c, h + x[..copyLen]);
      } else {
        assert c == fed;
        olen := Complete(input, io, ilen0, output, oo, x, c);
      }
    }

    /** With part of a block cached: completes and processes it, then the rest of the input. */
    method Resume(input: array<Byte>, io: nat, ilen0: nat, output: array<Byte>, oo: nat, ghost x: seq<Byte>, ghost c: seq<Byte>, ghost b: seq<Byte>)
      returns (olen: nat)
      requires unprocessedData.Length == BLOCK && 0 < unprocessedLen <= BLOCK && Consumed(c)
      requires BLOCK - unprocessedLen <= ilen0 && io + ilen0 <= input.Length && oo + ilen0 + BLOCK <= output.Length
      requires b == unprocessedData[..unprocessedLen] + input[io..io + (BLOCK - unprocessedLen)]
      requires fed + x == (c + b) + input[io + (BLOCK - unprocessedLen)..io + ilen0] && (Hold() ==> BLOCK - unprocessedLen < ilen0)
      requires input != unprocessedData && output != unprocessedData && input != output
      modifies this, unprocessedData, output
      ensures Valid() && fed == old(fed) + x
      ensures olen <= ilen0 + BLOCK && emitted == old(emitted) + output[oo..oo + olen]
      ensures forall k :: 0 <= k < output.Length && !(oo <= k < oo + olen) ==> output[k] == old(output[k])
    {
      hide Cbc, CbcIv, Whole, Held, Chain, NextIv;
      var copyLen := BLOCK - unprocessedLen;
      ProcessCached(input, io, output, oo, c, b);
      ghost var mid := output[oo..oo + BLOCK];
      olen := Complete(input, io + copyLen, ilen0 - copyLen, output, oo + BLOCK, x, c + b);
      ghost var tail := output[oo + BLOCK..oo + BLOCK + olen];
      olen := olen + BLOCK;
      assert output[oo..oo + olen] == mid + tail;
    }

    /** Processes the input that is left; done is all that was processed before it, x all the input of this call. */
    method Complete(input: array<Byte>, ip: nat, ilen: nat, output: array<Byte>, op: nat, ghost x: seq<Byte>, ghost done: seq<Byte>)
      returns (olen: nat)
      requires unprocessedData.Length == BLOCK && unprocessedLen == 0 && Consumed(done)
      requires ip + ilen <= input.Length && op + ilen <= output.Length
      requires fed + x == done + input[ip..ip + ilen] && (Hold() ==> ilen > 0)
      requires input != unprocessedData && output != unprocessedData && (input != output || ip == op)
      modifies this, unprocessedData, output
      ensures Valid() && fed == old(fed) + x
      ensures olen <= ilen && emitted == old(emitted) + output[op..op + olen]
      ensures forall k :: 0 <= k < output.Length && !(op <= k < op + olen) ==> output[k] == old(output[k])
    {
      hide Cbc, CbcIv, Whole, Held, Chain, NextIv, Emitted, Padded, Unpadded;
      ghost var y, fed0 := input[ip..ip + ilen], fed;
      olen := ProcessRest(input, ip, ilen, output, op, done);
      HeldBounds(Hold(), ilen);
      CutAt(fed0 + x, done, y, olen);
      Regrouped(fed0 + x, done, y[..olen], y[olen..], Hold());
      fed := fed0 + x;
    }

    /** Fills the cached block with padding. */
    method AddPadding()
      requires unprocessedData.Length == BLOCK && unprocessedLen < BLOCK && padding != P.NoPadding
      modifies unprocessedData
      ensures unprocessedData[..] == old(unprocessedData[..unprocessedLen]) + P.Pad(padding, BLOCK - unprocessedLen)
    {
      assert unprocessedData[..] == unprocessedData[..BLOCK];
      if padding == P.Pkcs7 {
        P.AddPkcsPadding(unprocessedData, BLOCK, unprocessedLen);
      } else if padding == P.OneAndZeros {
        P.AddOneAndZerosPadding(unprocessedData, BLOCK, unprocessedLen);
      } else if padding == P.ZerosAndLen {
        P.AddZerosAndLenPadding(unprocessedData, BLOCK, unprocessedLen);
      } else {
        P.AddZerosPadding(unprocessedData, BLOCK, unprocessedLen);
      }
      assert unprocessedData[..] == unprocessedData[..BLOCK];
    }

    /** Looks for padding in the last block of output. */
    method GetPadding(output: array<Byte>, oo: nat) returns (olen: nat, invalid: bool)
      requires oo + BLOCK <= output.Length
      ensures Unpadded(padding, output[oo..oo + BLOCK], olen, invalid)
    {
      match padding
      case Pkcs7 => olen, invalid := P.GetPkcsPadding(output, oo, BLOCK);
      case OneAndZeros => olen, invalid := P.GetOneAndZerosPadding(output, oo, BLOCK);
      case ZerosAndLen => olen, invalid := P.GetZerosAndLenPadding(output, oo, BLOCK);
      case Zeros => olen, invalid := P.GetZerosPadding(output, oo, BLOCK);
      case NoPadding => olen, invalid := BLOCK, false;
    }

    /** What finishing with padding yields: last completes CBC of the padded input when encrypting; when decrypting
        it completes CBC of the input and olen, invalid are what get_padding reports of it. */
    ghost predicate Finishes(last: seq<Byte>, olen: nat, invalid: bool)
      reads this
    {
      |last| == BLOCK && padding != P.NoPadding &&
      if encrypt then emitted + last == Cbc(true, f, iv0, Padded(padding, fed)) && olen == BLOCK
      else Whole(|fed|) && |fed| > 0 && emitted + last == Cbc(false, f, iv0, fed) && Unpadded(padding, last, olen, invalid)
    }

    /** mbedtls_cipher_finish_padded in CBC mode. */
    method FinishPadded(output: array<Byte>, oo: nat) returns (ret: CipherRet, olen: nat, invalid: bool)
      requires Valid() && oo + BLOCK <= output.Length && output != unprocessedData
      modifies this, unprocessedData, output
      ensures ret == Done || ret == FullBlockExpected
      ensures encrypt && padding != P.NoPadding ==> ret == Done && olen == BLOCK
      ensures encrypt && padding != P.NoPadding ==> old(emitted) + output[oo..oo + BLOCK] == Cbc(true, f, iv0, Padded(padding, old(fed)))
      ensures padding == P.NoPadding ==> (ret == Done <==> Whole(|old(fed)|)) && olen == 0
      ensures padding == P.NoPadding && ret == Done ==> old(emitted) == Cbc(encrypt, f, iv0, old(fed))
      ensures !encrypt && padding != P.NoPadding ==> (ret == Done <==> Whole(|old(fed)|) && |old(fed)| > 0)
      ensures !encrypt && padding != P.NoPadding && ret == Done ==> old(emitted) + output[oo..oo + BLOCK] == Cbc(false, f, iv0, old(fed))
      ensures !encrypt && padding != P.NoPadding && ret == Done ==> Unpadded(padding, output[oo..oo + BLOCK], olen, invalid)
      ensures padding != P.NoPadding && ret == Done ==> var last := output[oo..oo + BLOCK]; old(Finishes(last, olen, invalid))
      ensures forall k :: 0 <= k < output.Length && !(oo <= k < oo + BLOCK) ==> output[k] == old(output[k])
    {
      hide Cbc, CbcIv, Chain, NextIv, Held, Whole, Unpadded, Padded, Emitted, P.Pad, P.PaddedAt, P.IsPadded;
      HeldBounds(Hold(), |fed|);
      HeldWhole(Hold(), |fed|);
      olen, invalid := 0, false;
      if encrypt {
        if padding == P.NoPadding {
          if 0 != unprocessedLen {
            return FullBlockExpected, 0, false;
          }
          assert fed[..|fed|] == fed;
          return Done, 0, false;
        }
        PaddedIs(padding, fed);
        AddPadding();
      } else if BLOCK != unprocessedLen {
        if padding == P.NoPadding && 0 == unprocessedLen {
          assert fed[..|fed|] == fed;
          return Done, 0, false;
        }
        return FullBlockExpected, 0, false;
      }
      LastCbc(output, oo, if encrypt then Padded(padding, fed) else fed, fed[..|fed| - unprocessedLen]);
      ret := Done;
      if !encrypt {
        olen, invalid := GetPadding(output, oo);
      } else {
        olen := BLOCK;
      }
    }

    /** Processes the last block, held in unprocessedData; all is the whole of the input. */
    method LastCbc(output: array<Byte>, oo: nat, ghost all: seq<Byte>, ghost c: seq<Byte>)
      requires Consumed(c) && unprocessedData.Length == BLOCK && all == c + unprocessedData[..]
      requires oo + BLOCK <= output.Length && output != unprocessedData
      modifies this, output
      ensures old(emitted) + output[oo..oo + BLOCK] == Cbc(encrypt, f, iv0, all)
      ensures forall k :: 0 <= k < output.Length && !(oo <= k < oo + BLOCK) ==> output[k] == old(output[k])
    {
      hide Cbc, CbcIv, Chain, NextIv;
      CbcSplit(encrypt, f, iv0, c, unprocessedData[..]);
      WholeStep(0);
      assert unprocessedData[0..BLOCK] == unprocessedData[..];
      iv := CryptCbc(encrypt, f, BLOCK, iv, unprocessedData, 0, output, oo);
    }
  }

  lemma Pieces(fed: seq<Byte>, c: seq<Byte>, h: seq<Byte>, x: seq<Byte>, n: nat)
    requires n <= |x| && |h| <= |fed| && c == fed[..|fed| - |h|] && h == fed[|fed| - |h|..]
    ensures fed + x == (c + (h + x[..n])) + x[n..]
  {}

  /** More input that is only cached. */
  lemma CachedMore(fed: seq<Byte>, x: seq<Byte>, c: seq<Byte>, h: seq<Byte>, hold: bool)
    requires |h| <= |fed| && c == fed[..|fed| - |h|] && h == fed[|fed| - |h|..] && Whole(|c|)
    requires if hold then |h + x| <= BLOCK && (|h| == 0 ==> |fed| == 0) else |h + x| < BLOCK
    ensures |h + x| == Held(hold, |fed + x|) && (fed + x)[..|fed + x| - |h + x|] == c && (fed + x)[|fed + x| - |h + x|..] == h + x
  {
    assert fed == c + h;
    assert fed + x == c + (h + x);
    HeldIs(hold, |fed + x|, |h + x|);
  }

  lemma CutAt(all: seq<Byte>, done: seq<Byte>, y: seq<Byte>, n: nat)
    requires all == done + y && n <= |y|
    ensures all == done + y[..n] + y[n..]
  {
    assert y == y[..n] + y[n..];
  }

  /** The input so far as what was processed before, what was processed now, and what is held. */
  lemma Regrouped(fed: seq<Byte>, c: seq<Byte>, y: seq<Byte>, held: seq<Byte>, hold: bool)
    requires fed == c + y + held && Whole(|c + y|)
    requires if hold then |held| <= BLOCK && (|held| == 0 ==> |fed| == 0) else |held| < BLOCK
    ensures |held| == Held(hold, |fed|) && fed[..|fed| - |held|] == c + y && fed[|fed| - |held|..] == held
  {
    HeldIs(hold, |fed|, |held|);
  }

  lemma WholeSum(m: nat, n: nat)
    requires Whole(m) && Whole(n)
    ensures Whole(m + n)
  {
    DivModDef(m, BLOCK);
    DivModDef(n, BLOCK);
    MulDist(BLOCK, m / BLOCK, n / BLOCK);
    DivModUnique(m + n, BLOCK, m / BLOCK + n / BLOCK, 0);
  }

  // ----- the stream as a whole -----

  /** The output so far depends on the input so far alone, not on the pieces it came in. */
  lemma EmittedByInput(ctx: CipherContext)
    requires ctx.Valid()
    ensures ctx.emitted == Emitted(ctx.encrypt, ctx.Hold(), ctx.f, ctx.iv0, ctx.fed)
  {}

  /** The ciphertext of a padded message decrypts to whole blocks, the last of which ends in that padding. */
  lemma DecryptedPadding(e: CBlock -> CBlock, d: CBlock -> CBlock, iv: CBlock, padding: P.Padding, msg: seq<Byte>)
    requires Inverts(d, e)
    ensures var c := Cbc(true, e, iv, Padded(padding, msg));
            var p := Cbc(false, d, iv, c);
            var n := |msg| % BLOCK;
            Whole(|c|) && |p| == |c| == |msg| - n + BLOCK && p == Padded(padding, msg) &&
            p[|p| - BLOCK..] == msg[|msg| - n..] + P.Pad(padding, BLOCK - n)
  {
    hide Cbc, CbcIv, Inverts, P.Pad;
    var n, m := |msg| % BLOCK, Padded(padding, msg);
    PaddedLength(|msg|, n);
    CbcInverse(e, d, iv, m);
    CbcLength(true, e, iv, m);
    LastOfPadded(m, msg, n, P.Pad(padding, BLOCK - n));
  }

  lemma PaddedLength(len: nat, n: nat)
    requires n == len % BLOCK
    ensures n <= len && n < BLOCK && Whole(len - n + BLOCK)
  {
    var q := len / BLOCK;
    DivModDef(len, BLOCK);
    MulDist(BLOCK, q, 1);
    if q < 0 { MulLe(q, -1, BLOCK); }
    MulNonNeg(q, BLOCK);
    DivModUnique(len - n + BLOCK, BLOCK, q + 1, 0);
  }

  lemma LastOfPadded(m: seq<Byte>, msg: seq<Byte>, n: nat, pad: seq<Byte>)
    requires n <= |msg| && n < BLOCK && m == msg + pad && |pad| == BLOCK - n
    ensures m[|m| - BLOCK..] == msg[|msg| - n..] + pad
  {}

  /** Decrypting the ciphertext of any message, under PKCS#7, one-and-zeros or zeros-and-length padding, gives the
      message: whatever length get_padding reports, it reports no error and cuts the output to the message. */
  lemma StreamRoundTrip(e: CBlock -> CBlock, d: CBlock -> CBlock, iv: CBlock, padding: P.Padding, msg: seq<Byte>,
                        olen: nat, invalid: bool)
    requires Inverts(d, e) && (padding == P.Pkcs7 || padding == P.OneAndZeros || padding == P.ZerosAndLen)
    requires var p := Cbc(false, d, iv, Cbc(true, e, iv, Padded(padding, msg)));
             |p| >= BLOCK && Unpadded(padding, p[|p| - BLOCK..], olen, invalid)
    ensures !invalid
    ensures var p := Cbc(false, d, iv, Cbc(true, e, iv, Padded(padding, msg)));
            |p| - BLOCK + olen == |msg| && p[..|msg|] == msg
  {
    hide Cbc, Inverts, P.Pad, Unpadded;
    var n := |msg| % BLOCK;
    DecryptedPadding(e, d, iv, padding, msg);
    var p := Cbc(false, d, iv, Cbc(true, e, iv, Padded(padding, msg)));
    LastBlock(padding, p[|p| - BLOCK..], msg[|msg| - n..], olen, invalid);
    assert p[..|msg|] == msg;
  }

  lemma LastBlock(padding: P.Padding, b: CBlock, tail: seq<Byte>, olen: nat, invalid: bool)
    requires padding == P.Pkcs7 || padding == P.OneAndZeros || padding == P.ZerosAndLen
    requires |tail| < BLOCK && b == tail + P.Pad(padding, BLOCK - |tail|) && Unpadded(padding, b, olen, invalid)
    ensures !invalid && olen == |tail|
  {
    hide P.Pad;
    assert b[|tail|..] == P.Pad(padding, BLOCK - |tail|);
    assert P.PaddedAt(padding, b, |tail|);
    P.PaddedOnce(padding, b, olen, |tail|);
  }

  /** Under zero padding the message comes back exactly when it ends on a block boundary or in a nonzero byte. */
  lemma ZerosRoundTripIff(e: CBlock -> CBlock, d: CBlock -> CBlock, iv: CBlock, msg: seq<Byte>, olen: nat)
    requires Inverts(d, e)
    requires var p := Cbc(false, d, iv, Cbc(true, e, iv, Padded(P.Zeros, msg)));
             |p| >= BLOCK && Unpadded(P.Zeros, p[|p| - BLOCK..], olen, false)
    ensures var p := Cbc(false, d, iv, Cbc(true, e, iv, Padded(P.Zeros, msg)));
            p[..|p| - BLOCK + olen] == msg <==> |msg| % BLOCK == 0 || msg[|msg| - 1] != 0
  {
    hide Cbc, Inverts, P.Pad;
    var n := |msg| % BLOCK;
    ResidueZero(|msg|, BLOCK);
    DecryptedPadding(e, d, iv, P.Zeros, msg);
    var p := Cbc(false, d, iv, Cbc(true, e, iv, Padded(P.Zeros, msg)));
    CutBack(p, msg, n, olen);
  }

  lemma CutBack(p: seq<Byte>, msg: seq<Byte>, n: nat, olen: nat)
    requires n < BLOCK && n <= |msg| && p == msg + P.Pad(P.Zeros, BLOCK - n) && |p| == |msg| - n + BLOCK
    requires p[|p| - BLOCK..] == msg[|msg| - n..] + P.Pad(P.Zeros, BLOCK - n) && P.ZerosStripped(p[|p| - BLOCK..], olen)
    ensures p[..|p| - BLOCK + olen] == msg <==> n == 0 || msg[|msg| - 1] != 0
  {
    hide P.Pad, P.ZerosStripped;
    StrippedTail(p[|p| - BLOCK..], msg[|msg| - n..], olen);
    assert p[..|msg|] == msg;
    assert n > 0 ==> msg[|msg| - n..][n - 1] == msg[|msg| - 1];
  }

  lemma ResidueZero(x: nat, m: nat)
    requires m > 0
    ensures 0 <= x % m < m && x % m <= x
  {
    DivModDef(x, m);
    if x / m < 0 { MulLe(x / m, -1, m); }
    MulNonNeg(x / m, m);
  }

  /** What stripping zeros leaves of a tail followed by zeros: all of it exactly when it does not end in a zero. */
  lemma StrippedTail(b: CBlock, tail: seq<Byte>, olen: nat)
    requires |tail| < BLOCK && b == tail + P.Pad(P.Zeros, BLOCK - |tail|) && P.ZerosStripped(b, olen)
    ensures olen <= |tail|
    ensures olen == |tail| <==> |tail| == 0 || tail[|tail| - 1] != 0
  {
    var n := |tail|;
    assert forall k :: n <= k < BLOCK ==> b[k] == P.Pad(P.Zeros, BLOCK - n)[k - n] == 0;
    assert forall k :: 0 <= k < n ==> b[k] == tail[k];
  }

  // ----- two streams -----

  /** Two streams set up alike and fed the same bytes, in whatever pieces, have output the same and hold the same. */
  lemma PiecesDoNotMatter(c1: CipherContext, c2: CipherContext)
    requires c1.Valid() && c2.Valid() && c1.fed == c2.fed
    requires c1.encrypt == c2.encrypt && c1.f == c2.f && c1.iv0 == c2.iv0 && c1.Hold() == c2.Hold()
    ensures c1.emitted == c2.emitted && c1.iv == c2.iv && c1.unprocessedLen == c2.unprocessedLen
    ensures c1.unprocessedLen <= c1.unprocessedData.Length && c2.unprocessedLen <= c2.unprocessedData.Length
    ensures c1.unprocessedData[..c1.unprocessedLen] == c2.unprocessedData[..c2.unprocessedLen]
  {
    hide Cbc, CbcIv, Whole;
    HeldBounds(c1.Hold(), |c1.fed|);
  }

  /** A stream that encrypts and one that decrypts what the first has output, each fed in any pieces and then
      finished: the second gives the message back, and under zero padding exactly when that is possible. */
  lemma StreamsInverse(enc: CipherContext, last: seq<Byte>, olen0: nat, invalid0: bool, dec: CipherContext, tail: seq<Byte>, olen: nat, invalid: bool)
    requires enc.encrypt && !dec.encrypt && dec.iv0 == enc.iv0 && dec.padding == enc.padding && Inverts(dec.f, enc.f)
    requires enc.Finishes(last, olen0, invalid0) && dec.fed == enc.emitted + last[..olen0] && dec.Finishes(tail, olen, invalid)
    ensures !invalid && olen <= BLOCK
    ensures dec.emitted + tail[..olen] == enc.fed <==>
            enc.padding != P.Zeros || |enc.fed| % BLOCK == 0 || enc.fed[|enc.fed| - 1] != 0
  {
    hide Cbc, Inverts, P.Pad, Padded, Unpadded;
    var e, d, iv, padding, msg := enc.f, dec.f, enc.iv0, enc.padding, enc.fed;
    assert last[..olen0] == last;
    var p := Cbc(false, d, iv, Cbc(true, e, iv, Padded(padding, msg)));
    DecryptedPadding(e, d, iv, padding, msg);
    LastPiece(p, dec.emitted, tail);
    if padding == P.Zeros {
      ZerosReported(tail, olen, invalid);
      ZerosRoundTripIff(e, d, iv, msg, olen);
    } else {
      StreamRoundTrip(e, d, iv, padding, msg, olen, invalid);
    }
    ReportedLength(padding, tail, olen, invalid);
    Recovered(p, dec.emitted, tail, olen);
  }

  lemma LastPiece(p: seq<Byte>, head: seq<Byte>, tail: seq<Byte>)
    requires p == head + tail && |tail| == BLOCK
    ensures |p| >= BLOCK && p[|p| - BLOCK..] == tail
  {}

  lemma Recovered(p: seq<Byte>, head: seq<Byte>, tail: seq<Byte>, olen: nat)
    requires p == head + tail && |tail| == BLOCK && olen <= BLOCK
    ensures head + tail[..olen] == p[..|p| - BLOCK + olen]
  {}

  lemma ZerosReported(b: CBlock, olen: nat, invalid: bool)
    requires Unpadded(P.Zeros, b, olen, invalid)
    ensures !invalid
  {}

  lemma ReportedLength(padding: P.Padding, b: CBlock, olen: nat, invalid: bool)
    requires padding != P.NoPadding && !invalid && Unpadded(padding, b, olen, invalid)
    ensures olen <= BLOCK
  {}
}
