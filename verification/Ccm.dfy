/** ccm.c: the CCM state machine. Associated data and message arrive in pieces of any size. */
module Ccm {
  import opened Arith
  import opened Bytes
  import opened CcmSpec

  datatype Mode = Encrypt | Decrypt | StarEncrypt | StarDecrypt

  datatype CcmRet = Done | BadInput | AuthFailed

  const ZERO: Block := seq(16, i => 0)

  // ----- the first block -----

  /** The flag bits, as the code combines them with |=. */
  function FlagBits(hasAd: bool, t: nat, q: nat): Byte
    requires 4 <= t <= 16 && 2 <= q <= 8
  {
    ((0 | (if hasAd then 1 << 6 else 0)) | (ToByte((t - 2) / 2) << 3)) | ToByte(q - 1)
  }

  lemma FlagBitsAre(hasAd: bool, t: nat, q: nat)
    requires 4 <= t <= 16 && 2 <= q <= 8
    ensures FlagBits(hasAd, t, q) == Flags(hasAd, t, q)
  {
    hide ToByte, ToNat;
    var m, k := (t - 2) / 2, q - 1;
    LowBits(m, k);
    if hasAd {
      OrAssoc(1 << 6, ToByte(m) << 3, ToByte(k));
      TopFlag(8 * m + k);
    } else {
      OrNone(ToByte(m) << 3);
    }
  }

  lemma OrAssoc(a: Byte, b: Byte, c: Byte)
    ensures ((0 | a) | b) | c == a | (b | c)
  {}

  lemma OrNone(b: Byte)
    ensures (0 | 0) | b == b
  {}

  /** The two low fields do not meet. */
  lemma ShiftedIn(a: Byte, b: Byte)
    requires ToNat(a) < 8 && ToNat(b) < 8
    ensures ToNat((a << 3) | b) == 8 * ToNat(a) + ToNat(b)
  {
    assert a < 8 && b < 8;
  }

  lemma FlagAbove(b: Byte)
    requires ToNat(b) < 64
    ensures ToNat(((1 as Byte) << 6) | b) == 64 + ToNat(b)
  {
    assert b < 64;
  }

  lemma LowBits(m: nat, k: nat)
    requires m < 8 && k < 8
    ensures (ToByte(m) << 3) | ToByte(k) == ToByte(8 * m + k)
  {
    hide *;
    ByteRoundTrip(m);
    ByteRoundTrip(k);
    ByteRoundTrip(8 * m + k);
    ShiftedIn(ToByte(m), ToByte(k));
    NatInjective((ToByte(m) << 3) | ToByte(k), ToByte(8 * m + k));
  }

  lemma TopFlag(x: nat)
    requires x < 64
    ensures ((1 as Byte) << 6) | ToByte(x) == ToByte(64 + x)
  {
    hide *;
    ByteRoundTrip(x);
    ByteRoundTrip(64 + x);
    FlagAbove(ToByte(x));
    NatInjective(((1 as Byte) << 6) | ToByte(x), ToByte(64 + x));
  }

  function Zeros(n: nat): (s: seq<Byte>)
    ensures |s| == n
  {
    seq(n, i => 0)
  }

  /** The length field is filled from the last byte backwards. */
  lemma {:induction false} BePrepend(n: nat, i: nat)
    ensures Pow(256, i) > 0 && 0 <= n / Pow(256, i) && BeBytes(n, i + 1) == [ToByte((n / Pow(256, i)) % 256)] + BeBytes(n, i)
  {
    hide ToByte;
    PowPos(256, i);
    DivModDef(n, Pow(256, i));
    QuotientPositive(n, Pow(256, i));
    if i > 0 {
      PowPos(256, i - 1);
      BePrepend(n / 256, i - 1);
      DivDiv(n, 256, Pow(256, i - 1));
      DivModDef(n, 256);
    }
  }

  lemma QuotientPositive(n: nat, m: nat)
    requires m > 0
    ensures n / m >= 0 && (n / m > 0 <==> n >= m)
  {
    DivModDef(n, m);
    if n / m < 0 { MulLe(n / m, -1, m); }
    if n / m > 0 { MulLe(1, n / m, m); }
  }

  /** Adding one to a big-endian number: the last byte, and a carry into the rest when it wraps to zero. */
  lemma BeIncrement(n: nat, q: nat)
    requires q > 0
    ensures n % 256 != 255 ==> BeBytes(n + 1, q) == BeBytes(n / 256, q - 1) + [ToByte(n % 256 + 1)]
    ensures n % 256 == 255 ==> BeBytes(n + 1, q) == BeBytes(n / 256 + 1, q - 1) + [ToByte(0)]
  {
    hide ToByte;
    DivModDef(n, 256);
    if n % 256 == 255 {
      DivModUnique(n + 1, 256, n / 256 + 1, 0);
    } else {
      DivModUnique(n + 1, 256, n / 256, n % 256 + 1);
    }
  }

  /** ++ on an unsigned char. */
  function Increment(b: Byte): Byte
  {
    ToByte((ToNat(b) + 1) % 256)
  }

  /** The loop at the end of a block: increments the counter, most often only its last byte. */
  method IncrementCtr(ctr0: Block, q: nat, ghost nonce: seq<Byte>, ghost n: nat) returns (ctr: Block)
    requires 7 <= |nonce| <= 13 && q == 15 - |nonce| && ctr0 == Ctr(nonce, n)
    ensures ctr == Ctr(nonce, n + 1)
  {
    hide ToByte, ToNat, Increment, BeBytes, Zeros, Ctr;
    ghost var head := [ToByte(14 - |nonce|)] + nonce;
    ghost var m, want := n, Ctr(nonce, n + 1);
    CtrTail(nonce, n, head);
    CtrTail(nonce, n + 1, head);
    ctr := ctr0;
    for i := 0 to q
      invariant ctr == head + (BeBytes(m, q - i) + Zeros(i))
      invariant want == head + (BeBytes(m + 1, q - i) + Zeros(i))
    {
      IncrementStep(m, q - i, i, head, ctr, want);
      ctr := ctr[15 - i := Increment(ctr[15 - i])];
      if ctr[15 - i] != 0 {
        break;
      }
      m := m / 256;
    }
  }

  lemma CtrTail(nonce: seq<Byte>, n: nat, head: seq<Byte>)
    requires 7 <= |nonce| <= 13 && head == [ToByte(14 - |nonce|)] + nonce
    ensures Ctr(nonce, n) == head + (BeBytes(n, 15 - |nonce|) + Zeros(0))
  {
    hide ToByte, BeBytes;
    assert BeBytes(n, 15 - |nonce|) + Zeros(0) == BeBytes(n, 15 - |nonce|);
  }

  /** Incrementing one byte finishes the job, or leaves a zero byte and the carry into the byte above. */
  lemma IncrementStep(m: nat, r: nat, i: nat, head: seq<Byte>, ctr: Block, want: Block)
    requires 0 < r && |head| + r + i == 16
    requires ctr == head + (BeBytes(m, r) + Zeros(i)) && want == head + (BeBytes(m + 1, r) + Zeros(i))
    ensures var next := ctr[15 - i := Increment(ctr[15 - i])];
            0 <= m / 256 &&
            if next[15 - i] != 0 then next == want
            else next == head + (BeBytes(m / 256, r - 1) + Zeros(i + 1)) && want == head + (BeBytes(m / 256 + 1, r - 1) + Zeros(i + 1))
  {
    hide ToByte, ToNat, Increment, BeBytes, Zeros;
    BeLast(m, r);
    IncrementIs(m);
    BeIncrement(m, r);
    var high := BeBytes(m / 256, r - 1);
    SetByte(head, high, ToByte(m % 256), Increment(ToByte(m % 256)), i, ctr);
    if m % 256 == 255 {
      OneMoreZero(high, i);
      OneMoreZero(BeBytes(m / 256 + 1, r - 1), i);
    }
  }

  lemma BeLast(m: nat, q: nat)
    requires q > 0
    ensures 0 <= m / 256 && BeBytes(m, q) == BeBytes(m / 256, q - 1) + [ToByte(m % 256)]
  {
    DivModDef(m, 256);
  }

  lemma SetByte(head: seq<Byte>, high: seq<Byte>, b: Byte, c: Byte, i: nat, ctr: Block)
    requires ctr == head + (high + [b] + Zeros(i))
    ensures ctr[15 - i] == b && ctr[15 - i := c] == head + (high + [c] + Zeros(i))
  {}

  lemma OneMoreZero(high: seq<Byte>, i: nat)
    ensures high + [0] + Zeros(i) == high + Zeros(i + 1)
  {}

  lemma NonzeroByte(k: nat)
    requires 0 < k < 256
    ensures ToByte(k) != 0 && ToByte(0) == 0
  {
    hide ToNat;
    ByteRoundTrip(k);
    ByteRoundTrip(0);
  }

  lemma IncrementIs(m: nat)
    ensures m % 256 != 255 ==> Increment(ToByte(m % 256)) == ToByte(m % 256 + 1) && Increment(ToByte(m % 256)) != 0
    ensures m % 256 == 255 ==> Increment(ToByte(m % 256)) == ToByte(0) == 0
  {
    hide ToByte, ToNat;
    ByteRoundTrip(m % 256);
    NonzeroByte(1);
    if m % 256 != 255 { NonzeroByte(m % 256 + 1); }
  }

  // ----- the working values -----

  /** How many counters n bytes of a message of the given length have used up. */
  function Used(n: nat, total: nat): nat
  {
    n / 16 + if n == total && n % 16 != 0 then 1 else 0
  }

  /** The working value y while associated data and text are absorbed. */
  ghost function WorkValue(e: Block -> Block, nonce: seq<Byte>, t: nat, addLen: nat, ad: seq<Byte>, length: nat, text: seq<Byte>): Block
    requires 7 <= |nonce| <= 13 && 4 <= t <= 16 && addLen < 0xFF00 && |ad| <= addLen
  {
    var y0 := e(B0(nonce, addLen > 0, t, length));
    if addLen == 0 then Absorbed(e, y0, text, length)
    else if |ad| == 0 then y0
    else
      var s := [ToByte(addLen / 256), ToByte(addLen % 256)] + ad;
      if |ad| < addLen then Part(e, y0, s) else Absorbed(e, Absorb(e, y0, s), text, length)
  }

  /** When everything has been absorbed it is the authentication value of the standard. */
  lemma WorkDone(e: Block -> Block, nonce: seq<Byte>, t: nat, ad: seq<Byte>, text: seq<Byte>)
    requires 7 <= |nonce| <= 13 && 4 <= t <= 16 && |ad| < 0xFF00
    ensures WorkValue(e, nonce, t, |ad|, ad, |text|, text) == Mac(e, nonce, ad, text, t)
  {
    hide Part, XorAt, B0, ToByte;
    XorAtNone2(e(B0(nonce, |ad| > 0, t, |text|)), e);
  }

  lemma XorAtNone2(y: Block, e: Block -> Block)
    ensures Part(e, y, []) == y
  {
    XorAtNone(y);
  }

  /** The same while associated data comes in; before it starts, the length has not been added yet. */
  ghost function AdValue(e: Block -> Block, nonce: seq<Byte>, t: nat, addLen: nat, ad: seq<Byte>, length: nat, adStarted: bool): Block
    requires 7 <= |nonce| <= 13 && 4 <= t <= 16 && addLen < 0xFF00
  {
    var y0 := e(B0(nonce, addLen > 0, t, length));
    if !adStarted then y0 else Absorbed(e, y0, [ToByte(addLen / 256), ToByte(addLen % 256)] + ad, 2 + addLen)
  }

  lemma AdStart(e: Block -> Block, nonce: seq<Byte>, t: nat, addLen: nat, ad: seq<Byte>, length: nat)
    requires 7 <= |nonce| <= 13 && |ad| < addLen < 0xFF00
    ensures 4 <= t <= 16 ==> var w := WorkValue(e, nonce, t, addLen, ad, length, []);
            AdValue(e, nonce, t, addLen, ad, length, true) == if |ad| > 0 then w else XorAt(w, 0, [ToByte(addLen / 256), ToByte(addLen % 256)])
  {
    hide XorAt, B0, ToByte;
    assert [ToByte(addLen / 256), ToByte(addLen % 256)] + [] == [ToByte(addLen / 256), ToByte(addLen % 256)];
  }

  lemma AdStep(e: Block -> Block, nonce: seq<Byte>, t: nat, addLen: nat, ad: seq<Byte>, length: nat, p: seq<Byte>)
    requires 7 <= |nonce| <= 13 && addLen < 0xFF00 && |p| > 0 && |ad| + |p| <= addLen && (|ad| + 2) % 16 + |p| <= 16
    ensures 4 <= t <= 16 ==> var o := (|ad| + 2) % 16;
            var w := XorAt(AdValue(e, nonce, t, addLen, ad, length, true), o, p);
            AdValue(e, nonce, t, addLen, ad + p, length, true) == if |p| + o == 16 || |ad| + |p| == addLen then e(w) else w
  {
    hide XorAt, B0, ToByte, Absorbed;
    if 4 <= t <= 16 {
      var s := [ToByte(addLen / 256), ToByte(addLen % 256)] + ad;
      AbsorbedStep(e, e(B0(nonce, addLen > 0, t, length)), s, p, 2 + addLen);
      assert s + p == [ToByte(addLen / 256), ToByte(addLen % 256)] + (ad + p);
    }
  }

  lemma AdEnd(e: Block -> Block, nonce: seq<Byte>, t: nat, addLen: nat, ad: seq<Byte>, length: nat)
    requires 7 <= |nonce| <= 13 && 0 < |ad| <= addLen < 0xFF00
    ensures 4 <= t <= 16 ==> WorkValue(e, nonce, t, addLen, ad, length, []) == AdValue(e, nonce, t, addLen, ad, length, true)
  {
    hide XorAt, B0, ToByte;
    if 4 <= t <= 16 {
      var s := [ToByte(addLen / 256), ToByte(addLen % 256)] + ad;
      XorAtNone2(Absorb(e, e(B0(nonce, addLen > 0, t, length)), s), e);
    }
  }

  /** What the working value, the counter and the output so far are, given the input so far. */
  ghost predicate DataOk(e: Block -> Block, nonce: seq<Byte>, t: nat, addLen: nat, ad: seq<Byte>, length: nat,
                         encrypting: bool, y: Block, ctr: Block, inp: seq<Byte>, outp: seq<Byte>)
  {
    7 <= |nonce| <= 13 && t <= 16 && t % 2 == 0 && t != 2 && |ad| <= addLen < 0xFF00 && |inp| == |outp| &&
    outp == CtrCrypt(e, nonce, inp) && ctr == Ctr(nonce, 1 + Used(|inp|, length)) &&
    (t > 0 ==> |inp| <= length && y == WorkValue(e, nonce, t, addLen, ad, length, if encrypting then inp else outp))
  }

  lemma DataOkStep(e: Block -> Block, nonce: seq<Byte>, t: nat, addLen: nat, ad: seq<Byte>, length: nat, encrypting: bool,
                   y: Block, ctr: Block, inp: seq<Byte>, outp: seq<Byte>, p: seq<Byte>, c: seq<Byte>, y': Block, ctr': Block)
    requires DataOk(e, nonce, t, addLen, ad, length, encrypting, y, ctr, inp, outp)
    requires |ad| == addLen && 0 < |p| && |inp| % 16 + |p| <= 16 && (if t == 0 then length == 0 else |inp| + |p| <= length)
    requires |p| == |c| && c == Xor(p, e(ctr)[|inp| % 16..])
    requires var full := |p| + |inp| % 16 == 16 || |inp| + |p| == length;
             var w := XorAt(y, |inp| % 16, if encrypting then p else c);
             y' == (if full then e(w) else w) && ctr' == Ctr(nonce, 1 + Used(|inp|, length) + if full then 1 else 0)
    ensures DataOk(e, nonce, t, addLen, ad, length, encrypting, y', ctr', inp + p, outp + c)
  {
    hide CtrCrypt, Ctr, Used, WorkValue, XorAt, Xor;
    UsedStep(|inp|, |p|, length);
    CryptStep(e, nonce, inp, p);
    DataStep(e, nonce, t, addLen, ad, length, if encrypting then inp else outp, if encrypting then p else c);
  }

  predicate Encrypts(m: Mode)
  {
    m == Encrypt || m == StarEncrypt
  }

  /** The parameters with which the one-call functions succeed. */
  ghost predicate OneShotOk(m: Mode, length: nat, ivLen: nat, adLen: nat, t: nat)
  {
    7 <= ivLen <= 13 && t != 2 && t <= 16 && t % 2 == 0 && adLen < 0xFF00 &&
    if t == 0 then m == StarEncrypt || m == StarDecrypt else length < Pow(256, 15 - ivLen)
  }

  /** The message is masked with the key stream of its nonce. */
  ghost predicate OutputIs(e: Block -> Block, nonce: seq<Byte>, inp: seq<Byte>, outp: seq<Byte>)
  {
    7 <= |nonce| <= 13 && outp == CtrCrypt(e, nonce, inp)
  }

  /** Masked with counter block 0, the working value is the tag of the specification. */
  ghost predicate TagIs(e: Block -> Block, nonce: seq<Byte>, ad: seq<Byte>, text: seq<Byte>, t: nat, y: Block)
  {
    7 <= |nonce| <= 13 && 4 <= t <= 16 && |ad| < 0xFF00 && XorBlock(y, e(Ctr(nonce, 0)))[..t] == Tag(e, nonce, ad, text, t)
  }

  // ----- the context -----

  class CcmContext {
    const e: Block -> Block
    var y: Block
    var ctr: Block
    var plaintextLen: nat
    var addLen: nat
    var tagLen: nat
    var processed: nat
    var q: nat
    var mode: Mode
    var started: bool
    var lengthsSet: bool
    var adStarted: bool
    var adFinished: bool
    var error: bool

    ghost var nonce: seq<Byte>
    ghost var ad: seq<Byte>
    ghost var inp: seq<Byte>
    ghost var outp: seq<Byte>

    constructor (e: Block -> Block)
      ensures Idle() && this.e == e
    {
      this.e := e;
      y, ctr := ZERO, ZERO;
      plaintextLen, addLen, tagLen, processed, q, mode := 0, 0, 0, 0, 0, Decrypt;
      started, lengthsSet, adStarted, adFinished, error := false, false, false, false, false;
      nonce, ad, inp, outp := [], [], [], [];
    }

    predicate Encrypting()
      reads this`mode
    {
      mode == Encrypt || mode == StarEncrypt
    }

    predicate Star()
      reads this`mode
    {
      mode == StarEncrypt || mode == StarDecrypt
    }

    /** The plaintext so far. */
    ghost function Text(): seq<Byte>
      reads this`mode, this`inp, this`outp
    {
      if Encrypting() then inp else outp
    }

    ghost predicate NonceOk()
      reads this`nonce, this`q
    {
      7 <= |nonce| <= 13 && q == 15 - |nonce|
    }

    predicate LengthsOk()
      reads this`tagLen, this`addLen
    {
      tagLen <= 16 && tagLen % 2 == 0 && tagLen != 2 && addLen < 0xFF00
    }

    /** Not both of Starts and SetLengths called yet. */
    ghost predicate Setup()
      reads this
    {
      !(started && lengthsSet) && !adStarted && !adFinished && !error && ad == [] && inp == [] && outp == [] &&
      (lengthsSet ==> LengthsOk() && processed == 0) &&
      (if started then NonceOk() && ctr == Ctr(nonce, 1) && y == [0] + nonce + Zeros(q) else y == ZERO)
    }

    ghost predicate Idle()
      reads this
    {
      Setup() && !started && !lengthsSet
    }

    /** The part of Running that message data does not change. */
    ghost predicate Settled()
      reads this`started, this`lengthsSet, this`error, this`nonce, this`q, this`tagLen, this`addLen, this`ad, this`adStarted, this`adFinished
    {
      started && lengthsSet && !error && NonceOk() && LengthsOk() &&
      |ad| <= addLen && (adStarted <==> |ad| > 0) && (adFinished <==> addLen > 0 && |ad| == addLen)
    }

    lemma SettledFacts()
      requires Settled()
      ensures NonceOk() && LengthsOk() && |ad| <= addLen
    {}

    /** Both called: ready for data. Associated data comes before the message. */
    ghost predicate Running()
      reads this
    {
      Settled() && (if |ad| < addLen then processed == |ad| && inp == [] else processed == |inp|) &&
      Fitting() &&
      DataOk(e, nonce, tagLen, addLen, ad, plaintextLen, Encrypting(), y, ctr, inp, outp)
    }

    /** Announced associated data is missing. The code takes message data even so, and absorbs and masks it from the
        offset the associated data has left. */
    ghost predicate Early()
      reads this`started, this`lengthsSet, this`error, this`nonce, this`addLen, this`adFinished, this`ctr, this`q
    {
      started && lengthsSet && !error && NonceOk() && addLen > 0 && !adFinished && EarlyCounter(ctr)
    }

    /** Message data is taken, in its place or too early. */
    ghost predicate Taking()
      reads this
    {
      Early() || (Running() && |ad| == addLen)
    }

    lemma TakingIs()
      ensures Running() && |ad| == addLen ==> !Early()
      ensures Running() && |ad| < addLen ==> Early()
      ensures Running() ==> |ad| <= addLen && Taking()
    {
      hide Ctr;
      if Running() && |ad| < addLen {
        assert ctr == Ctr(nonce, 1 + Used(|inp|, plaintextLen));
      }
    }

    /** The lengths and the mode fit together. */
    ghost predicate Fitting()
      reads this`tagLen, this`plaintextLen, this`mode, this`q
    {
      if tagLen == 0 then plaintextLen == 0 && Star() else plaintextLen < Pow(256, q)
    }

    lemma RunningFacts()
      requires Running() && |ad| == addLen
      ensures PieceOk(inp, outp, y, ctr) && processed == |inp|
    {}

    lemma RunningOk()
      requires Running()
      ensures NonceOk() && LengthsOk()
    {
      hide DataOk, Fitting;
    }

    lemma RunningAgain()
      requires PieceOk(inp, outp, y, ctr) && processed == |inp|
      ensures Running() && |ad| == addLen
    {}

    /** Whether the operation that has been set up is possible. */
    ghost predicate Possible()
      reads this
    {
      if tagLen == 0 then Star() else plaintextLen < Pow(256, q)
    }

    /** ccm_calculate_first_block_if_ready. */
    method CalculateFirstBlockIfReady() returns (ret: CcmRet)
      requires !adStarted && !adFinished && !error && ad == [] && inp == [] && outp == []
      requires lengthsSet ==> LengthsOk() && processed == 0
      requires if started then NonceOk() && ctr == Ctr(nonce, 1) && y == [0] + nonce + Zeros(q) else y == ZERO
      modifies this`y, this`plaintextLen, this`error
      ensures !(old(started) && old(lengthsSet)) ==> ret == Done && Setup() && plaintextLen == old(plaintextLen)
      ensures old(started) && old(lengthsSet) ==> ret == if old(Possible()) then Done else BadInput
      ensures old(started) && old(lengthsSet) && ret == Done ==> Running() && plaintextLen == if tagLen == 0 then 0 else old(plaintextLen)
    {
      hide Pow, BeBytes, ToByte, FlagBits, Flags, Part, XorAt, Ctr;
      if !started || !lengthsSet {
        return Done;
      }
      UsedNone(plaintextLen);
      NothingYet(e, nonce);
      if tagLen == 0 {
        if Star() {
          plaintextLen := 0;
          UsedNone(0);
          return Done;
        } else {
          return BadInput;
        }
      }
      FlagBitsAre(addLen > 0, tagLen, q);
      y := y[0 := FlagBits(addLen > 0, tagLen, q)];
      var fits;
      y, fits := LengthField(y, q, plaintextLen);
      if !fits {
        error := true;
        return BadInput;
      }
      assert y == B0(nonce, addLen > 0, tagLen, plaintextLen);
      y := e(y);
      StartValue(e, nonce, tagLen, addLen, plaintextLen);
      ret := Done;
    }

    /** mbedtls_ccm_starts, before or after SetLengths. */
    method Starts(m: Mode, iv: seq<Byte>) returns (ret: CcmRet)
      requires Setup() && !started
      modifies this
      ensures |iv| < 7 || |iv| > 13 ==> ret == BadInput && Setup() && !started && lengthsSet == old(lengthsSet)
      ensures 7 <= |iv| <= 13 ==> started && lengthsSet == old(lengthsSet) && mode == m && nonce == iv && tagLen == old(tagLen) && addLen == old(addLen)
      ensures 7 <= |iv| <= 13 && !lengthsSet ==> ret == Done && Setup()
      ensures 7 <= |iv| <= 13 && lengthsSet ==> ret == if (if tagLen == 0 then Star() else old(plaintextLen) < Pow(256, 15 - |iv|)) then Done else BadInput
      ensures 7 <= |iv| <= 13 && lengthsSet && ret == Done ==> Running() && ad == [] && inp == [] && plaintextLen == if tagLen == 0 then 0 else old(plaintextLen)
    {
      hide Pow, BeBytes, ToByte, Running, Zeros, Ctr;
      if |iv| < 7 || |iv| > 13 {
        return BadInput;
      }
      mode := m;
      q := 16 - 1 - |iv|;
      ctr := CounterBlock(iv, q);
      y := NonceBlock(y, iv);
      nonce := iv;
      started := true;
      ret := CalculateFirstBlockIfReady();
    }

    /** mbedtls_ccm_set_lengths, before or after Starts. */
    method SetLengths(totalAdLen: nat, length: nat, t: nat) returns (ret: CcmRet)
      requires Setup() && !lengthsSet
      modifies this
      ensures var bad := t == 2 || t > 16 || t % 2 != 0 || totalAdLen >= 0xFF00;
              (bad ==> ret == BadInput && Setup() && !lengthsSet && started == old(started)) &&
              (!bad ==> lengthsSet && started == old(started) && tagLen == t && addLen == totalAdLen && mode == old(mode) && nonce == old(nonce)) &&
              (!bad && !started ==> ret == Done && Setup() && plaintextLen == length) &&
              (!bad && started ==> NonceOk() && ret == if (if t == 0 then Star() else length < Pow(256, q)) then Done else BadInput) &&
              (!bad && started && ret == Done ==> Running() && ad == [] && inp == [] && plaintextLen == if t == 0 then 0 else length)
    {
      hide Pow, BeBytes, ToByte;
      if t == 2 || t > 16 || t % 2 != 0 {
        return BadInput;
      }
      if totalAdLen >= 0xFF00 {
        return BadInput;
      }
      plaintextLen := length;
      addLen := totalAdLen;
      tagLen := t;
      processed := 0;
      lengthsSet := true;
      ret := CalculateFirstBlockIfReady();
    }

    /** mbedtls_ccm_update_ad. */
    method UpdateAd(add: seq<Byte>) returns (ret: CcmRet)
      requires Running() && inp == []
      modifies this
      ensures Running() && inp == [] && outp == []
      ensures ret == if |add| > 0 && |old(ad)| + |add| > addLen then BadInput else Done
      ensures ad == old(ad) + if ret == Done then add else []
      ensures mode == old(mode) && nonce == old(nonce) && addLen == old(addLen) && tagLen == old(tagLen) && plaintextLen == old(plaintextLen)
    {
      hide Pow, BeBytes, ToByte, WorkValue, CtrCrypt, Ctr, Used;
      if |add| > 0 {
        if adFinished {
          return BadInput;
        }
        if !adStarted {
          if |add| > addLen {
            return BadInput;
          }
        } else if processed + |add| > addLen {
          return BadInput;
        }
        AdPieces(add);
      }
      ret := Done;
    }

    /** The working value while associated data is coming in, with its length encoded in front. */
    ghost predicate AdState(started: bool)
      reads this
    {
      NonceOk() && LengthsOk() && |ad| <= addLen && addLen > 0 && processed == |ad| &&
      (tagLen > 0 ==> y == AdValue(e, nonce, tagLen, addLen, ad, plaintextLen, started))
    }

    /** One pass of the loop: a piece that does not cross a block boundary. */
    method AdPiece(add0: seq<Byte>) returns (add: seq<Byte>)
      requires AdState(true) && 0 < |add0| && |ad| + |add0| <= addLen
      modifies this`y, this`processed, this`ad
      ensures AdState(true) && |add| < |add0| && ad + add == old(ad) + add0
    {
      hide Pow, BeBytes, ToByte, AdValue, XorAt;
      add := add0;
      var offset := (processed + 2) % 16;
      var useLen := 16 - offset;
      if useLen > |add| {
        useLen := |add|;
      }
      AdStep(e, nonce, tagLen, addLen, ad, plaintextLen, add[..useLen]);
      y := XorAt(y, offset, add[..useLen]);
      processed := processed + useLen;
      ad := ad + add[..useLen];
      add := add[useLen..];
      if useLen + offset == 16 || processed == addLen {
        y := e(y);
      }
    }

    /** The body of UpdateAd once the lengths are checked. */
    method AdPieces(add0: seq<Byte>)
      requires Running() && inp == [] && 0 < |add0| && |ad| + |add0| <= addLen && !adFinished
      modifies this
      ensures Running() && inp == [] && outp == [] && ad == old(ad) + add0
      ensures mode == old(mode) && nonce == old(nonce) && addLen == old(addLen) && tagLen == old(tagLen) && plaintextLen == old(plaintextLen)
    {
      hide Pow, BeBytes, ToByte, WorkValue, CtrCrypt, Ctr, Used, AdValue, XorAt;
      AdStart(e, nonce, tagLen, addLen, ad, plaintextLen);
      if !adStarted {
        y := XorAt(y, 0, [ToByte(addLen / 256), ToByte(addLen % 256)]);
        adStarted := true;
      }
      var add := add0;
      while |add| > 0
        invariant AdState(true) && old(ad) + add0 == ad + add && |ad| + |add| <= addLen
        invariant |ad| + |add| == old(|ad|) + |add0|
        invariant started && lengthsSet && adStarted && !adFinished && !error && inp == old(inp) && outp == old(outp) && ctr == old(ctr) && q == old(q)
        invariant mode == old(mode) && nonce == old(nonce) && addLen == old(addLen) && tagLen == old(tagLen) && plaintextLen == old(plaintextLen)
        decreases |add|
      {
        add := AdPiece(add);
      }
      AdEnd(e, nonce, tagLen, addLen, ad, plaintextLen);
      UsedNone(plaintextLen);
      if processed == addLen {
        adFinished := true;
        processed := 0;
      }
    }

    /** mbedtls_ccm_crypt: masks a piece with the key stream of the current block. */
    method Crypt(offset: nat, input: seq<Byte>) returns (output: seq<Byte>)
      requires offset + |input| <= 16
      ensures output == Xor(input, e(ctr)[offset..])
    {
      var tmpBuf := e(ctr);
      output := Xor(input, tmpBuf[offset..]);
    }

    /** Masks a piece and adds its plaintext to the working value: before masking when encrypting, after it when
        decrypting. full says that the block or the message ends here. */
    method MaskPiece(p: seq<Byte>, offset: nat, full: bool) returns (c: seq<Byte>, y': Block)
      requires offset + |p| <= 16
      ensures c == Xor(p, e(ctr)[offset..])
      ensures var w := XorAt(y, offset, if Encrypting() then p else c);
              y' == if full then e(w) else w
    {
      hide XorAt, Xor;
      if Encrypting() {
        y' := XorAt(y, offset, p);
        if full {
          y' := e(y');
        }
        c := Crypt(offset, p);
      } else {
        c := Crypt(offset, p);
        y' := XorAt(y, offset, c);
        if full {
          y' := e(y');
        }
      }
    }

    /** One pass of the loop of Update: a piece that does not cross a block boundary. */
    method DataPiece(p: seq<Byte>) returns (c: seq<Byte>)
      requires Taking() && 0 < |p| && processed % 16 + |p| <= 16
      requires !Early() && tagLen > 0 ==> processed + |p| <= plaintextLen
      modifies this`y, this`ctr, this`processed, this`inp, this`outp
      ensures Taking() && Early() == old(Early())
      ensures |c| == |p| && inp == old(inp) + p && outp == old(outp) + c && processed == old(processed) + |p|
    {
      hide Running, Settled, DataOk, Fitting, Early, EarlyCounter;
      if !Early() {
        RunningFacts();
      }
      var masked, next;
      c, masked, next := PieceOut(p);
      TakePiece(p, c, masked, next);
    }

    /** Stores what PieceOut computed. */
    method TakePiece(p: seq<Byte>, ghost c: seq<Byte>, masked: Block, next: Block)
      requires if Early() then EarlyCounter(next) else PieceOk(inp + p, outp + c, masked, next) && processed == |inp|
      modifies this`y, this`ctr, this`processed, this`inp, this`outp
      ensures Taking() && Early() == old(Early())
      ensures inp == old(inp) + p && outp == old(outp) + c && processed == old(processed) + |p|
    {
      hide Running, PieceOk, EarlyCounter;
      processed := processed + |p|;
      y, ctr := masked, next;
      inp, outp := inp + p, outp + c;
      if !old(Early()) {
        RunningAgain();
        TakingIs();
      }
    }

    /** The masked piece, the working value and the counter after it. */
    method PieceOut(p: seq<Byte>) returns (c: seq<Byte>, masked: Block, next: Block)
      requires 0 < |p| && processed % 16 + |p| <= 16
      requires Early() || (PieceOk(inp, outp, y, ctr) && processed == |inp| && (tagLen > 0 ==> processed + |p| <= plaintextLen))
      ensures |c| == |p|
      ensures if Early() then EarlyCounter(next) else PieceOk(inp + p, outp + c, masked, next)
    {
      hide Pow, Ctr, Used, XorAt, Xor, Settled, DataOk;
      ghost var n: nat;
      if Early() {
        n :| ctr == Ctr(nonce, n);
      } else {
        DataOkFacts(e, nonce, tagLen, addLen, ad, plaintextLen, Encrypting(), y, ctr, inp, outp);
        SettledFacts();
        n := 1 + Used(|inp|, plaintextLen);
      }
      var offset := processed % 16;
      var full := |p| + offset == 16 || processed + |p| == plaintextLen;
      next := ctr;
      c, masked := MaskPiece(p, offset, full);
      if full {
        next := IncrementCtr(ctr, q, nonce, n);
      }
      if !Early() {
        DataOkStep(e, nonce, tagLen, addLen, ad, plaintextLen, Encrypting(), y, ctr, inp, outp, p, c, masked, next);
      }
    }

    /** What the message data in i and out o have made of the working value and the counter. */
    ghost predicate PieceOk(i: seq<Byte>, o: seq<Byte>, y1: Block, ctr1: Block)
      reads this`started, this`lengthsSet, this`error, this`nonce, this`q, this`tagLen, this`addLen, this`ad, this`adStarted, this`adFinished
      reads this`plaintextLen, this`mode
    {
      Settled() && Fitting() && |ad| == addLen && DataOk(e, nonce, tagLen, addLen, ad, plaintextLen, Encrypting(), y1, ctr1, i, o)
    }

    ghost predicate EarlyCounter(c: Block)
      reads this`nonce
    {
      7 <= |nonce| <= 13 && exists n: nat :: c == Ctr(nonce, n)
    }

    /** mbedtls_ccm_update; out of place or in place. Message data that comes before all the associated data is taken
        too, and leaves the operation in a state that Finish refuses. */
    method Update(input: array<Byte>, io: nat, inputLen: nat, output: array<Byte>, oo: nat, outputSize: nat) returns (ret: CcmRet)
      requires (Early() || Running()) && io + inputLen <= input.Length && oo + outputSize <= output.Length
      requires input != output || io == oo
      modifies this`y, this`ctr, this`processed, this`inp, this`outp, output
      ensures if old(Early()) then Early() else Running() && |ad| == addLen
      ensures ret == if (tagLen != 0 && old(processed) + inputLen > plaintextLen) || outputSize < inputLen then BadInput else Done
      ensures !old(Early()) ==> old(processed) == |old(inp)|
      ensures ret != Done ==> inp == old(inp) && outp == old(outp)
      ensures ret == Done ==> inp == old(inp) + old(input[io..io + inputLen]) && outp == old(outp) + output[oo..oo + inputLen]
      ensures forall k :: 0 <= k < output.Length && !(ret == Done && oo <= k < oo + inputLen) ==> output[k] == old(output[k])
    {
      hide Running, Early;
      TakingIs();
      if !Early() {
        RunningFacts();
      }
      if tagLen != 0 && processed + inputLen > plaintextLen {
        return BadInput;
      }
      if outputSize < inputLen {
        return BadInput;
      }
      DataPieces(input, io, inputLen, output, oo);
      ret := Done;
    }

    /** The loop of Update. */
    method DataPieces(input: array<Byte>, io: nat, inputLen: nat, output: array<Byte>, oo: nat)
      requires Taking() && io + inputLen <= input.Length && oo + inputLen <= output.Length
      requires !Early() && tagLen > 0 ==> processed + inputLen <= plaintextLen
      requires input != output || io == oo
      modifies this`y, this`ctr, this`processed, this`inp, this`outp, output
      ensures Taking() && Early() == old(Early())
      ensures inp == old(inp) + old(input[io..io + inputLen]) && outp == old(outp) + output[oo..oo + inputLen]
      ensures forall k :: 0 <= k < output.Length && !(oo <= k < oo + inputLen) ==> output[k] == old(output[k])
    {
      hide Taking, Early;
      ghost var x := input[io..io + inputLen];
      var n: nat := 0;
      while n < inputLen
        invariant n <= inputLen && Taking() && Early() == old(Early()) && processed == old(processed) + n
        invariant inp == old(inp) + x[..n] && outp == old(outp) + output[oo..oo + n] && input[io + n..io + inputLen] == x[n..]
        invariant forall k :: 0 <= k < output.Length && !(oo <= k < oo + n) ==> output[k] == old(output[k])
      {
        var offset := processed % 16;
        var useLen := 16 - offset;
        if useLen > inputLen - n {
          useLen := inputLen - n;
        }
        DataRound(input, io, inputLen, output, oo, n, useLen, x, old(inp), old(outp));
        n := n + useLen;
      }
      assert x[..inputLen] == x;
    }

    /** One pass: reads a piece, processes it and stores the result. */
    method DataRound(input: array<Byte>, io: nat, ghost inputLen: nat, output: array<Byte>, oo: nat, n: nat, useLen: nat,
                     ghost x: seq<Byte>, ghost inp0: seq<Byte>, ghost outp0: seq<Byte>)
      requires Taking() && io + inputLen <= input.Length && oo + inputLen <= output.Length
      requires 0 < useLen && n + useLen <= inputLen == |x| && processed % 16 + useLen <= 16 && (input != output || io == oo)
      requires !Early() && tagLen > 0 ==> processed + useLen <= plaintextLen
      requires inp == inp0 + x[..n] && outp == outp0 + output[oo..oo + n] && input[io + n..io + inputLen] == x[n..]
      modifies this`y, this`ctr, this`processed, this`inp, this`outp, output
      ensures Taking() && Early() == old(Early()) && processed == old(processed) + useLen
      ensures inp == inp0 + x[..n + useLen] && outp == outp0 + output[oo..oo + n + useLen]
      ensures input[io + n + useLen..io + inputLen] == x[n + useLen..]
      ensures forall k :: 0 <= k < output.Length && !(oo + n <= k < oo + n + useLen) ==> output[k] == old(output[k])
    {
      hide *;
      ghost var done := output[oo..oo + n];
      var p := input[io + n..io + n + useLen];
      NextPart(input, io, n, useLen, x);
      var c := DataPiece(p);
      Store(output, oo + n, c);
      assert output[oo..oo + n] == done;
      SplitSlice(output, oo, oo + n, oo + n + useLen);
      assert input[io + n + useLen..io + inputLen] == old(input[io + n + useLen..io + inputLen]);
      Regroup(inp0, x[..n], p);
      Regroup(outp0, done, c);
    }

    /** The 16-byte tag of what has been absorbed. */
    ghost function FullTag(): Block
      requires NonceOk() && LengthsOk() && tagLen > 0 && |ad| == addLen
      reads this
    {
      WholeTag(e, nonce, ad, Text(), tagLen)
    }

    /** Resets the counter and masks the working value with it. */
    method MaskTag(ghost n: nat)
      requires NonceOk() && ctr == Ctr(nonce, n)
      modifies this`y, this`ctr
      ensures y == XorBlock(old(y), e(Ctr(nonce, 0)))
    {
      hide Ctr, Zeros, Xor;
      TagCounter(nonce, n);
      ctr := ctr[..16 - q] + Zeros(q);
      y := Crypt(0, y);
      assert e(ctr)[0..] == e(ctr);
    }

    /** mbedtls_ccm_finish: the first tagOutLen bytes of the tag. */
    method Finish(tagOutLen: nat) returns (ret: CcmRet, tag: seq<Byte>)
      requires (Early() || Running()) && tagOutLen <= 16
      modifies this
      ensures old(Early()) ==> ret == BadInput
      ensures !old(Early()) ==> ret == if old(|ad| < addLen || (plaintextLen > 0 && |inp| != plaintextLen)) then BadInput else Done
      ensures ret == Done && old(tagLen > 0 && |ad| == addLen) ==>
              old(NonceOk() && LengthsOk()) && tag == old(FullTag())[..tagOutLen]
      ensures ret == Done ==> old(NonceOk()) && tag == XorBlock(old(y), e(Ctr(old(nonce), 0)))[..tagOutLen]
      ensures ret == Done ==> Idle() && |tag| == tagOutLen
    {
      hide Running, FullTag, Ctr, XorBlock, EarlyCounter;
      tag := [];
      if !Early() {
        FinishFacts();
      }
      if addLen > 0 && !adFinished {
        return BadInput, [];
      }
      if plaintextLen > 0 && processed != plaintextLen {
        return BadInput, [];
      }
      MaskTag(1 + Used(|inp|, plaintextLen));
      tag := y[..tagOutLen];
      Clear();
      ret := Done;
    }

    /** mbedtls_ccm_clear_state. */
    method Clear()
      modifies this`y, this`ctr, this`started, this`lengthsSet, this`adStarted, this`adFinished, this`error
      modifies this`nonce, this`ad, this`inp, this`outp
      ensures Idle()
    {
      y, ctr := ZERO, ZERO;
      started, lengthsSet, adStarted, adFinished, error := false, false, false, false, false;
      nonce, ad, inp, outp := [], [], [], [];
    }

    /** What the checks of Finish establish. */
    lemma FinishFacts()
      requires Running()
      ensures |ad| <= addLen && (addLen > 0 && !adFinished <==> |ad| < addLen)
      ensures |ad| == addLen ==> processed == |inp|
      ensures NonceOk() && LengthsOk() && ctr == Ctr(nonce, 1 + Used(|inp|, plaintextLen))
      ensures |ad| == addLen && tagLen > 0 && (plaintextLen == 0 || processed == plaintextLen) ==>
              FullTag() == XorBlock(y, e(Ctr(nonce, 0)))
    {
      hide Pow, ToByte, WorkValue, CtrCrypt, Used, Mac, BeBytes, Ctr, XorBlock;
      if |ad| == addLen && tagLen > 0 && (plaintextLen == 0 || processed == plaintextLen) {
        WorkDone(e, nonce, tagLen, ad, Text());
      }
    }

    /** ccm_auth_crypt: the whole operation in one call. */
    method AuthCrypt(m: Mode, length: nat, iv: seq<Byte>, add: seq<Byte>, input: array<Byte>, io: nat, output: array<Byte>, oo: nat, t: nat)
      returns (ret: CcmRet, tag: seq<Byte>)
      requires Idle() && io + length <= input.Length && oo + length <= output.Length && (input != output || io == oo)
      modifies this, output
      ensures ret == if OneShotOk(m, length, |iv|, |add|, t) then Done else BadInput
      ensures ret == Done ==> Idle() && |tag| == t && output[oo..oo + length] == CtrCrypt(e, iv, old(input[io..io + length]))
      ensures ret == Done && t > 0 ==> tag == Tag(e, iv, add, if Encrypts(m) then old(input[io..io + length]) else output[oo..oo + length], t)
      ensures forall k :: 0 <= k < output.Length && !(oo <= k < oo + length) ==> output[k] == old(output[k])
    {
      hide Pow, CtrCrypt, WholeTag, WorkValue, Ctr, Used, Running;
      tag := [];
      ret := Starts(m, iv);
      if ret != Done {
        return;
      }
      ret := SetLengths(|add|, length, t);
      if ret != Done {
        return;
      }
      ret, tag := ProcessAll(length, add, input, io, output, oo, t);
    }

    /** The data of a one-shot call, once the lengths are known to be possible. */
    method ProcessAll(length: nat, add: seq<Byte>, input: array<Byte>, io: nat, output: array<Byte>, oo: nat, t: nat)
      returns (ret: CcmRet, tag: seq<Byte>)
      requires Running() && ad == [] && inp == [] && addLen == |add| && tagLen == t <= 16
      requires plaintextLen == if t == 0 then 0 else length
      requires io + length <= input.Length && oo + length <= output.Length && (input != output || io == oo)
      modifies this, output
      ensures ret == Done && Idle() && |tag| == t && old(NonceOk() && LengthsOk())
      ensures output[oo..oo + length] == CtrCrypt(e, old(nonce), old(input[io..io + length]))
      ensures t > 0 ==> tag == Tag(e, old(nonce), add, if old(Encrypting()) then old(input[io..io + length]) else output[oo..oo + length], t)
      ensures forall k :: 0 <= k < output.Length && !(oo <= k < oo + length) ==> output[k] == old(output[k])
    {
      hide Pow, CtrCrypt, WholeTag, WorkValue, Ctr, Used, Running;
      RunningOk();
      tag := [];
      ret := UpdateAd(add);
      if ret != Done {
        return;
      }
      TakingIs();
      ret := Update(input, io, length, output, oo, length);
      if ret != Done {
        return;
      }
      assert ad == add && inp == old(input[io..io + length]) && outp == output[oo..oo + length];
      OutputAndTag();
      TakingIs();
      ret, tag := Finish(t);
    }

    /** What the output is, and, once the whole message has been processed, what masking the working value gives. */
    lemma OutputAndTag()
      requires Running() && |ad| == addLen
      ensures OutputIs(e, nonce, inp, outp) && LengthsOk()
      ensures tagLen > 0 && |inp| == plaintextLen ==> TagIs(e, nonce, ad, Text(), tagLen, y)
    {
      hide Pow, ToByte, WorkValue, CtrCrypt, Used, Mac, BeBytes, Ctr, XorBlock;
      if tagLen > 0 && |inp| == plaintextLen {
        WorkDone(e, nonce, tagLen, ad, Text());
      }
    }

    /** ccm_auth_decrypt: compares the tag, and wipes the output if it is wrong. */
    method AuthDecrypt(m: Mode, length: nat, iv: seq<Byte>, add: seq<Byte>, input: array<Byte>, io: nat, output: array<Byte>, oo: nat, tag: seq<Byte>)
      returns (ret: CcmRet)
      requires Idle() && io + length <= input.Length && oo + length <= output.Length && (input != output || io == oo)
      requires m == Decrypt || m == StarDecrypt
      modifies this, output
      ensures ret == BadInput <==> !OneShotOk(m, length, |iv|, |add|, |tag|)
      ensures ret == Done || ret == AuthFailed || ret == BadInput
      ensures OneShotOk(m, length, |iv|, |add|, |tag|) ==>
                var p := CtrCrypt(e, iv, old(input[io..io + length]));
                (|tag| > 0 ==> (ret == Done <==> tag == Tag(e, iv, add, p, |tag|))) && (|tag| == 0 ==> ret == Done) &&
                (ret == Done ==> output[oo..oo + length] == p)
      ensures ret == AuthFailed ==> forall k :: oo <= k < oo + length ==> output[k] == 0
    {
      hide Pow, CtrCrypt, Tag;
      var checkTag;
      ret, checkTag := AuthCrypt(m, length, iv, add, input, io, output, oo, |tag|);
      if ret != Done {
        return;
      }
      if tag != checkTag {
        for k := oo to oo + length
          invariant forall j :: oo <= j < k ==> output[j] == 0
        {
          output[k] := 0;
        }
        ret := AuthFailed;
      }
    }
  }

  lemma Regroup(a: seq<Byte>, b: seq<Byte>, c: seq<Byte>)
    ensures a + b + c == a + (b + c)
  {}

  /** The counter block of the first message block. */
  method CounterBlock(iv: seq<Byte>, q: nat) returns (ctr: Block)
    requires 7 <= |iv| <= 13 && q == 15 - |iv|
    ensures ctr == Ctr(iv, 1)
  {
    hide ToByte, Ctr, BeBytes;
    ctr := ZERO;
    ctr := ctr[0 := ToByte(q - 1)];
    ctr := [ctr[0]] + iv + ctr[1 + |iv|..];
    ctr := ctr[..1 + |iv|] + Zeros(q);
    ctr := ctr[15 := 1];
    FirstCounter(ctr, iv, q);
  }

  /** The nonce in its place in the first block of the MAC. */
  method NonceBlock(y0: Block, iv: seq<Byte>) returns (y: Block)
    requires 7 <= |iv| <= 13 && y0 == ZERO
    ensures y == [0] + iv + Zeros(15 - |iv|)
  {
    y := [y0[0]] + iv + y0[1 + |iv|..];
  }

  lemma FirstCounter(ctr: Block, iv: seq<Byte>, q: nat)
    requires 7 <= |iv| <= 13 && q == 15 - |iv| && ctr == ([ToByte(q - 1)] + iv + Zeros(q))[15 := 1]
    ensures ctr == Ctr(iv, 1)
  {
    hide ToByte;
    ZeroBe(q - 1);
    OneBe(q);
  }

  lemma {:induction false} ZeroBe(q: nat)
    ensures BeBytes(0, q) == Zeros(q)
  {
    if q > 0 {
      ZeroBe(q - 1);
      BeLast(0, q);
      NonzeroByte(1);
    }
  }

  lemma OneBe(q: nat)
    requires q > 0
    ensures BeBytes(1, q) == Zeros(q - 1) + [1]
  {
    ZeroBe(q - 1);
    BeLast(1, q);
    assert ToByte(1) == 1;
  }

  lemma DataOkFacts(e: Block -> Block, nonce: seq<Byte>, t: nat, addLen: nat, ad: seq<Byte>, length: nat,
                    encrypting: bool, y: Block, ctr: Block, inp: seq<Byte>, outp: seq<Byte>)
    requires DataOk(e, nonce, t, addLen, ad, length, encrypting, y, ctr, inp, outp)
    ensures 7 <= |nonce| <= 13 && ctr == Ctr(nonce, 1 + Used(|inp|, length)) && |inp| == |outp|
  {}

  /** Resetting the counter bytes gives the tag's counter block. */
  lemma TagCounter(nonce: seq<Byte>, n: nat)
    requires 7 <= |nonce| <= 13
    ensures Ctr(nonce, n)[..1 + |nonce|] + Zeros(15 - |nonce|) == Ctr(nonce, 0)
  {
    hide ToByte, BeBytes;
    ZeroBe(15 - |nonce|);
  }

  lemma UsedStep(n: nat, p: nat, total: nat)
    requires n % 16 + p <= 16 && p > 0 && (n + p <= total || total == 0)
    ensures Used(n, total) == n / 16
    ensures Used(n + p, total) == if p + n % 16 == 16 || n + p == total then n / 16 + 1 else n / 16
  {
    var q, r := n / 16, n % 16;
    DivModUnique(n + p, 16, if r + p == 16 then q + 1 else q, if r + p == 16 then 0 else r + p);
  }

  /** The key stream of a piece comes from one counter block. */
  lemma CryptStep(e: Block -> Block, nonce: seq<Byte>, s: seq<Byte>, p: seq<Byte>)
    requires 7 <= |nonce| <= 13 && |s| % 16 + |p| <= 16
    ensures CtrCrypt(e, nonce, s + p) == CtrCrypt(e, nonce, s) + Xor(p, e(Ctr(nonce, 1 + |s| / 16))[|s| % 16..])
  {
    hide Ctr;
    var n, q, r := |s|, |s| / 16, |s| % 16;
    forall k | n <= k < n + |p|
      ensures KeyByte(e, nonce, k) == e(Ctr(nonce, 1 + q))[r..][k - n]
    {
      DivModUnique(k, 16, q, r + (k - n));
    }
  }

  lemma DataStep(e: Block -> Block, nonce: seq<Byte>, t: nat, addLen: nat, ad: seq<Byte>, length: nat, text: seq<Byte>, p: seq<Byte>)
    requires 7 <= |nonce| <= 13 && |ad| == addLen < 0xFF00 && |p| > 0 && |text| % 16 + |p| <= 16
    ensures 4 <= t <= 16 && |text| + |p| <= length ==>
            var w := XorAt(WorkValue(e, nonce, t, addLen, ad, length, text), |text| % 16, p);
            WorkValue(e, nonce, t, addLen, ad, length, text + p)
            == if |p| + |text| % 16 == 16 || |text| + |p| == length then e(w) else w
  {
    hide XorAt, B0, ToByte, Absorbed, Absorb;
    if 4 <= t <= 16 && |text| + |p| <= length {
      var y0 := e(B0(nonce, addLen > 0, t, length));
      var s := [ToByte(addLen / 256), ToByte(addLen % 256)] + ad;
      AbsorbedStep(e, if addLen == 0 then y0 else Absorb(e, y0, s), text, p, length);
    }
  }

  lemma UsedNone(total: nat)
    ensures Used(0, total) == 0
  {}

  lemma NothingYet(e: Block -> Block, nonce: seq<Byte>)
    requires 7 <= |nonce| <= 13
    ensures CtrCrypt(e, nonce, []) == []
  {}

  lemma StartValue(e: Block -> Block, nonce: seq<Byte>, t: nat, addLen: nat, length: nat)
    requires 7 <= |nonce| <= 13 && 4 <= t <= 16 && addLen < 0xFF00
    ensures WorkValue(e, nonce, t, addLen, [], length, []) == e(B0(nonce, addLen > 0, t, length))
  {
    hide Part, XorAt, B0, ToByte;
    XorAtNone2(e(B0(nonce, addLen > 0, t, length)), e);
  }

  /** Writes the message length into the last q bytes; reports whether it fits. */
  method LengthField(y0: Block, q: nat, length: nat) returns (y: Block, fits: bool)
    requires 0 < q <= 15
    ensures fits <==> length < Pow(256, q)
    ensures y == y0[..16 - q] + BeBytes(length, q)
  {
    hide Pow, BeBytes, ToByte;
    y := y0;
    var lenLeft := length;
    LengthStart(length);
    for i := 0 to q
      invariant Pow(256, i) > 0 && lenLeft == length / Pow(256, i)
      invariant y == y0[..16 - i] + BeBytes(length, i)
    {
      BePrepend(length, i);
      NextQuotient(length, i);
      ghost var before := y;
      y := y[15 - i := ToByte(lenLeft % 256)];
      lenLeft := lenLeft / 256;
      LengthStep(y0, before, i, ToByte((length / Pow(256, i)) % 256), BeBytes(length, i));
    }
    QuotientPositive(length, Pow(256, q));
    fits := !(lenLeft > 0);
  }

  lemma LengthStart(length: nat)
    ensures Pow(256, 0) == 1 && length / 1 == length && BeBytes(length, 0) == []
  {}

  lemma NextQuotient(n: nat, i: nat)
    ensures Pow(256, i) > 0 && Pow(256, i + 1) > 0 && n / Pow(256, i) >= 0 && (n / Pow(256, i)) / 256 == n / Pow(256, i + 1)
  {
    PowPos(256, i);
    PowPos(256, i + 1);
    QuotientPositive(n, Pow(256, i));
    DivDiv(n, Pow(256, i), 256);
  }

  lemma LengthStep(y0: Block, y: Block, i: nat, b: Byte, low: seq<Byte>)
    requires i < 16 && |low| == i && y == y0[..16 - i] + low
    ensures y[15 - i := b] == y0[..16 - (i + 1)] + ([b] + low)
  {}

  // ----- two contexts -----

  /** Both contexts have been given the same parameters and associated data, and all of it. */
  ghost predicate SameSetup(c1: CcmContext, c2: CcmContext)
    reads c1, c2
  {
    c1.Running() && c2.Running() && c1.e == c2.e && c1.nonce == c2.nonce && c1.tagLen == c2.tagLen && c1.plaintextLen == c2.plaintextLen &&
    c1.addLen == c2.addLen && c1.ad == c2.ad && |c1.ad| == c1.addLen
  }

  /** However associated data and message were cut into pieces, the output and the tag are the same. */
  lemma PiecesDoNotMatter(c1: CcmContext, c2: CcmContext)
    requires SameSetup(c1, c2) && c1.Encrypting() == c2.Encrypting() && c1.inp == c2.inp
    ensures c1.outp == c2.outp && c1.ctr == c2.ctr
    ensures c1.NonceOk() && c2.NonceOk() && c1.LengthsOk() && c2.LengthsOk()
    ensures c1.tagLen > 0 ==> c1.y == c2.y && c1.FullTag() == c2.FullTag()
  {
    hide Pow, CtrCrypt, WholeTag, WorkValue, Ctr, Used;
  }

  /** Decrypting what another context has output, in any pieces, gives back its input and the same tag. */
  lemma DecryptionRecovers(enc: CcmContext, dec: CcmContext)
    requires SameSetup(enc, dec) && enc.Encrypting() && !dec.Encrypting() && dec.inp == enc.outp
    ensures dec.outp == enc.inp
    ensures enc.NonceOk() && dec.NonceOk() && enc.LengthsOk() && dec.LengthsOk()
    ensures enc.tagLen > 0 ==> dec.FullTag() == enc.FullTag()
  {
    hide Pow, CtrCrypt, WholeTag, WorkValue, Ctr, Used;
    CtrTwice(enc.e, enc.nonce, enc.inp);
  }
}
