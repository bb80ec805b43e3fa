/** base64.c: encoding, and the two-pass decoder (RFC 4648, section 4). */
module Base64 {
  import opened Arith
  import opened Words

  type Octet = x: int | 0 <= x < 256

  /** The largest size_t. */
  const SIZE_MAX: nat

  datatype Base64Ret = Success | BufferTooSmall | InvalidCharacter | CorruptionDetected

  // ----- the digits -----

  /** mbedtls_ct_uchar_in_range_if. */
  function InRangeIf(lo: int, hi: int, c: int, t: int): nat
  {
    if lo <= c <= hi then t % 256 else 0
  }

  function EncChar(value: Octet): nat
  {
    BitOr(BitOr(BitOr(BitOr(BitOr(0,
      InRangeIf(0, 25, value, 'A' as int + value)),
      InRangeIf(26, 51, value, 'a' as int + value - 26)),
      InRangeIf(52, 61, value, '0' as int + value - 52)),
      InRangeIf(62, 62, value, '+' as int)),
      InRangeIf(63, 63, value, '/' as int))
  }

  function DecValue(c: Octet): int
  {
    BitOr(BitOr(BitOr(BitOr(BitOr(0,
      InRangeIf('A' as int, 'Z' as int, c, c - 'A' as int + 1)),
      InRangeIf('a' as int, 'z' as int, c, c - 'a' as int + 26 + 1)),
      InRangeIf('0' as int, '9' as int, c, c - '0' as int + 52 + 1)),
      InRangeIf('+' as int, '+' as int, c, c - '+' as int + 62 + 1)),
      InRangeIf('/' as int, '/' as int, c, c - '/' as int + 63 + 1)) - 1
  }

  /** At most one of five terms is not zero, so combining them is picking it. */
  lemma PickOne(a: nat, b: nat, c: nat, d: nat, e: nat)
    ensures b == c == d == e == 0 ==> BitOr(BitOr(BitOr(BitOr(BitOr(0, a), b), c), d), e) == a
    ensures a == c == d == e == 0 ==> BitOr(BitOr(BitOr(BitOr(BitOr(0, a), b), c), d), e) == b
    ensures a == b == d == e == 0 ==> BitOr(BitOr(BitOr(BitOr(BitOr(0, a), b), c), d), e) == c
    ensures a == b == c == e == 0 ==> BitOr(BitOr(BitOr(BitOr(BitOr(0, a), b), c), d), e) == d
    ensures a == b == c == d == 0 ==> BitOr(BitOr(BitOr(BitOr(BitOr(0, a), b), c), d), e) == e
  {
    hide BitOr;
    OrNothing(0); OrNothing(a); OrNothing(b); OrNothing(c); OrNothing(d); OrNothing(e);
  }

  lemma OrNothing(x: nat)
    ensures BitOr(0, x) == x && BitOr(x, 0) == x
  {
    OrZero(x);
    OrSwap(x, 0);
  }

  /** Table 1 of the standard. */
  function Alphabet(v: nat): nat
  {
    if v <= 25 then 'A' as int + v else if v <= 51 then 'a' as int + v - 26 else if v <= 61 then '0' as int + v - 52
    else if v == 62 then '+' as int else '/' as int
  }

  lemma EncCharIs(v: Octet)
    requires v < 64
    ensures EncChar(v) == Alphabet(v) < 128
  {
    hide BitOr;
    PickOne(InRangeIf(0, 25, v, 'A' as int + v), InRangeIf(26, 51, v, 'a' as int + v - 26),
            InRangeIf(52, 61, v, '0' as int + v - 52), InRangeIf(62, 62, v, '+' as int), InRangeIf(63, 63, v, '/' as int));
  }

  lemma DecValueIs(c: Octet)
    ensures DecValue(c) == if 65 <= c <= 90 then c - 65 else if 97 <= c <= 122 then c - 71 else if 48 <= c <= 57 then c + 4
                           else if c == 43 then 62 else if c == 47 then 63 else -1
  {
    hide BitOr;
    PickOne(InRangeIf('A' as int, 'Z' as int, c, c - 'A' as int + 1), InRangeIf('a' as int, 'z' as int, c, c - 'a' as int + 26 + 1),
            InRangeIf('0' as int, '9' as int, c, c - '0' as int + 52 + 1), InRangeIf('+' as int, '+' as int, c, c - '+' as int + 62 + 1),
            InRangeIf('/' as int, '/' as int, c, c - '/' as int + 63 + 1));
  }

  /** The two maps are inverse to each other on the 64 digits, and every other character is rejected. */
  lemma DigitsInverse(v: Octet, c: Octet)
    ensures v < 64 ==> EncChar(v) < 256 && DecValue(EncChar(v)) == v
    ensures DecValue(c) == -1 || (0 <= DecValue(c) < 64 && EncChar(DecValue(c)) == c)
  {
    hide EncChar, DecValue;
    DecValueIs(c);
    if v < 64 {
      EncCharIs(v);
      DecValueIs(EncChar(v));
    }
    if 0 <= DecValue(c) < 64 {
      EncCharIs(DecValue(c));
    }
  }

  // ----- encoding -----

  type Sextet = x: int | 0 <= x < 64

  const EQUALS: Octet := '=' as int

  function Digit(v: Sextet): (c: Octet)
  {
    Alphabet(v)
  }

  /** The standard's encoding: three octets give four digits; a shorter last group is padded with '='. */
  function Encoded(s: seq<Octet>): seq<Octet>
  {
    if |s| == 0 then []
    else if |s| == 1 then [Digit(s[0] / 4), Digit(s[0] % 4 * 16), EQUALS, EQUALS]
    else if |s| == 2 then [Digit(s[0] / 4), Digit(s[0] % 4 * 16 + s[1] / 16), Digit(s[1] % 16 * 4), EQUALS]
    else [Digit(s[0] / 4), Digit(s[0] % 4 * 16 + s[1] / 16), Digit(s[1] % 16 * 4 + s[2] / 64), Digit(s[2] % 64)] + Encoded(s[3..])
  }

  /** The number of groups of three octets, the last one possibly incomplete. */
  function Groups(n: nat): nat
  {
    n / 3 + if n % 3 != 0 then 1 else 0
  }

  lemma {:induction false} EncodedLength(s: seq<Octet>)
    ensures |Encoded(s)| == 4 * Groups(|s|)
  {
    hide Digit;
    if |s| >= 3 { EncodedLength(s[3..]); }
  }

  lemma {:induction false} EncodedSplit(s: seq<Octet>, t: seq<Octet>)
    requires |s| % 3 == 0
    ensures Encoded(s + t) == Encoded(s) + Encoded(t)
  {
    hide Digit;
    if |s| == 0 {
      assert s + t == t;
    } else {
      assert (s + t)[3..] == s[3..] + t;
      EncodedSplit(s[3..], t);
    }
  }

  /** The four characters of a whole group, as the code computes them. */
  method EncodeGroup(c1: Octet, c2: Octet, c3: Octet) returns (d0: Octet, d1: Octet, d2: Octet, d3: Octet)
    ensures [d0, d1, d2, d3] == Encoded([c1, c2, c3])
  {
    hide EncChar, Digit;
    assert [c1, c2, c3][3..] == [];
    Sextets(c1, c2, c3);
    d0 := EncChar((c1 / 4) % 64);
    d1 := EncChar((c1 % 4 * 16 + c2 / 16) % 64);
    d2 := EncChar((c2 % 16 * 4 + c3 / 64) % 64);
    d3 := EncChar(c3 % 64);
  }

  /** The masks with 0x3F change nothing, and the map picks the standard's digit. */
  lemma Sextets(c1: Octet, c2: Octet, c3: Octet)
    ensures 0 <= c1 / 4 < 64 && 0 <= c1 % 4 * 16 + c2 / 16 < 64 && 0 <= c2 % 16 * 4 + c3 / 64 < 64
    ensures EncChar((c1 / 4) % 64) == Digit(c1 / 4)
    ensures EncChar((c1 % 4 * 16 + c2 / 16) % 64) == Digit(c1 % 4 * 16 + c2 / 16)
    ensures EncChar((c2 % 16 * 4 + c3 / 64) % 64) == Digit(c2 % 16 * 4 + c3 / 64)
    ensures EncChar(c3 % 64) == Digit(c3 % 64)
  {
    hide EncChar;
    EncCharIs(c1 / 4);
    EncCharIs(c1 % 4 * 16 + c2 / 16);
    EncCharIs(c2 % 16 * 4 + c3 / 64);
    EncCharIs(c3 % 64);
  }

  /** mbedtls_base64_encode. The text is followed by a zero byte. */
  method Encode(dst: array?<Octet>, dlen: nat, src: seq<Octet>) returns (ret: Base64Ret, olen: nat)
    requires dst != null ==> dlen <= dst.Length
    modifies if dst == null then {} else {dst}
    ensures |src| == 0 ==> ret == Success && olen == 0
    ensures |src| > 0 && Groups(|src|) > (SIZE_MAX - 1) / 4 ==> ret == BufferTooSmall && olen == SIZE_MAX
    ensures |src| > 0 && Groups(|src|) <= (SIZE_MAX - 1) / 4 ==>
              ret == (if dst == null || dlen < 4 * Groups(|src|) + 1 then BufferTooSmall else Success) &&
              olen == 4 * Groups(|src|) + if ret == Success then 0 else 1
    ensures ret == Success && |src| > 0 ==> dst != null && olen < dst.Length && dst[..] == Encoded(src) + [0] + old(dst[olen + 1..])
    ensures dst != null && (ret != Success || |src| == 0) ==> dst[..] == old(dst[..])
  {
    hide Encoded, EncChar;
    if |src| == 0 {
      return Success, 0;
    }
    var n := |src| / 3 + if |src| % 3 != 0 then 1 else 0;
    if n > (SIZE_MAX - 1) / 4 {
      return BufferTooSmall, SIZE_MAX;
    }
    n := n * 4;
    if dlen < n + 1 || dst == null {
      return BufferTooSmall, n + 1;
    }
    EncodedLength(src);
    var p := EncodeAll(dst, src);
    olen := p;
    dst[p] := 0;
    assert dst[..] == dst[..p] + [0] + dst[p + 1..];
    assert dst[p + 1..] == old(dst[p..])[1..] == old(dst[p + 1..]);
    ret := Success;
  }

  /** The loop over whole groups and the last incomplete one. */
  method EncodeAll(dst: array<Octet>, src: seq<Octet>) returns (p: nat)
    requires |Encoded(src)| < dst.Length
    modifies dst
    ensures p == |Encoded(src)| && dst[..p] == Encoded(src) && dst[p..] == old(dst[p..])
  {
    hide Encoded, EncChar;
    EncodedLength(src);
    var n := (|src| / 3) * 3;
    ghost var was := dst[..];
    var i: nat := 0;
    p := 0;
    EncodedNone(src);
    while i < n
      invariant 0 <= i <= n && i % 3 == 0 && p == i / 3 * 4
      invariant dst[..p] == Encoded(src[..i]) && dst[p..] == was[p..]
    {
      NextGroup(src, i);
      EncodeWhole(dst, p, src[i], src[i + 1], src[i + 2]);
      i := i + 3;
      p := p + 4;
    }
    assert src[..|src|] == src;
    if i < |src| {
      LastGroup(src, i);
      EncodeLast(dst, p, src[i..]);
      p := p + 4;
    }
  }

  method EncodeWhole(dst: array<Octet>, p: nat, c1: Octet, c2: Octet, c3: Octet)
    requires p + 4 <= dst.Length
    modifies dst
    ensures dst[..p + 4] == old(dst[..p]) + Encoded([c1, c2, c3]) && dst[p + 4..] == old(dst[p..])[4..]
  {
    hide Encoded;
    var d0, d1, d2, d3 := EncodeGroup(c1, c2, c3);
    dst[p], dst[p + 1], dst[p + 2], dst[p + 3] := d0, d1, d2, d3;
    assert dst[..p + 4] == old(dst[..p]) + [d0, d1, d2, d3];
  }

  /** The last group when it has one or two octets. */
  method EncodeLast(dst: array<Octet>, p: nat, rest: seq<Octet>)
    requires p + 4 <= dst.Length && 0 < |rest| < 3
    modifies dst
    ensures dst[..p + 4] == old(dst[..p]) + Encoded(rest) && dst[p + 4..] == old(dst[p..])[4..]
  {
    hide Encoded;
    var d0, d1, d2, d3 := EncodeShort(rest);
    dst[p], dst[p + 1], dst[p + 2], dst[p + 3] := d0, d1, d2, d3;
    assert dst[..p + 4] == old(dst[..p]) + [d0, d1, d2, d3];
  }

  method EncodeShort(rest: seq<Octet>) returns (d0: Octet, d1: Octet, d2: Octet, d3: Octet)
    requires 0 < |rest| < 3
    ensures [d0, d1, d2, d3] == Encoded(rest)
  {
    hide EncChar, Digit;
    var c1, c2 := rest[0], if 1 < |rest| then rest[1] else 0;
    Sextets(c1, c2, 0);
    d0 := EncChar((c1 / 4) % 64);
    d1 := EncChar((c1 % 4 * 16 + c2 / 16) % 64);
    d2 := if 1 < |rest| then EncChar((c2 % 16 * 4) % 64) else EQUALS;
    d3 := EQUALS;
  }

  lemma EncodedNone(src: seq<Octet>)
    ensures Encoded(src[..0]) == []
  {}

  lemma NextGroup(src: seq<Octet>, i: nat)
    requires i + 3 <= |src| && i % 3 == 0
    ensures Encoded(src[..i + 3]) == Encoded(src[..i]) + Encoded([src[i], src[i + 1], src[i + 2]])
  {
    hide Encoded;
    assert src[..i + 3] == src[..i] + [src[i], src[i + 1], src[i + 2]];
    EncodedSplit(src[..i], [src[i], src[i + 1], src[i + 2]]);
  }

  lemma LastGroup(src: seq<Octet>, i: nat)
    requires i <= |src| && i % 3 == 0
    ensures Encoded(src) == Encoded(src[..i]) + Encoded(src[i..])
  {
    hide Encoded;
    assert src == src[..i] + src[i..];
    EncodedSplit(src[..i], src[i..]);
  }

  // ----- what a text means -----

  ghost predicate EolAt(t: seq<Octet>, i: nat)
  {
    i < |t| && (t[i] == '\n' as int || (t[i] == '\r' as int && i + 1 < |t| && t[i + 1] == '\n' as int))
  }

  /** A character the decoder admits where it stands: a space only before the end of its line or of the text. */
  ghost predicate CharOk(t: seq<Octet>, i: nat)
    requires i < |t|
  {
    DecValue(t[i]) >= 0 || t[i] == EQUALS || EolAt(t, i) ||
    (t[i] == ' ' as int && (i + 1 == |t| || t[i + 1] == ' ' as int || EolAt(t, i + 1)))
  }

  /** The values of the digits in a text. */
  function Digits(t: seq<Octet>): seq<Sextet>
  {
    if |t| == 0 then []
    else Digits(t[..|t| - 1]) + DigitOf(t[|t| - 1])
  }

  function DigitOf(c: Octet): (r: seq<Sextet>)
  {
    DigitsInverse(0, c);
    if DecValue(c) >= 0 then [DecValue(c)] else []
  }

  function Equals(t: seq<Octet>): nat
  {
    if |t| == 0 then 0 else Equals(t[..|t| - 1]) + if t[|t| - 1] == EQUALS then 1 else 0
  }

  ghost predicate PadLast(t: seq<Octet>)
  {
    forall i, j :: 0 <= i < j < |t| && t[i] == EQUALS ==> DecValue(t[j]) < 0
  }

  /** A well-formed text: admissible characters, whole groups of four, at most two '=' and no digit after one. */
  ghost predicate ValidText(t: seq<Octet>)
  {
    (forall i :: 0 <= i < |t| ==> CharOk(t, i)) && PadLast(t) && Equals(t) <= 2 && (|Digits(t)| + Equals(t)) % 4 == 0
  }

  /** The octets a sequence of digits stands for. */
  function DecodeDigits(d: seq<Sextet>): seq<Octet>
  {
    if |d| <= 1 then []
    else
      var first: Octet := (d[0] as int) * 4 + d[1] / 16;
      if |d| == 2 then [first]
      else
        var second: Octet := (d[1] as int) % 16 * 16 + d[2] / 4;
        if |d| == 3 then [first, second]
        else
          var third: Octet := (d[2] as int) % 4 * 64 + d[3];
          [first, second, third] + DecodeDigits(d[4..])
  }

  /** The digits written out and padded to a whole group. */
  function TextOf(d: seq<Sextet>): seq<Octet>
  {
    if |d| <= 1 then []
    else if |d| == 2 then [Digit(d[0]), Digit(d[1]), EQUALS, EQUALS]
    else if |d| == 3 then [Digit(d[0]), Digit(d[1]), Digit(d[2]), EQUALS]
    else [Digit(d[0]), Digit(d[1]), Digit(d[2]), Digit(d[3])] + TextOf(d[4..])
  }

  ghost predicate Canonical(d: seq<Sextet>)
  {
    (|d| % 4 == 2 ==> d[|d| - 1] % 16 == 0) && (|d| % 4 == 3 ==> d[|d| - 1] % 4 == 0)
  }

  /** Encoding what digits stand for gives them back exactly when the unused bits of the last one are zero. */
  lemma {:induction false} EncodingUndoesDecodingIff(d: seq<Sextet>)
    requires |d| % 4 != 1
    ensures Encoded(DecodeDigits(d)) == TextOf(d) <==> Canonical(d)
  {
    hide Digit, DecodeDigits, Encoded, Canonical;
    if |d| == 2 {
      TwoDigitsIff(d);
    } else if |d| == 3 {
      ThreeDigitsIff(d);
    } else if |d| >= 4 {
      EncodingUndoesDecodingIff(d[4..]);
      DecodeWhole(d);
      CanonicalTail(d);
      TextTail(d);
      var g := TextOf(d)[..4];
      SameTail(g, Encoded(DecodeDigits(d[4..])), TextOf(d[4..]));
    } else {
      NoDigitsIff(d);
    }
  }

  lemma NoDigitsIff(d: seq<Sextet>)
    requires |d| == 0
    ensures Encoded(DecodeDigits(d)) == TextOf(d) && Canonical(d)
  {}

  /** Only the last digit matters. */
  lemma CanonicalTail(d: seq<Sextet>)
    requires |d| >= 4
    ensures Canonical(d) == Canonical(d[4..])
  {
    var e := d[4..];
    assert |e| % 4 == |d| % 4 by { DivModUnique(|d|, 4, |e| / 4 + 1, |e| % 4); }
    if |d| > 4 { assert e[|e| - 1] == d[|d| - 1]; }
  }

  lemma TextTail(d: seq<Sextet>)
    requires |d| >= 4
    ensures TextOf(d) == TextOf(d)[..4] + TextOf(d[4..])
  {
    hide Digit;
    var g := [Digit(d[0]), Digit(d[1]), Digit(d[2]), Digit(d[3])];
    assert TextOf(d) == g + TextOf(d[4..]);
    assert TextOf(d)[..4] == g;
  }

  lemma TwoDigitsIff(d: seq<Sextet>)
    requires |d| == 2
    ensures Encoded(DecodeDigits(d)) == TextOf(d) <==> Canonical(d)
  {
    hide Digit;
    DigitInjective(d[1], d[1] / 16 * 16);
  }

  lemma ThreeDigitsIff(d: seq<Sextet>)
    requires |d| == 3
    ensures Encoded(DecodeDigits(d)) == TextOf(d) <==> Canonical(d)
  {
    hide Digit;
    Regroup(d[0], d[1], d[2], 0, DecodeDigits(d)[0], DecodeDigits(d)[1], (d[2] as int) % 4 * 64);
    DigitInjective(d[2], d[2] / 4 * 4);
  }

  lemma SameTail(g: seq<Octet>, a: seq<Octet>, b: seq<Octet>)
    ensures g + a == g + b <==> a == b
  {
    assert (g + a)[|g|..] == a && (g + b)[|g|..] == b;
  }

  lemma DecodeWhole(d: seq<Sextet>)
    requires |d| >= 4
    ensures Encoded(DecodeDigits(d)) == TextOf(d)[..4] + Encoded(DecodeDigits(d[4..]))
  {
    hide Digit, Encoded, TextOf, DecodeDigits;
    var s := DecodeDigits(d);
    DecodeFour(d);
    Regroup(d[0], d[1], d[2], d[3], s[0], s[1], s[2]);
    EncodedFour(s);
    TextFour(d);
  }

  lemma DecodeFour(d: seq<Sextet>)
    requires |d| >= 4
    ensures var s := DecodeDigits(d);
            |s| >= 3 && s[3..] == DecodeDigits(d[4..]) && s[0] == (d[0] as int) * 4 + d[1] / 16 &&
            s[1] == (d[1] as int) % 16 * 16 + d[2] / 4 && s[2] == (d[2] as int) % 4 * 64 + d[3]
  {}

  lemma EncodedFour(s: seq<Octet>)
    requires |s| >= 3
    ensures Encoded(s) == [Digit(s[0] / 4), Digit(s[0] % 4 * 16 + s[1] / 16), Digit(s[1] % 16 * 4 + s[2] / 64), Digit(s[2] % 64)]
                          + Encoded(s[3..])
  {
    hide Digit;
  }

  lemma TextFour(d: seq<Sextet>)
    requires |d| >= 4
    ensures TextOf(d)[..4] == [Digit(d[0]), Digit(d[1]), Digit(d[2]), Digit(d[3])] && |TextOf(d)| >= 4
  {
    hide Digit;
  }

  /** Cutting 24 bits into octets and back into sextets. */
  lemma Regroup(a: int, b: int, c: int, d: int, x: int, y: int, z: int)
    requires 0 <= a < 64 && 0 <= b < 64 && 0 <= c < 64 && 0 <= d < 64
    requires x == a * 4 + b / 16 && y == b % 16 * 16 + c / 4 && z == c % 4 * 64 + d
    ensures x / 4 == a && x % 4 * 16 + y / 16 == b && y % 16 * 4 + z / 64 == c && z % 64 == d
  {
    var bh, bl, ch, cl := b / 16, b % 16, c / 4, c % 4;
    assert x / 4 == a && x % 4 == bh;
    assert y / 16 == bl && y % 16 == ch;
    assert z / 64 == cl && z % 64 == d;
  }

  lemma DigitInjective(u: Sextet, v: Sextet)
    ensures Digit(u) == Digit(v) ==> u == v
    ensures Digit(u) != EQUALS
  {}

  // ----- splitting a text -----

  lemma {:induction false} DigitsSplit(s: seq<Octet>, t: seq<Octet>)
    ensures Digits(s + t) == Digits(s) + Digits(t) && Equals(s + t) == Equals(s) + Equals(t)
  {
    hide DigitOf;
    if |t| == 0 {
      assert s + t == s;
    } else {
      assert (s + t)[..|s + t| - 1] == s + t[..|t| - 1];
      DigitsSplit(s, t[..|t| - 1]);
    }
  }

  lemma DigitsNext(t: seq<Octet>, i: nat)
    requires i < |t|
    ensures Digits(t[..i + 1]) == Digits(t[..i]) + DigitOf(t[i])
    ensures Equals(t[..i + 1]) == Equals(t[..i]) + if t[i] == EQUALS then 1 else 0
  {
    hide DigitOf;
    assert t[..i + 1][..i] == t[..i];
  }

  lemma {:induction false} EqualsSeen(t: seq<Octet>)
    ensures Equals(t) > 0 <==> exists k :: 0 <= k < |t| && t[k] == EQUALS
  {
    if |t| > 0 {
      var u := t[..|t| - 1];
      EqualsSeen(u);
      if t[|t| - 1] != EQUALS {
        if k :| 0 <= k < |t| && t[k] == EQUALS { assert u[k] == EQUALS; }
        if k :| 0 <= k < |u| && u[k] == EQUALS { assert t[k] == EQUALS; }
      }
    }
  }

  lemma EqualsMono(t: seq<Octet>, i: nat)
    requires i <= |t|
    ensures Equals(t[..i]) <= Equals(t)
  {
    assert t == t[..i] + t[i..];
    DigitsSplit(t[..i], t[i..]);
  }

  /** No digit follows, so the digits before the first '=' are all of them. */
  lemma {:induction false} NoMoreDigits(t: seq<Octet>, i: nat)
    requires i <= |t| && forall j :: i <= j < |t| ==> DecValue(t[j]) < 0
    ensures Digits(t[..i]) == Digits(t)
    decreases |t| - i
  {
    hide DecValue;
    if i == |t| {
      assert t[..i] == t;
    } else {
      DigitsNext(t, i);
      NoMoreDigits(t, i + 1);
    }
  }

  // ----- encoding then decoding -----

  lemma DigitIs(v: Sextet)
    ensures DigitOf(Digit(v)) == [v] && DecValue(Digit(v)) == v && Digit(v) != EQUALS
    ensures DigitOf(EQUALS) == [] && DecValue(EQUALS) < 0
  {
    hide EncChar, DecValue;
    EncCharIs(v);
    DigitsInverse(v, Digit(v));
    DecValueIs(EQUALS);
  }

  lemma FourDigits(a: Octet, b: Octet, c: Octet, d: Octet)
    ensures Digits([a, b, c, d]) == DigitOf(a) + DigitOf(b) + DigitOf(c) + DigitOf(d)
    ensures Equals([a, b, c, d]) == (if a == EQUALS then 1 else 0) + (if b == EQUALS then 1 else 0) +
                                    (if c == EQUALS then 1 else 0) + if d == EQUALS then 1 else 0
  {
    hide DigitOf, DecValue;
    var t := [a, b, c, d];
    assert t[..4] == t && t[..0] == [];
    DigitsNext(t, 0);
    DigitsNext(t, 1);
    DigitsNext(t, 2);
    DigitsNext(t, 3);
  }

  // ----- the groups as numbers -----

  /** What a character of a text adds: '=' stands for nothing. */
  function DigitNumber(c: Octet): int
  {
    if c == EQUALS then 0 else DecValue(c)
  }

  function GroupNumber(a: Octet, b: Octet, c: Octet, d: Octet): int
  {
    262144 * DigitNumber(a) + 4096 * DigitNumber(b) + 64 * DigitNumber(c) + DigitNumber(d)
  }

  function OctetOr0(s: seq<Octet>, i: nat): Octet
  {
    if i < |s| then s[i] else 0
  }

  /** Each group of four characters is the 24-bit number of its three octets, most significant first; missing octets
      count as zero, and there is one '=' for each of them. */
  lemma {:induction false} EncodedGroup(s: seq<Octet>, k: nat)
    requires 3 * k < |s|
    ensures var t := Encoded(s);
            4 * k + 4 <= |t| &&
            GroupNumber(t[4 * k], t[4 * k + 1], t[4 * k + 2], t[4 * k + 3])
            == 65536 * s[3 * k] + 256 * OctetOr0(s, 3 * k + 1) + OctetOr0(s, 3 * k + 2) &&
            t[4 * k] != EQUALS && t[4 * k + 1] != EQUALS &&
            (t[4 * k + 2] == EQUALS <==> |s| == 3 * k + 1) && (t[4 * k + 3] == EQUALS <==> |s| <= 3 * k + 2)
    decreases k
  {
    hide Digit, DecValue;
    if k == 0 {
      FirstGroup(s);
    } else {
      EncodedGroup(s[3..], k - 1);
      GroupsAfter(s, k, 0);
      GroupsAfter(s, k, 1);
      GroupsAfter(s, k, 2);
      GroupsAfter(s, k, 3);
    }
  }

  lemma GroupsAfter(s: seq<Octet>, k: nat, i: nat)
    requires 0 < k && 3 * k < |s| && 4 * k <= |Encoded(s[3..])| && i < 4
    ensures |Encoded(s)| == 4 + |Encoded(s[3..])| && Encoded(s)[4 * k + i] == Encoded(s[3..])[4 * (k - 1) + i]
  {
    hide Digit;
  }

  lemma FirstGroup(s: seq<Octet>)
    requires |s| > 0
    ensures var t := Encoded(s);
            4 <= |t| && GroupNumber(t[0], t[1], t[2], t[3]) == 65536 * s[0] + 256 * OctetOr0(s, 1) + OctetOr0(s, 2) &&
            t[0] != EQUALS && t[1] != EQUALS && (t[2] == EQUALS <==> |s| == 1) && (t[3] == EQUALS <==> |s| <= 2)
  {
    hide Digit, DecValue;
    var a, b, c := s[0], OctetOr0(s, 1), OctetOr0(s, 2);
    Parts(a, b, c);
    DigitBack(a / 4);
    DigitBack(a % 4 * 16 + b / 16);
    DigitBack(b % 16 * 4 + c / 64);
    DigitBack(c % 64);
  }

  lemma Parts(a: Octet, b: Octet, c: Octet)
    ensures 0 <= a / 4 < 64 && 0 <= a % 4 * 16 + b / 16 < 64 && 0 <= b % 16 * 4 + c / 64 < 64
    ensures 262144 * (a / 4) + 4096 * (a % 4 * 16 + b / 16) + 64 * (b % 16 * 4 + c / 64) + c % 64 == 65536 * a + 256 * b + c
  {}

  lemma DigitBack(v: Sextet)
    ensures Digit(v) != EQUALS && DigitNumber(Digit(v)) == v
  {
    DecValueIs(Digit(v));
  }

  function SextetOr0(d: seq<Sextet>, i: nat): Sextet
  {
    if i < |d| then d[i] else 0
  }

  /** The octets of a group of digits are those of the 24-bit number of the digits; a short group gives the octets it
      fills. */
  lemma {:induction false} DecodedGroup(d: seq<Sextet>, k: nat)
    requires 4 * k + 1 < |d|
    ensures var o := DecodeDigits(d);
            var x := DigitsNumber(d[4 * k], d[4 * k + 1], SextetOr0(d, 4 * k + 2), SextetOr0(d, 4 * k + 3));
            3 * k < |o| && o[3 * k] == Byte2(x) &&
            (3 * k + 1 < |o| <==> 4 * k + 2 < |d|) && (3 * k + 2 < |o| <==> 4 * k + 3 < |d|) &&
            (3 * k + 1 < |o| ==> o[3 * k + 1] == Byte1(x)) && (3 * k + 2 < |o| ==> o[3 * k + 2] == Byte0(x))
    decreases k
  {
    hide DigitsNumber, Byte2, Byte1, Byte0, DecodeDigits;
    if k == 0 {
      FirstOctets(d);
    } else {
      DecodedGroup(d[4..], k - 1);
      OctetsAfter(d);
    }
  }

  lemma FirstOctets(d: seq<Sextet>)
    requires 1 < |d|
    ensures var o, x := DecodeDigits(d), DigitsNumber(d[0], d[1], SextetOr0(d, 2), SextetOr0(d, 3));
            0 < |o| && o[0] == Byte2(x) && (1 < |o| <==> 2 < |d|) && (2 < |o| <==> 3 < |d|) &&
            (1 < |o| ==> o[1] == Byte1(x)) && (2 < |o| ==> o[2] == Byte0(x))
  {
    hide DigitsNumber, Byte2, Byte1, Byte0;
    DigitParts(d[0], d[1], SextetOr0(d, 2), SextetOr0(d, 3));
  }

  function DigitsNumber(a: Sextet, b: Sextet, c: Sextet, d: Sextet): nat
  {
    262144 * a + 4096 * b + 64 * c + d
  }

  lemma OctetsAfter(d: seq<Sextet>)
    requires |d| > 4
    ensures var o, r := DecodeDigits(d), DecodeDigits(d[4..]);
            |o| == 3 + |r| && forall i :: 0 <= i < |r| ==> o[3 + i] == r[i]
  {}

  lemma DigitParts(a: Sextet, b: Sextet, c: Sextet, d: Sextet)
    ensures var x := DigitsNumber(a, b, c, d);
            Byte2(x) == (a as int) * 4 + b / 16 && Byte1(x) == (b as int) % 16 * 16 + c / 4 && Byte0(x) == (c as int) % 4 * 64 + d
  {
    var x, bl, cl: int := DigitsNumber(a, b, c, d), (b as int) % 16, (c as int) % 4;
    var u, v, w: int := (a as int) * 4 + b / 16, bl * 16 + c / 4, cl * 64 + d;
    Recombine(a, b, c, d, x, u, v, w);
    DivModUnique(x, 65536, u, 256 * v + w);
    DivModUnique(x, 256, 256 * u + v, w);
    DivModUnique(256 * u + v, 256, u, v);
    SmallMod(u, 256);
  }

  lemma Recombine(a: int, b: int, c: int, d: int, x: int, u: int, v: int, w: int)
    requires 0 <= a < 64 && 0 <= b < 64 && 0 <= c < 64 && 0 <= d < 64 && x == 262144 * a + 4096 * b + 64 * c + d
    requires u == a * 4 + b / 16 && v == b % 16 * 16 + c / 4 && w == c % 4 * 64 + d
    ensures x == u * 65536 + (256 * v + w) && x == (256 * u + v) * 256 + w
    ensures 0 <= u < 256 && 0 <= v < 256 && 0 <= w < 256
  {}

  // ----- the round trip -----

  /** The four digits of a whole group. */
  lemma WholeGroup(a: Octet, b: Octet, c: Octet)
    ensures var d := Digits(Encoded([a, b, c])); |d| == 4 && DecodeDigits(d) == [a, b, c]
    ensures Equals(Encoded([a, b, c])) == 0 && |Encoded([a, b, c])| == 4
    ensures forall i :: 0 <= i < 4 ==> DecValue(Encoded([a, b, c])[i]) >= 0 && Encoded([a, b, c])[i] != EQUALS
  {
    hide Digits, DecValue, Equals, DigitOf, Digit;
    assert [a, b, c][3..] == [];
    var v0, v1, v2, v3 := a / 4, a % 4 * 16 + b / 16, b % 16 * 4 + c / 64, c % 64;
    DigitIs(v0); DigitIs(v1); DigitIs(v2); DigitIs(v3);
    FourDigits(Digit(v0), Digit(v1), Digit(v2), Digit(v3));
    assert Encoded([a, b, c]) == [Digit(v0), Digit(v1), Digit(v2), Digit(v3)];
    assert [v0, v1, v2, v3][4..] == [];
  }

  /** The digits of a shorter last group. */
  lemma ShortGroup(s: seq<Octet>)
    requires 0 < |s| < 3
    ensures var e := Encoded(s); |e| == 4 && DecodeDigits(Digits(e)) == s && |Digits(e)| + Equals(e) == 4 && Equals(e) <= 2
    ensures PadLast(Encoded(s))
    ensures forall i :: 0 <= i < 4 ==> DecValue(Encoded(s)[i]) >= 0 || Encoded(s)[i] == EQUALS
  {
    hide Digits, DecValue, Equals, DigitOf, Digit;
    var b := if |s| == 1 then 0 else s[1];
    var v0, v1, v2: Sextet := s[0] / 4, s[0] % 4 * 16 + b / 16, b % 16 * 4;
    DigitIs(v0); DigitIs(v1); DigitIs(v2);
    FourDigits(Digit(v0), Digit(v1), if |s| == 1 then EQUALS else Digit(v2), EQUALS);
    assert Encoded(s) == [Digit(v0), Digit(v1), if |s| == 1 then EQUALS else Digit(v2), EQUALS];
  }

  /** Decoding undoes encoding, for every input, and the encoder's text is one the decoder accepts. */
  lemma {:induction false} DecodeEncoded(s: seq<Octet>)
    ensures DecodeDigits(Digits(Encoded(s))) == s && ValidText(Encoded(s))
    ensures |Digits(Encoded(s))| + Equals(Encoded(s)) == |Encoded(s)|
  {
    hide Digit, DecValue, DigitOf;
    if |s| >= 3 {
      var g, rest := Encoded([s[0], s[1], s[2]]), Encoded(s[3..]);
      NextGroup(s[..3], 0);
      assert s == s[..3] + s[3..] && s[..3] == [s[0], s[1], s[2]];
      EncodedSplit(s[..3], s[3..]);
      WholeGroup(s[0], s[1], s[2]);
      DecodeEncoded(s[3..]);
      DecodeJoin(g, rest);
      ValidJoin(g, rest);
    } else if |s| > 0 {
      ShortGroup(s);
      EncodedLength(s);
    }
  }

  lemma DecodeJoin(g: seq<Octet>, rest: seq<Octet>)
    requires |Digits(g)| == 4
    ensures DecodeDigits(Digits(g + rest)) == DecodeDigits(Digits(g)) + DecodeDigits(Digits(rest))
    ensures |Digits(g + rest)| == 4 + |Digits(rest)| && Equals(g + rest) == Equals(g) + Equals(rest)
  {
    hide Digits, Equals;
    DigitsSplit(g, rest);
    var d, e := Digits(g), Digits(rest);
    assert (d + e)[4..] == e && d[4..] == [];
  }

  lemma ValidJoin(g: seq<Octet>, rest: seq<Octet>)
    requires |g| == 4 == |Digits(g)| && Equals(g) == 0 && ValidText(rest)
    requires forall i :: 0 <= i < 4 ==> DecValue(g[i]) >= 0 && g[i] != EQUALS
    ensures ValidText(g + rest)
  {
    hide Digits, Equals, DecValue;
    DigitsSplit(g, rest);
    var t := g + rest;
    forall i, j | 0 <= i < j < |t| && t[i] == EQUALS
      ensures DecValue(t[j]) < 0
    {
      assert t[i] == rest[i - 4] && t[j] == rest[j - 4];
    }
    forall i | 0 <= i < |t|
      ensures CharOk(t, i)
    {
      if i >= 4 { assert CharOk(rest, i - 4); }
    }
  }

  // ----- the first pass -----

  lemma NotValid(t: seq<Octet>, i: nat)
    requires i < |t| && (!CharOk(t, i) || Equals(t[..i]) > 2)
    ensures !ValidText(t)
  {
    EqualsMono(t, i);
  }

  /** What the characters read so far have established. */
  ghost predicate Scanned(t: seq<Octet>, i: nat, n: nat, equals: nat)
    requires i <= |t|
  {
    (forall k :: 0 <= k < i ==> CharOk(t, k)) && PadLast(t[..i]) &&
    equals == Equals(t[..i]) <= 2 && n == |Digits(t[..i])| + equals
  }

  lemma ScannedSkip(t: seq<Octet>, i: nat, n: nat, equals: nat)
    requires i < |t| && Scanned(t, i, n, equals) && CharOk(t, i) && DecValue(t[i]) < 0 && t[i] != EQUALS
    ensures Scanned(t, i + 1, n, equals)
  {
    hide DecValue;
    DigitsNext(t, i);
    assert forall k :: 0 <= k < i ==> t[..i][k] == t[..i + 1][k];
  }

  lemma ScannedTake(t: seq<Octet>, i: nat, n: nat, equals: nat)
    requires i < |t| && Scanned(t, i, n, equals) && ((DecValue(t[i]) >= 0 && equals == 0) || (t[i] == EQUALS && equals < 2))
    ensures Scanned(t, i + 1, n + 1, equals + if t[i] == EQUALS then 1 else 0)
  {
    hide DecValue;
    DigitIs(0);
    DigitsNext(t, i);
    assert forall k :: 0 <= k < i ==> t[..i][k] == t[..i + 1][k];
    EqualsSeen(t[..i]);
  }

  lemma WhiteSpace(c: Octet)
    ensures c == ' ' as int || c == '\r' as int || c == '\n' as int || c > 127 || c == EQUALS ==> DecValue(c) < 0
    ensures DecValue(c) < 0 ==> DigitOf(c) == []
    ensures DecValue(c) >= 0 ==> DecValue(c) < 64 && DigitOf(c) == [DecValue(c)]
  {
    hide DecValue;
    DecValueIs(c);
    DigitsInverse(0, c);
  }

  /** The spaces skipped before looking for the end of the line. */
  method SkipSpaces(src: seq<Octet>, i0: nat) returns (i: nat, spaces_present: bool)
    requires i0 < |src|
    ensures i0 <= i <= |src| && spaces_present == (i0 < i)
    ensures forall k :: i0 <= k < i ==> src[k] == ' ' as int
    ensures i < |src| ==> src[i] != ' ' as int
  {
    i := i0;
    spaces_present := false;
    while i < |src| && src[i] == ' ' as int
      invariant i0 <= i <= |src| && spaces_present == (i0 < i)
      invariant forall k :: i0 <= k < i ==> src[k] == ' ' as int
    {
      i := i + 1;
      spaces_present := true;
    }
  }

  /** Spaces in front of an end of line or of the text are admitted. */
  lemma {:induction false} ScannedSpaces(t: seq<Octet>, i0: nat, i: nat, n: nat, equals: nat)
    requires i0 <= i <= |t| && Scanned(t, i0, n, equals)
    requires forall k :: i0 <= k < i ==> t[k] == ' ' as int
    requires i < |t| ==> EolAt(t, i) || i == i0
    ensures Scanned(t, i, n, equals)
    decreases i - i0
  {
    hide DecValue, Digits, Equals;
    if i0 < i {
      WhiteSpace(t[i0]);
      assert CharOk(t, i0);
      ScannedSkip(t, i0, n, equals);
      ScannedSpaces(t, i0 + 1, i, n, equals);
    }
  }

  /** The first pass accepts exactly the well-formed texts, and counts their digits and '='. */
  method FirstPass(src: seq<Octet>) returns (ok: bool, n: nat, equals: nat)
    ensures ok == ValidText(src)
    ensures ok ==> equals == Equals(src) && n == |Digits(src)| + equals
  {
    hide Digits, DecValue, Equals;
    var i: nat := 0;
    n, equals := 0, 0;
    ScannedNone(src);
    while i < |src|
      invariant i <= |src| && Scanned(src, i, n, equals)
    {
      var next, good, counted := FirstStep(src, i, n, equals);
      if !good { return false, n, equals; }
      i, n, equals := next, counted.0, counted.1;
    }
    assert src[..i] == src;
    ok := (n - equals) % 4 != 1 && n % 4 == 0;
  }

  lemma ScannedNone(src: seq<Octet>)
    ensures Scanned(src, 0, 0, 0)
  {}

  /** One round of the first loop: spaces, then one character (or the end). */
  method FirstStep(src: seq<Octet>, i0: nat, n: nat, equals: nat) returns (i: nat, good: bool, counted: (nat, nat))
    requires i0 < |src| && Scanned(src, i0, n, equals)
    ensures !good ==> !ValidText(src)
    ensures good ==> i0 < i <= |src| && Scanned(src, i, counted.0, counted.1)
  {
    hide Digits, DecValue, Equals, ValidText, Scanned;
    var spaces_present;
    i, spaces_present := SkipSpaces(src, i0);
    counted := (n, equals);
    good := true;
    if i == |src| {
      ScannedSpaces(src, i0, i, n, equals);
      return;
    }
    WhiteSpace(src[i]);
    if |src| - i >= 2 && src[i] == '\r' as int && src[i + 1] == '\n' as int {
      ScannedSpaces(src, i0, i, n, equals);
      ScannedSkip(src, i, n, equals);
      i := i + 1;
      return;
    }
    if src[i] == '\n' as int {
      ScannedSpaces(src, i0, i, n, equals);
      ScannedSkip(src, i, n, equals);
      i := i + 1;
      return;
    }
    if spaces_present {
      WhiteSpace(src[i - 1]);
      assert !CharOk(src, i - 1);
      NotValid(src, i - 1);
      good := false;
      return;
    }
    good, counted := Classify(src, i, n, equals);
    i := i + 1;
  }

  /** A character that is neither a space nor the start of an end of line. */
  method Classify(src: seq<Octet>, i: nat, n: nat, equals: nat) returns (good: bool, counted: (nat, nat))
    requires i < |src| && Scanned(src, i, n, equals) && src[i] != ' ' as int && !EolAt(src, i)
    ensures !good ==> !ValidText(src)
    ensures good ==> Scanned(src, i + 1, counted.0, counted.1)
  {
    hide Digits, DecValue, Equals, ValidText;
    WhiteSpace(src[i]);
    counted := (n + 1, equals);
    if src[i] > 127 {
      NotValid(src, i);
      return false, counted;
    }
    if src[i] == EQUALS {
      counted := (n + 1, equals + 1);
      if equals + 1 > 2 {
        ThirdEquals(src, i);
        return false, counted;
      }
    } else {
      if equals != 0 {
        DigitAfterEquals(src, i);
        return false, counted;
      }
      if DecValue(src[i]) < 0 {
        NotValid(src, i);
        return false, counted;
      }
    }
    ScannedTake(src, i, n, equals);
    good := true;
  }

  lemma ThirdEquals(t: seq<Octet>, i: nat)
    requires i < |t| && t[i] == EQUALS && Equals(t[..i]) >= 2
    ensures !ValidText(t)
  {
    hide Digits, DecValue, Equals;
    DigitsNext(t, i);
    EqualsMono(t, i + 1);
  }

  lemma DigitAfterEquals(t: seq<Octet>, i: nat)
    requires i < |t| && Equals(t[..i]) > 0 && t[i] != ' ' as int && t[i] != EQUALS && !EolAt(t, i)
    ensures !ValidText(t)
  {
    hide Digits, DecValue, Equals;
    EqualsSeen(t[..i]);
    var k :| 0 <= k < i && t[..i][k] == EQUALS;
    assert t[k] == EQUALS;
    if DecValue(t[i]) < 0 { assert !CharOk(t, i); }
  }

  // ----- the second pass -----

  /** The number written by at most three digits, or a whole group of them. */
  function Num(d: seq<Sextet>): nat
  {
    if |d| == 0 then 0 else 64 * Num(d[..|d| - 1]) + d[|d| - 1]
  }

  function Scale(acc: nat): nat
  {
    if acc == 0 then 1 else if acc == 1 then 64 else if acc == 2 then 4096 else if acc == 3 then 262144 else 16777216
  }

  const U32: nat := 0x1_0000_0000

  /** The accumulator keeps the digits of the current group in its low bits; older digits stay above them. */
  lemma AccStep(x: nat, acc: nat, m: nat, v: nat)
    requires acc < 4 && x % Scale(acc) == m && v < 64
    ensures BitOr(x * 64 % U32, v) == x * 64 % U32 + v < U32
    ensures (x * 64 % U32 + v) % Scale(acc + 1) == 64 * m + v
  {
    hide BitOr, Scale;
    ShiftOr(x, v);
    var t := ScaleRest(acc);
    ScaleStep(x, Scale(acc), t, m, v);
  }

  /** What is left of 32 bits above the digits of the group and the next one. */
  lemma ScaleRest(acc: nat) returns (t: nat)
    requires acc < 4
    ensures Scale(acc) > 0 && t * (64 * Scale(acc)) == U32 && Scale(acc + 1) == 64 * Scale(acc)
  {
    t := if acc == 0 then 67108864 else if acc == 1 then 1048576 else if acc == 2 then 16384 else 256;
  }

  lemma ShiftOr(x: nat, v: nat)
    requires v < 64
    ensures BitOr(x * 64 % U32, v) == x * 64 % U32 + v < U32
  {
    hide BitOr;
    var h := x % 67108864;
    DivModUnique(x * 64, U32, x / 67108864, h * 64);
    SixtyFour();
    OrDisjoint(h, v, 6);
  }

  lemma SixtyFour()
    ensures Pow(2, 6) == 64
  {
    assert Pow(2, 1) == 2 && Pow(2, 2) == 4 && Pow(2, 3) == 8 && Pow(2, 4) == 16 && Pow(2, 5) == 32;
  }

  lemma ScaleStep(x: nat, s: nat, t: nat, m: nat, v: nat)
    requires s > 0 && t * (64 * s) == U32 && x % s == m && v < 64
    ensures (x * 64 % U32 + v) % (64 * s) == 64 * m + v
  {
    var q, k := x / s, x * 64 / U32;
    DivModDef(x, s);
    DivModDef(x * 64, U32);
    assert x * 64 == q * (64 * s) + 64 * m by { MulAssoc(q, 64, s); }
    assert k * U32 == (k * t) * (64 * s) by { MulAssoc(k, t, 64 * s); }
    assert x * 64 % U32 + v == (q - k * t) * (64 * s) + (64 * m + v) by { MulDist(64 * s, q, -(k * t)); }
    DivModUnique(x * 64 % U32 + v, 64 * s, q - k * t, 64 * m + v);
  }

  lemma {:induction false} DecodedLength(d: seq<Sextet>)
    ensures |DecodeDigits(d)| == |d| / 4 * 3 + if |d| % 4 == 0 then 0 else |d| % 4 - 1
  {
    if |d| >= 4 { DecodedLength(d[4..]); }
  }

  lemma {:induction false} DecodeSplit(d: seq<Sextet>, e: seq<Sextet>)
    requires |d| % 4 == 0
    ensures DecodeDigits(d + e) == DecodeDigits(d) + DecodeDigits(e)
  {
    if |d| == 0 {
      assert d + e == e;
    } else {
      assert (d + e)[4..] == d[4..] + e;
      DecodeSplit(d[4..], e);
    }
  }

  function Byte2(x: nat): Octet { x / 65536 % 256 }
  function Byte1(x: nat): Octet { x / 256 % 256 }
  function Byte0(x: nat): Octet { x % 256 }

  lemma NumOf(d: seq<Sextet>)
    ensures |d| == 2 ==> Num(d) == 64 * (d[0] as int) + d[1]
    ensures |d| == 3 ==> Num(d) == 4096 * (d[0] as int) + 64 * (d[1] as int) + d[2]
    ensures |d| == 4 ==> Num(d) == 262144 * (d[0] as int) + 4096 * (d[1] as int) + 64 * (d[2] as int) + d[3]
  {
    if |d| == 2 {
      assert d[..1][0] == d[0];
    } else if |d| == 3 {
      NumOf(d[..2]);
    } else if |d| == 4 {
      NumOf(d[..3]);
    }
  }

  /** Only the low 24 bits of the accumulator reach the output. */
  lemma LowBytes(x: nat, y: nat)
    requires x % 16777216 == y
    ensures Byte2(x) == y / 65536 && Byte1(x) == y / 256 % 256 && Byte0(x) == y % 256
  {
    var q, y2, y1 := x / 16777216, y / 65536, y / 256;
    DivModUnique(x, 65536, 256 * q + y2, y % 65536);
    DivModUnique(256 * q + y2, 256, q, y2);
    DivModUnique(x, 256, 65536 * q + y1, y % 256);
    DivModUnique(65536 * q + y1, 256, 256 * q + y1 / 256, y1 % 256);
    DivModUnique(x, 256, 65536 * q + y1, y % 256);
  }

  lemma ThreeBytes(a: Sextet, b: Sextet, c: Sextet, d: Sextet, y: nat)
    requires y == 262144 * (a as int) + 4096 * (b as int) + 64 * (c as int) + d
    ensures y / 65536 == (a as int) * 4 + b / 16
    ensures y / 256 % 256 == (b as int) % 16 * 16 + c / 4
    ensures y % 256 == (c as int) % 4 * 64 + d
  {
    var bh: int, bl: int, ch: int, cl: int := b / 16, b % 16, c / 4, c % 4;
    var hi := (a as int) * 4 + bh;
    DivModUnique(y, 65536, hi, 4096 * bl + 64 * c + d);
    DivModUnique(y, 256, 256 * hi + (16 * bl + ch), 64 * cl + d);
    DivModUnique(256 * hi + (16 * bl + ch), 256, hi, 16 * bl + ch);
  }

  /** The octets written for a whole group, and for three or two digits left over. */
  lemma GroupBytes(x: nat, d: seq<Sextet>)
    requires 2 <= |d| <= 4 && x < U32 && x % Scale(|d|) == Num(d)
    ensures |d| == 4 ==> DecodeDigits(d) == [Byte2(x), Byte1(x), Byte0(x)]
    ensures |d| == 3 ==> DecodeDigits(d) == [Byte2(Shl6(x)), Byte1(Shl6(x))]
    ensures |d| == 2 ==> DecodeDigits(d) == [Byte2(Shl12(x))]
  {
    hide Byte0, Byte1, Byte2, Num;
    NumOf(d);
    if |d| == 4 {
      LowBytes(x, Num(d));
      ThreeBytes(d[0], d[1], d[2], d[3], Num(d));
      assert d[4..] == [];
    } else if |d| == 3 {
      ScaleStep(x, 262144, 256, Num(d), 0);
      LowBytes(Shl6(x), 64 * Num(d));
      ThreeBytes(d[0], d[1], d[2], 0, 64 * Num(d));
    } else {
      TwoShifts(x, Num(d));
      LowBytes(Shl12(x), 4096 * Num(d));
      ThreeBytes(d[0], d[1], 0, 0, 4096 * Num(d));
    }
  }

  lemma TwoShifts(x: nat, m: nat)
    requires x % 4096 == m
    ensures Shl12(x) % 16777216 == 4096 * m
  {
    ShlTwice(x);
    ScaleStep(x, 4096, 16384, m, 0);
    ScaleStep(x * 64 % U32, 262144, 256, 64 * m, 0);
  }

  function Buf(dst: array?<Octet>): seq<Octet>
    reads dst
  {
    if dst == null then [] else dst[..]
  }

  /** The digits read so far: whole groups are written out, the others are in the accumulator. */
  ghost predicate Held(d: seq<Sextet>, x: nat, acc: nat, p: nat)
  {
    acc == |d| % 4 && p == |d| / 4 * 3 && x < U32 && x % Scale(acc) == Num(d[|d| - acc..])
  }

  /** There is room for the whole groups. */
  ghost predicate Fits(d: seq<Sextet>, was: seq<Octet>)
  {
    |d| / 4 * 3 <= |was|
  }

  /** The octets of the whole groups, then what the buffer held before. */
  ghost function Output(d: seq<Sextet>, was: seq<Octet>): seq<Octet>
    requires Fits(d, was)
  {
    DecodeDigits(d[..|d| - |d| % 4]) + was[|d| / 4 * 3..]
  }

  lemma NumNext(d: seq<Sextet>, v: Sextet)
    ensures Num(d + [v]) == 64 * Num(d) + v
  {
    assert (d + [v])[..|d|] == d;
  }

  lemma OutputKeep(d: seq<Sextet>, v: Sextet, was: seq<Octet>)
    requires |d| % 4 != 3 && Fits(d, was)
    ensures Output(d + [v], was) == Output(d, was)
  {
    var full := |d| - |d| % 4;
    assert (d + [v])[..full] == d[..full];
  }

  lemma OutputGroup(d: seq<Sextet>, v: Sextet, was: seq<Octet>)
    requires |d| % 4 == 3 && Fits(d, was) && Fits(d + [v], was)
    ensures var p, o := |d| / 4 * 3, Output(d, was);
            p + 3 <= |o| && Output(d + [v], was) == o[..p] + DecodeDigits(d[|d| - 3..] + [v]) + o[p + 3..]
  {
    hide DecodeDigits;
    var p, o, full := |d| / 4 * 3, Output(d, was), |d| - 3;
    DecodedLength(d[..full]);
    var next := d[full..] + [v];
    assert d + [v] == d[..full] + next && (d + [v])[..|d| + 1] == d + [v];
    DecodeSplit(d[..full], next);
    assert o[..p] == DecodeDigits(d[..full]);
    assert o[p + 3..] == was[p + 3..];
  }

  lemma HeldStep(d: seq<Sextet>, v: Sextet, x: nat, acc: nat, p: nat)
    requires Held(d, x, acc, p)
    ensures acc == |d| % 4 < 4 && p == |d| / 4 * 3
    ensures acc < 3 ==> Held(d + [v], BitOr(Shl6(x), v), acc + 1, p)
    ensures acc == 3 ==> Held(d + [v], BitOr(Shl6(x), v), 0, p + 3)
    ensures acc == 3 ==> var y := BitOr(Shl6(x), v); DecodeDigits(d[|d| - 3..] + [v]) == [Byte2(y), Byte1(y), Byte0(y)]
  {
    hide BitOr, Num, DecodeDigits, Byte0, Byte1, Byte2;
    var tail := d[|d| - acc..];
    NumNext(tail, v);
    AccStep(x, acc, Num(tail), v);
    if acc == 3 {
      GroupBytes(BitOr(Shl6(x), v), tail + [v]);
      assert (d + [v])[|d| + 1..] == [];
      NumNone();
    } else {
      assert (d + [v])[|d| - acc..] == tail + [v];
    }
  }

  lemma NumNone()
    ensures Num([]) == 0
  {}

  /** x << 6 in 32 bits. */
  function Shl6(x: nat): nat
  {
    x * 64 % U32
  }

  function Shl12(x: nat): nat
  {
    x * 4096 % U32
  }

  lemma ShlTwice(x: nat)
    ensures Shl12(x) == Shl6(Shl6(x))
  {
    var k, r := x * 64 / U32, x * 64 % U32;
    DivModUnique(x * 4096, U32, 64 * k + r * 64 / U32, r * 64 % U32);
  }

  method PutThree(dst: array<Octet>, p: nat, x: Octet, y: Octet, z: Octet)
    requires p + 3 <= dst.Length
    modifies dst
    ensures dst[..] == old(dst[..p]) + [x, y, z] + old(dst[p + 3..])
  {
    dst[p], dst[p + 1], dst[p + 2] := x, y, z;
  }

  method TakeDigit(dst: array?<Octet>, v: Sextet, x0: nat, acc0: nat, p0: nat, ghost d: seq<Sextet>, ghost was: seq<Octet>)
    returns (x: nat, acc: nat, p: nat)
    requires Held(d, x0, acc0, p0) && Fits(d, was) && Fits(d + [v], was)
    requires Buf(dst) == Output(d, was) && |Buf(dst)| == |was|
    modifies if dst == null then {} else {dst}
    ensures Held(d + [v], x, acc, p) && Buf(dst) == Output(d + [v], was) && |Buf(dst)| == |was|
  {
    hide Held, Output, Fits, BitOr, Shl6, DecodeDigits, Byte0, Byte1, Byte2;
    TakeFacts(d, v, x0, acc0, p0, was);
    x := BitOr(Shl6(x0), v);
    acc, p := acc0 + 1, p0;
    if acc == 4 {
      acc := 0;
      PutThree(dst, p, Byte2(x), Byte1(x), Byte0(x));
      p := p + 3;
    }
  }

  lemma TakeFacts(d: seq<Sextet>, v: Sextet, x: nat, acc: nat, p: nat, was: seq<Octet>)
    requires Held(d, x, acc, p) && Fits(d, was) && Fits(d + [v], was)
    ensures acc < 4 && |Output(d, was)| == |Output(d + [v], was)| == |was|
    ensures acc < 3 ==> Held(d + [v], BitOr(Shl6(x), v), acc + 1, p) && Output(d + [v], was) == Output(d, was)
    ensures acc == 3 ==> p + 3 <= |was| && Held(d + [v], BitOr(Shl6(x), v), 0, p + 3)
    ensures acc == 3 ==> var y, o := BitOr(Shl6(x), v), Output(d, was);
              Output(d + [v], was) == o[..p] + [Byte2(y), Byte1(y), Byte0(y)] + o[p + 3..]
  {
    hide Held, Output, BitOr, Shl6, DecodeDigits, Byte0, Byte1, Byte2;
    HeldStep(d, v, x, acc, p);
    OutputWidth(d, was);
    OutputWidth(d + [v], was);
    if acc == 3 { OutputGroup(d, v, was); } else { OutputKeep(d, v, was); }
  }

  lemma OutputWidth(d: seq<Sextet>, was: seq<Octet>)
    requires Fits(d, was)
    ensures |Output(d, was)| == |was|
  {
    hide DecodeDigits;
    DecodedLength(d[..|d| - |d| % 4]);
  }

  lemma LeftoverBytes(d: seq<Sextet>, x: nat, acc: nat, p: nat, was: seq<Octet>)
    requires Held(d, x, acc, p) && |DecodeDigits(d)| <= |was| && Fits(d, was)
    ensures acc < 4 && var o := Output(d, was);
            p <= |o| &&
            (acc < 2 ==> p == |DecodeDigits(d)| && o == DecodeDigits(d) + was[p..]) &&
            (acc == 2 ==> p + 1 == |DecodeDigits(d)| <= |o| && DecodeDigits(d) + was[p + 1..] == o[..p] + [Byte2(Shl12(x))] + o[p + 1..]) &&
            (acc == 3 ==> p + 2 == |DecodeDigits(d)| <= |o| &&
                          DecodeDigits(d) + was[p + 2..] == o[..p] + [Byte2(Shl6(x)), Byte1(Shl6(x))] + o[p + 2..])
  {
    hide Num, Byte0, Byte1, Byte2, DecodeDigits, Shl6, Shl12;
    var full := |d| - acc;
    assert d == d[..full] + d[full..];
    DecodedLength(d[..full]);
    DecodedLength(d);
    DecodedLength(d[full..]);
    DecodeSplit(d[..full], d[full..]);
    LastBytes(DecodeDigits(d[..full]), DecodeDigits(d[full..]), was, p);
    if acc >= 2 {
      GroupBytes(x, d[full..]);
    }
  }

  lemma LastBytes(a: seq<Octet>, b: seq<Octet>, was: seq<Octet>, p: nat)
    requires p == |a| && p + |b| <= |was|
    ensures var o := a + was[p..]; (a + b) + was[p + |b|..] == o[..p] + b + o[p + |b|..]
    ensures |b| == 0 ==> a + was[p..] == (a + b) + was[p..]
  {
    var o := a + was[p..];
    assert o[..p] == a && o[p + |b|..] == was[p + |b|..];
  }

  /** The digits left over after the last whole group. */
  method Leftover(dst: array?<Octet>, x: nat, acc: nat, p0: nat, ghost d: seq<Sextet>, ghost was: seq<Octet>) returns (p: nat)
    requires Held(d, x, acc, p0) && |DecodeDigits(d)| <= |was| && Fits(d, was)
    requires Buf(dst) == Output(d, was) && |Buf(dst)| == |was|
    modifies if dst == null then {} else {dst}
    ensures p == |DecodeDigits(d)| && Buf(dst) == DecodeDigits(d) + was[p..]
  {
    hide Held, Output, Fits, Shl6, Shl12, DecodeDigits, Byte0, Byte1, Byte2;
    LeftoverBytes(d, x, acc, p0, was);
    p := p0;
    if acc == 3 {
      dst[p], dst[p + 1] := Byte2(Shl6(x)), Byte1(Shl6(x));
      p := p + 2;
    } else if acc == 2 {
      dst[p] := Byte2(Shl12(x));
      p := p + 1;
    }
  }

  /** The second pass writes what the digits stand for, and nothing else. */
  method SecondPass(dst: array?<Octet>, src: seq<Octet>) returns (p: nat)
    requires ValidText(src) && |DecodeDigits(Digits(src))| <= |Buf(dst)|
    modifies if dst == null then {} else {dst}
    ensures p == |DecodeDigits(Digits(src))| && Buf(dst) == DecodeDigits(Digits(src)) + old(Buf(dst))[p..]
  {
    hide Digits, DecValue, Equals, Held, Output, Fits, DecodeDigits, DigitOf;
    ghost var was := Buf(dst);
    var x: nat, acc: nat, i: nat := 0, 0, 0;
    p := 0;
    NothingRead(src, was);
    FitsMono(src, |src|, was);
    assert src[..|src|] == src;
    while i < |src|
      invariant i <= |src| && Held(Digits(src[..i]), x, acc, p)
      invariant Fits(Digits(src[..i]), was) && |Buf(dst)| == |was|
      invariant Buf(dst) == Output(Digits(src[..i]), was)
    {
      WhiteSpace(src[i]);
      if src[i] == '\r' as int || src[i] == '\n' as int || src[i] == ' ' as int {
        DigitsNext(src, i);
        assert Digits(src[..i + 1]) == Digits(src[..i]);
      } else if src[i] == EQUALS {
        AfterEquals(src, i);
        break;
      } else {
        assert CharOk(src, i);
        DigitsNext(src, i);
        FitsMono(src, i + 1, was);
        x, acc, p := TakeDigit(dst, DecValue(src[i]), x, acc, p, Digits(src[..i]), was);
      }
      i := i + 1;
    }
    p := Leftover(dst, x, acc, p, Digits(src), was);
  }

  lemma NothingRead(src: seq<Octet>, was: seq<Octet>)
    ensures Held(Digits(src[..0]), 0, 0, 0) && Fits(Digits(src[..0]), was) && Output(Digits(src[..0]), was) == was
  {}

  lemma AfterEquals(t: seq<Octet>, i: nat)
    requires i < |t| && PadLast(t) && t[i] == EQUALS
    ensures Digits(t[..i]) == Digits(t)
  {
    hide DecValue;
    WhiteSpace(t[i]);
    NoMoreDigits(t, i);
  }

  lemma FitsMono(t: seq<Octet>, i: nat, was: seq<Octet>)
    requires i <= |t| && |DecodeDigits(Digits(t))| <= |was|
    ensures Fits(Digits(t[..i]), was)
  {
    hide DecodeDigits;
    assert t == t[..i] + t[i..];
    DigitsSplit(t[..i], t[i..]);
    DecodedLength(Digits(t));
  }

  /**
   * mbedtls_base64_decode. The well-formed texts are exactly those accepted; the length computed by the
   * first pass is the length the second one writes, so CorruptionDetected is never returned.
   */
  method Decode(dst: array?<Octet>, dlen: nat, src: seq<Octet>) returns (ret: Base64Ret, olen: nat)
    requires dst != null ==> dlen <= dst.Length
    modifies if dst == null then {} else {dst}
    ensures ret == InvalidCharacter <==> !ValidText(src)
    ensures ValidText(src) ==> olen == |DecodeDigits(Digits(src))|
    ensures ValidText(src) ==> ret == if (olen != 0 && dst == null) || dlen < olen then BufferTooSmall else Success
    ensures ret == Success ==> olen <= |Buf(dst)| && Buf(dst) == DecodeDigits(Digits(src)) + old(Buf(dst))[olen..]
    ensures ret != Success ==> Buf(dst) == old(Buf(dst))
  {
    hide Digits, Equals, DecodeDigits, ValidText;
    var ok, n, equals := FirstPass(src);
    if !ok {
      return InvalidCharacter, 0;
    }
    OutputLength(src);
    olen := n / 4 * 3 - equals;
    if (olen != 0 && dst == null) || dlen < olen {
      return BufferTooSmall, olen;
    }
    var p := SecondPass(dst, src);
    if olen != p {
      return CorruptionDetected, olen;
    }
    ret := Success;
  }

  /** The length computed from the counts of the first pass. */
  lemma OutputLength(t: seq<Octet>)
    requires ValidText(t)
    ensures |DecodeDigits(Digits(t))| == (|Digits(t)| + Equals(t)) / 4 * 3 - Equals(t)
  {
    hide Digits, Equals, DecodeDigits;
    DecodedLength(Digits(t));
  }
}
