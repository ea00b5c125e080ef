/** Unicode escapes and UTF-8: what decodeUnicodeCodePoint and codePointToUTF8 make of code points. */
module Unicode {
  import opened Bytes
  import opened Decoding

  const LAST_CODE_POINT: nat := 0x10_FFFF

  predicate IsSurrogate(cp: nat) {
    0xD800 <= cp <= 0xDFFF
  }

  predicate IsLowSurrogate(cp: nat) {
    0xDC00 <= cp <= 0xDFFF
  }

  predicate IsScalar(cp: nat) {
    cp <= LAST_CODE_POINT && !IsSurrogate(cp)
  }

  // ---- RFC 3629, section 4: the syntax of UTF-8 ----

  predicate IsTail(b: Byte) {
    0x80 <= b <= 0xBF
  }

  /** The UTF8-2, UTF8-3 and UTF8-4 rules, with UTF8-1. */
  predicate IsUtf8Char(t: Text) {
    match |t|
    case 1 => t[0] <= 0x7F
    case 2 => 0xC2 <= t[0] <= 0xDF && IsTail(t[1])
    case 3 =>
      && IsTail(t[2])
      && (t[0] == 0xE0 ==> 0xA0 <= t[1] <= 0xBF)
      && (t[0] == 0xED ==> 0x80 <= t[1] <= 0x9F)
      && 0xE0 <= t[0] <= 0xEF && IsTail(t[1])
    case 4 =>
      && IsTail(t[2]) && IsTail(t[3])
      && (t[0] == 0xF0 ==> 0x90 <= t[1] <= 0xBF)
      && (t[0] == 0xF4 ==> 0x80 <= t[1] <= 0x8F)
      && 0xF0 <= t[0] <= 0xF4 && IsTail(t[1])
    case _ => false
  }

  /** Section 3: the number of bytes that a first byte announces. */
  function CharLength(first: Byte): (n: nat)
    ensures 1 <= n <= 4
  {
    if first < 0xC0 then 1 else if first < 0xE0 then 2 else if first < 0xF0 then 3 else 4
  }

  /** The value bits of a byte: those below the bit `m` stands for. */
  function Bits(b: Byte, m: nat): (n: nat)
    requires m > 0
    ensures n < m
  {
    b % m
  }

  /** Section 3: the code point a sequence of that length stands for. */
  function Denotation(t: Text): nat
    requires 1 <= |t| <= 4
  {
    match |t|
    case 1 => t[0]
    case 2 => Bits(t[0], 0x20) * 0x40 + Bits(t[1], 0x40)
    case 3 => (Bits(t[0], 0x10) * 0x40 + Bits(t[1], 0x40)) * 0x40 + Bits(t[2], 0x40)
    case 4 => ((Bits(t[0], 8) * 0x40 + Bits(t[1], 0x40)) * 0x40 + Bits(t[2], 0x40)) * 0x40 + Bits(t[3], 0x40)
  }

  lemma Split(n: nat, high: nat, low: nat)
    ensures n == high * 0x40 + low && low < 0x40 <==> high == n / 0x40 && low == n % 0x40
  {
  }

  lemma Shifts(n: nat)
    ensures n / 0x1000 == n / 0x40 / 0x40 && n / 0x4_0000 == n / 0x1000 / 0x40
  {
  }

  lemma TailBits(x: nat)
    requires x < 0x40
    ensures Bits(0x80 + x, 0x40) == x
  {
  }

  lemma LeadBits(x: nat)
    ensures x < 0x20 ==> x % 0x20 == x && Bits(0xC0 + x, 0x20) == x
    ensures x < 0x10 ==> x % 0x10 == x && Bits(0xE0 + x, 0x10) == x
    ensures x < 8 ==> x % 8 == x && Bits(0xF0 + x, 8) == x
  {
  }

  /** The encoding in terms of the base-64 digits of the code point. */
  lemma EncodingShape(cp: nat, a: nat, b: nat, c: nat, d: nat)
    requires cp <= LAST_CODE_POINT && b < 0x40 && c < 0x40 && d < 0x40
    requires cp == ((a * 0x40 + b) * 0x40 + c) * 0x40 + d
    ensures CodePointToUTF8(cp) ==
            if cp <= 0x7F then [cp]
            else if cp <= 0x7FF then [0xC0 + c, 0x80 + d]
            else if cp <= 0xFFFF then [0xE0 + b, 0x80 + c, 0x80 + d]
            else [0xF0 + a, 0x80 + b, 0x80 + c, 0x80 + d]
  {
    Split(cp, (a * 0x40 + b) * 0x40 + c, d);
    Split(cp / 0x40, a * 0x40 + b, c);
    Split(cp / 0x40 / 0x40, a, b);
    Shifts(cp);
    LeadBits(a);
    LeadBits(b);
    LeadBits(c);
  }

  lemma Base64(cp: nat) returns (a: nat, b: nat, c: nat, d: nat)
    ensures b < 0x40 && c < 0x40 && d < 0x40
    ensures cp == ((a * 0x40 + b) * 0x40 + c) * 0x40 + d
  {
    d, c := cp % 0x40, cp / 0x40 % 0x40;
    b, a := cp / 0x40 / 0x40 % 0x40, cp / 0x40 / 0x40 / 0x40;
  }

  /** The encoding announces its own length and denotes the code point. */
  lemma EncodingDenotes(cp: nat)
    requires cp <= LAST_CODE_POINT
    ensures var t := CodePointToUTF8(cp); 1 <= |t| == CharLength(t[0]) && Denotation(t) == cp
  {
    hide CodePointToUTF8, Bits;
    var a, b, c, d := Base64(cp);
    EncodingShape(cp, a, b, c, d);
    TailBits(b);
    TailBits(c);
    TailBits(d);
    LeadBits(a);
    LeadBits(b);
    LeadBits(c);
  }

  /** The scalar values are exactly the code points whose encoding is well-formed UTF-8. */
  lemma WellFormedExactly(cp: nat)
    ensures IsUtf8Char(CodePointToUTF8(cp)) <==> IsScalar(cp)
  {
    if cp <= LAST_CODE_POINT {
      hide CodePointToUTF8, IsUtf8Char, IsScalar;
      var a, b, c, d := Base64(cp);
      EncodingShape(cp, a, b, c, d);
      if cp <= 0x7FF {
        ShortWellFormed(cp, c, d);
      } else {
        LongWellFormed(cp, a, b, c, d);
      }
    }
  }

  lemma ShortWellFormed(cp: nat, c: nat, d: nat)
    requires cp == c * 0x40 + d && d < 0x40 && cp <= 0x7FF
    ensures IsScalar(cp) && IsUtf8Char(if cp <= 0x7F then [cp] else [0xC0 + c, 0x80 + d])
  {
  }

  /** Three or four bytes: well-formed unless it is a surrogate. */
  lemma LongWellFormed(cp: nat, a: nat, b: nat, c: nat, d: nat)
    requires cp == ((a * 0x40 + b) * 0x40 + c) * 0x40 + d && b < 0x40 && c < 0x40 && d < 0x40
    requires 0x7FF < cp <= LAST_CODE_POINT
    ensures cp <= 0xFFFF ==> a == 0 && b < 0x10 && (IsUtf8Char([0xE0 + b, 0x80 + c, 0x80 + d]) <==> IsScalar(cp))
    ensures cp > 0xFFFF ==> a <= 4 && IsUtf8Char([0xF0 + a, 0x80 + b, 0x80 + c, 0x80 + d]) && IsScalar(cp)
  {
  }

  /** The base-64 digits that the bytes of a well-formed character carry. */
  lemma Digits64(t: Text) returns (a: nat, b: nat, c: nat, d: nat)
    requires IsUtf8Char(t)
    ensures a <= 4 && b < 0x40 && c < 0x40 && d < 0x40
    ensures match |t|
            case 1 => t == [c * 0x40 + d] && a == b == 0 && c <= 1
            case 2 => t == [0xC0 + c, 0x80 + d] && a == b == 0 && 2 <= c < 0x20
            case 3 => t == [0xE0 + b, 0x80 + c, 0x80 + d] && a == 0 && b < 0x10 && (b == 0 ==> c >= 0x20)
                      && (b == 0xD ==> c < 0x20)
            case _ => t == [0xF0 + a, 0x80 + b, 0x80 + c, 0x80 + d] && (a == 0 ==> b >= 0x10) && (a == 4 ==> b < 0x10)
  {
    var n := |t|;
    a := if n == 4 then t[0] as int - 0xF0 else 0;
    b := if n == 4 then t[1] as int - 0x80 else if n == 3 then t[0] as int - 0xE0 else 0;
    c := if n >= 3 then t[n - 2] as int - 0x80 else if n == 2 then t[0] as int - 0xC0 else t[0] as int / 0x40;
    d := if n >= 2 then t[n - 1] as int - 0x80 else t[0] as int % 0x40;
  }

  /** Every well-formed character is the encoding of the scalar value that it denotes. */
  lemma EncodingComplete(t: Text)
    requires IsUtf8Char(t)
    ensures IsScalar(Denotation(t)) && CodePointToUTF8(Denotation(t)) == t
  {
    hide CodePointToUTF8, IsUtf8Char, Denotation;
    var a, b, c, d := Digits64(t);
    DigitsDenote(t, a, b, c, d);
    var cp := ((a * 0x40 + b) * 0x40 + c) * 0x40 + d;
    EncodingShape(cp, a, b, c, d);
  }

  lemma DigitsDenote(t: Text, a: nat, b: nat, c: nat, d: nat)
    requires a <= 4 && b < 0x40 && c < 0x40 && d < 0x40
    requires
      || (t == [c * 0x40 + d] && a == b == 0 && c <= 1)
      || (t == [0xC0 + c, 0x80 + d] && a == b == 0 && c < 0x20)
      || (t == [0xE0 + b, 0x80 + c, 0x80 + d] && a == 0 && b < 0x10)
      || t == [0xF0 + a, 0x80 + b, 0x80 + c, 0x80 + d]
    ensures 1 <= |t| <= 4 && Denotation(t) == ((a * 0x40 + b) * 0x40 + c) * 0x40 + d
  {
    hide Bits;
    TailBits(b);
    TailBits(c);
    TailBits(d);
    LeadBits(a);
    LeadBits(b);
    LeadBits(c);
  }

  // ---- texts of many characters ----

  function Encoded(cps: seq<nat>): Text {
    if cps == [] then [] else CodePointToUTF8(cps[0]) + Encoded(cps[1..])
  }

  predicate AllCodePoints(cps: seq<nat>) {
    forall i | 0 <= i < |cps| :: cps[i] <= LAST_CODE_POINT
  }

  /** The code points of a text, cut by the first bytes alone. */
  function Denoted(t: Text): seq<nat>
    decreases |t|
  {
    if t == [] then []
    else
      var n := CharLength(t[0]);
      if n > |t| then [] else [Denotation(t[..n])] + Denoted(t[n..])
  }

  /** The encodings of a sequence of code points determine it. */
  lemma {:induction false} DecodesUniquely(cps: seq<nat>)
    requires AllCodePoints(cps)
    ensures Denoted(Encoded(cps)) == cps
  {
    if cps != [] {
      var first, rest := CodePointToUTF8(cps[0]), Encoded(cps[1..]);
      EncodingDenotes(cps[0]);
      assert Encoded(cps)[..|first|] == first && Encoded(cps)[|first|..] == rest;
      DecodesUniquely(cps[1..]);
      assert [cps[0]] + cps[1..] == cps;
    }
  }

  lemma SameEncodingSameCodePoints(a: seq<nat>, b: seq<nat>)
    requires AllCodePoints(a) && AllCodePoints(b) && Encoded(a) == Encoded(b)
    ensures a == b
  {
    DecodesUniquely(a);
    DecodesUniquely(b);
  }

  // ---- escapes: RFC 8259, section 7 ----

  predicate FourHexAt(t: Text, i: nat) {
    i + 4 <= |t| && forall k | i <= k < i + 4 :: IsHexDigit(t[k])
  }

  function HexCode(t: Text, i: nat): nat
    requires FourHexAt(t, i)
  {
    ((HexNumber(t[i]) * 16 + HexNumber(t[i + 1])) * 16 + HexNumber(t[i + 2])) * 16 + HexNumber(t[i + 3])
  }

  lemma HexValueIs(c: Byte)
    ensures HexValue(c) == if IsHexDigit(c) then Some(HexNumber(c)) else None
  {
  }

  /** A backslash, a `u` and four digits of either case. */
  predicate IsUnit(t: Text, i: nat) {
    i + 6 <= |t| && t[i] == BACKSLASH && t[i + 1] == 0x75 && FourHexAt(t, i + 2)
  }

  predicate UnitAt(t: Text, i: nat, code: nat) {
    IsUnit(t, i) && code == HexCode(t, i + 2)
  }

  function HighHalf(cp: nat): nat
    requires cp >= 0x1_0000
  {
    0xD800 + (cp - 0x1_0000) / 0x400
  }

  function LowHalf(cp: nat): nat
    requires cp >= 0x1_0000
  {
    0xDC00 + (cp - 0x1_0000) % 0x400
  }

  /** `cp` is written as escapes from `i` to `j`. */
  predicate EscapeAt(t: Text, i: nat, cp: nat, j: nat) {
    if cp < 0x1_0000 then j == i + 6 && UnitAt(t, i, cp)
    else j == i + 12 && UnitAt(t, i, HighHalf(cp)) && UnitAt(t, i + 6, LowHalf(cp))
  }

  predicate EscapesAt(t: Text, i: nat, cps: seq<nat>, j: nat)
    decreases |cps|
  {
    if cps == [] then i == j
    else
      var next := if cps[0] < 0x1_0000 then i + 6 else i + 12;
      EscapeAt(t, i, cps[0], next) && EscapesAt(t, next, cps[1..], j)
  }

  lemma FourDigitsDecode(t: Text, i: nat, end: nat)
    requires FourHexAt(t, i) && i + 4 <= end <= |t|
    ensures EscapeSequence(t, i, end) == Unit(HexCode(t, i), i + 4)
  {
    hide HexNumber, IsHexDigit, HexValue;
    HexValueIs(t[i]);
    HexValueIs(t[i + 1]);
    HexValueIs(t[i + 2]);
    HexValueIs(t[i + 3]);
    var a, b := HexNumber(t[i]), HexNumber(t[i + 1]);
    var c, d := HexNumber(t[i + 2]), HexNumber(t[i + 3]);
    assert HexDigits(t, i + 3, i + 4, (a * 16 + b) * 16 + c) == Unit(HexCode(t, i), i + 4);
    assert HexDigits(t, i + 2, i + 4, a * 16 + b) == Unit(HexCode(t, i), i + 4);
    assert HexDigits(t, i + 1, i + 4, a) == Unit(HexCode(t, i), i + 4);
  }

  /** One unit that does not start a pair is taken as it is, a lone second half included. */
  lemma UnitDecodes(t: Text, i: nat, end: nat, code: nat)
    requires UnitAt(t, i, code) && i + 6 <= end <= |t| && !IsHighSurrogate(code)
    ensures DecodeChar(t, i, end) == Char(CodePointToUTF8(code), i + 6)
  {
    hide EscapeSequence, HexValue, CodePointToUTF8, FourHexAt, HexCode;
    FourDigitsDecode(t, i + 2, end);
  }

  /** Of the second unit of a pair only the low ten bits count, whatever the others are. */
  lemma PairDecodes(t: Text, i: nat, end: nat, high: nat, low: nat)
    requires UnitAt(t, i, high) && UnitAt(t, i + 6, low) && i + 12 <= end <= |t| && IsHighSurrogate(high)
    ensures var cp := 0x1_0000 + (high - 0xD800) * 0x400 + low % 0x400;
            0x1_0000 <= cp <= LAST_CODE_POINT && DecodeChar(t, i, end) == Char(CodePointToUTF8(cp), i + 12)
  {
    hide EscapeSequence, HexValue, CodePointToUTF8, FourHexAt, HexCode;
    FourDigitsDecode(t, i + 2, end);
    FourDigitsDecode(t, i + 8, end);
    assert high % 0x400 == high - 0xD800;
  }

  lemma EscapeDecodes(t: Text, i: nat, end: nat, cp: nat, j: nat)
    requires IsScalar(cp) && EscapeAt(t, i, cp, j) && j <= end <= |t|
    ensures DecodeChar(t, i, end) == Char(CodePointToUTF8(cp), j)
  {
    hide DecodeChar, CodePointToUTF8, UnitAt;
    if cp < 0x1_0000 {
      UnitDecodes(t, i, end, cp);
    } else {
      PairDecodes(t, i, end, HighHalf(cp), LowHalf(cp));
    }
  }

  lemma {:induction false} EscapesAdvance(t: Text, i: nat, cps: seq<nat>, j: nat)
    requires EscapesAt(t, i, cps, j)
    ensures i <= j
    decreases |cps|
  {
    if cps != [] {
      EscapesAdvance(t, if cps[0] < 0x1_0000 then i + 6 else i + 12, cps[1..], j);
    }
  }

  /** A string of escapes of scalar values, each plain or as a pair, decodes to their UTF-8 text. */
  lemma {:induction false} EscapesDecode(t: Text, i: nat, cps: seq<nat>, end: nat)
    requires EscapesAt(t, i, cps, end) && end <= |t| && forall k | 0 <= k < |cps| :: IsScalar(cps[k])
    ensures i <= end && DecodeChars(t, i, end) == Bytes(Encoded(cps))
    decreases |cps|
  {
    hide DecodeChar, CodePointToUTF8, EscapeAt;
    if cps != [] {
      var next := if cps[0] < 0x1_0000 then i + 6 else i + 12;
      EscapesAdvance(t, next, cps[1..], end);
      EscapeDecodes(t, i, end, cps[0], next);
      EscapesDecode(t, next, cps[1..], end);
      NotQuote(t, i, cps[0], next);
    }
  }

  lemma NotQuote(t: Text, i: nat, cp: nat, j: nat)
    requires EscapeAt(t, i, cp, j)
    ensures i < |t| && t[i] == BACKSLASH
  {
  }

  /** What the decoder makes of one unit is well-formed UTF-8 exactly if the unit is not half of a pair. */
  lemma LoneHalfIllFormed(t: Text, i: nat, end: nat, code: nat)
    requires UnitAt(t, i, code) && i + 6 <= end <= |t| && !IsHighSurrogate(code) && code < 0x1_0000
    ensures var r := DecodeChar(t, i, end); r.Char? && (IsUtf8Char(r.bytes) <==> !IsLowSurrogate(code))
  {
    hide DecodeChar, CodePointToUTF8, UnitAt, IsUtf8Char;
    UnitDecodes(t, i, end, code);
    WellFormedExactly(code);
  }

  /** A pair is the pair of a code point exactly if that is what it decodes to and its second unit is a second half. */
  lemma PairFaithfulExactly(t: Text, i: nat, end: nat, high: nat, low: nat, cp: nat)
    requires UnitAt(t, i, high) && UnitAt(t, i + 6, low) && i + 12 <= end <= |t| && IsHighSurrogate(high)
    requires low < 0x1_0000 <= cp <= LAST_CODE_POINT
    ensures high == HighHalf(cp) && low == LowHalf(cp) <==>
            IsLowSurrogate(low) && DecodeChar(t, i, end) == Char(CodePointToUTF8(cp), i + 12)
  {
    hide DecodeChar, CodePointToUTF8, UnitAt, HighHalf, LowHalf, Denotation, CharLength;
    PairDecodes(t, i, end, high, low);
    Halves(high, low, cp);
    EncodingDenotes(cp);
    EncodingDenotes(0x1_0000 + (high - 0xD800) * 0x400 + low % 0x400);
  }

  lemma Halves(high: nat, low: nat, cp: nat)
    requires IsHighSurrogate(high) && 0x1_0000 <= cp <= LAST_CODE_POINT
    ensures high == HighHalf(cp) && low == LowHalf(cp) <==>
            IsLowSurrogate(low) && cp == 0x1_0000 + (high - 0xD800) * 0x400 + low % 0x400
  {
  }
}
