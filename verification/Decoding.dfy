/** What the Reader's decoders make of a token's text. */
module Decoding {
  import opened Bytes
  import opened Values

  // ---- numbers ----

  const TWO64: int := 0x1_0000_0000_0000_0000

  function MaxMagnitude(negative: bool): (m: int)
  {
    if negative then INT64_MAX + 1 else UINT_MAX
  }

  function DigitValue(c: Byte): (d: nat)
    requires IsDigit(c)
    ensures d <= 9
  {
    c - ZERO
  }

  /** The digits of `t` from `i` on appended to `value`; None where the code turns to decodeDouble. */
  function Accumulate(t: Text, i: nat, max: nat, value: nat): (r: Option<nat>)
    requires i <= |t|
    requires value <= max
    ensures r.Some? ==> r.value <= max
    decreases |t| - i
  {
    if i == |t| then Some(value)
    else if !IsDigit(t[i]) then None
    else
      var digit := DigitValue(t[i]);
      if value > max / 10 then None
      else if value == max / 10 && (i + 1 != |t| || digit > max % 10) then None
      else Accumulate(t, i + 1, max, value * 10 + digit)
  }

  lemma AccumulateStep(t: Text, i: nat, max: nat, value: nat)
    requires i < |t| && value <= max
    ensures Accumulate(t, i, max, value) ==
            if !IsDigit(t[i]) || value > max / 10 ||
               (value == max / 10 && (i + 1 != |t| || DigitValue(t[i]) > max % 10)) then None
            else Accumulate(t, i + 1, max, value * 10 + DigitValue(t[i]))
  {
  }

  lemma AccumulateEnd(t: Text, max: nat, value: nat)
    requires value <= max
    ensures Accumulate(t, |t|, max, value) == Some(value)
  {
  }

  predicate IsNegative(t: Text) {
    t != [] && t[0] == MINUS
  }

  /** The type chosen for a decoded magnitude. */
  function Signed(negative: bool, magnitude: nat): Payload {
    if negative then Int(0 - magnitude)
    else if magnitude <= INT32_MAX then Int(magnitude)
    else UInt(magnitude)
  }

  /** Some integer payload, or None when the text is left to the floating-point reader. */
  function DecodeInteger(t: Text): Option<Payload> {
    var negative := IsNegative(t);
    var r := Accumulate(t, if negative then 1 else 0, MaxMagnitude(negative), 0);
    if r.Some? then Some(Signed(negative, r.value)) else None
  }

  // ---- Unicode ----

  /** codePointToUTF8; nothing is produced above 0x10FFFF. */
  function CodePointToUTF8(cp: nat): Text {
    if cp <= 0x7F then [cp]
    else if cp <= 0x7FF then [0xC0 + cp / 0x40 % 0x20, 0x80 + cp % 0x40]
    else if cp <= 0xFFFF then [0xE0 + cp / 0x1000 % 0x10, 0x80 + cp / 0x40 % 0x40, 0x80 + cp % 0x40]
    else if cp <= 0x10FFFF then
      [0xF0 + cp / 0x4_0000 % 8, 0x80 + cp / 0x1000 % 0x40, 0x80 + cp / 0x40 % 0x40, 0x80 + cp % 0x40]
    else []
  }

  // ---- strings ----

  datatype Message =
    | ValueExpected
    | MissingColon
    | MissingCommaOrBrace
    | MissingBraceOrName
    | MissingCommaOrBracket
    | NotANumber
    | EmptyEscape
    | BadEscape
    | FourDigitsExpected
    | HexDigitExpected
    | SixMoreCharactersExpected
    | SecondSurrogateExpected
    | ArrayOrObjectExpected

  /** Decoded bytes, or a message and the place in the token it refers to. */
  datatype Decoded = Bytes(bytes: Text) | Bad(message: Message, at: nat)

  /** A number read at a place of the token, and the place after it. */
  datatype CodeUnit = Unit(code: nat, next: nat) | BadUnit(message: Message, at: nat)

  function HexValue(c: Byte): (r: Option<nat>)
    ensures r.Some? ==> r.value < 16
  {
    if IsDigit(c) then Some(c - ZERO)
    else if 0x61 <= c <= 0x66 then Some(c - 0x61 + 10)
    else if 0x41 <= c <= 0x46 then Some(c - 0x41 + 10)
    else None
  }

  /** The hexadecimal digits from `i` to `stop`, after the ones that made `code`. */
  function HexDigits(t: Text, i: nat, stop: nat, code: nat): (r: CodeUnit)
    requires i <= stop <= |t|
    ensures r.Unit? ==> r.next == stop
    decreases stop - i
  {
    if i == stop then Unit(code, i)
    else
      var d := HexValue(t[i]);
      if d.None? then BadUnit(HexDigitExpected, i + 1) else HexDigits(t, i + 1, stop, code * 16 + d.value)
  }

  /** decodeUnicodeEscapeSequence: four digits before `end`. */
  function EscapeSequence(t: Text, i: nat, end: nat): (r: CodeUnit)
    requires i <= end <= |t|
    ensures r.Unit? ==> i < r.next <= end
  {
    if end - i < 4 then BadUnit(FourDigitsExpected, i) else HexDigits(t, i, i + 4, 0)
  }

  predicate IsHighSurrogate(code: nat) {
    0xD800 <= code <= 0xDBFF
  }

  /** decodeUnicodeCodePoint: only the first half of a pair is range-checked. */
  function CodePoint(t: Text, i: nat, end: nat): (r: CodeUnit)
    requires i <= end <= |t|
    ensures r.Unit? ==> i < r.next <= end
  {
    var u := EscapeSequence(t, i, end);
    if u.BadUnit? || !IsHighSurrogate(u.code) then u
    else if end - u.next < 6 then BadUnit(SixMoreCharactersExpected, u.next)
    else if t[u.next] != BACKSLASH then BadUnit(SecondSurrogateExpected, u.next + 1)
    else if t[u.next + 1] != 0x75 then BadUnit(SecondSurrogateExpected, u.next + 2)
    else
      var low := EscapeSequence(t, u.next + 2, end);
      if low.BadUnit? then low
      else Unit(0x1_0000 + u.code % 0x400 * 0x400 + low.code % 0x400, low.next)
  }

  /** The byte a one-letter escape stands for. */
  function SimpleEscape(c: Byte): Option<Byte> {
    if c == QUOTE || c == SLASH || c == BACKSLASH then Some(c)
    else if c == 0x62 then Some(BS)
    else if c == 0x66 then Some(FF)
    else if c == 0x6E then Some(LF)
    else if c == 0x72 then Some(CR)
    else if c == 0x74 then Some(TAB)
    else None
  }

  function Prepend(a: Text, d: Decoded): Decoded {
    if d.Bytes? then Bytes(a + d.bytes) else d
  }

  /** The bytes one character or escape of a string stands for, and the place after it. */
  datatype Char = Char(bytes: Text, next: nat) | BadChar(message: Message, at: nat)

  /** What follows a backslash, from `i` on. */
  function DecodeEscape(t: Text, i: nat, end: nat): (r: Char)
    requires i <= end <= |t|
    ensures r.Char? ==> i < r.next <= end
  {
    if i == end then BadChar(EmptyEscape, i)
    else if t[i] == 0x75 then
      var u := CodePoint(t, i + 1, end);
      if u.Unit? then Char(CodePointToUTF8(u.code), u.next) else BadChar(u.message, u.at)
    else
      var c := SimpleEscape(t[i]);
      if c.Some? then Char([c.value], i + 1) else BadChar(BadEscape, i + 1)
  }

  function DecodeChar(t: Text, i: nat, end: nat): (r: Char)
    requires i < end <= |t|
    ensures r.Char? ==> i < r.next <= end
  {
    if t[i] == BACKSLASH then DecodeEscape(t, i + 1, end) else Char([t[i]], i + 1)
  }

  /** decodeString between the quotes: from `i` to `end`. */
  function DecodeChars(t: Text, i: nat, end: nat): Decoded
    requires i <= end <= |t|
    decreases end - i
  {
    if i == end || t[i] == QUOTE then Bytes([])
    else
      var c := DecodeChar(t, i, end);
      if c.BadChar? then Bad(c.message, c.at) else Prepend(c.bytes, DecodeChars(t, c.next, end))
  }

  /** `t` is a whole string token, quotes included. */
  function DecodeString(t: Text): Decoded
    requires 2 <= |t|
  {
    DecodeChars(t, 1, |t| - 1)
  }
}
