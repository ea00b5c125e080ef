/** Quoted strings: how they are printed, and that the lexer and the decoder undo it. */
module Escaping {
  import opened Bytes
  import opened Decoding
  import Lexer

  /** Bytes that are printed as an escape although they are not control characters in [1, 31]. */
  predicate HasShortEscape(c: Byte) {
    c == QUOTE || c == BACKSLASH || c == BS || c == FF || c == LF || c == CR || c == TAB
  }

  predicate IsControl(c: Byte) {
    0 < c <= 0x1F
  }

  predicate NeedsEscape(c: Byte) {
    HasShortEscape(c) || IsControl(c) || c == NUL
  }

  /** The text a byte is printed as inside quotes. */
  function EscapeByte(c: Byte): (t: Text)
    ensures t != []
  {
    if c == QUOTE then [BACKSLASH, QUOTE]
    else if c == BACKSLASH then [BACKSLASH, BACKSLASH]
    else if c == BS then [BACKSLASH, 0x62]
    else if c == FF then [BACKSLASH, 0x66]
    else if c == LF then [BACKSLASH, 0x6E]
    else if c == CR then [BACKSLASH, 0x72]
    else if c == TAB then [BACKSLASH, 0x74]
    else if IsControl(c) || c == NUL then
      [BACKSLASH, 0x75, ZERO, ZERO, HexDigit(c / 16), HexDigit(c % 16)]
    else [c]
  }

  function Escaped(s: Text): Text {
    if s == [] then [] else EscapeByte(s[0]) + Escaped(s[1..])
  }

  function Quoted(s: Text): (t: Text)
    ensures |t| >= 2
  {
    [QUOTE] + Escaped(s) + [QUOTE]
  }

  // ---- valueToQuotedStringN ----

  lemma {:induction false} EscapedPlain(s: Text)
    requires forall i | 0 <= i < |s| :: !NeedsEscape(s[i])
    ensures Escaped(s) == s
  {
    if s != [] {
      EscapedPlain(s[1..]);
    }
  }

  lemma {:induction false} EscapedAppend(s: Text, c: Byte)
    ensures Escaped(s + [c]) == Escaped(s) + EscapeByte(c)
  {
    hide EscapeByte;
    if s == [] {
      assert Escaped([c]) == EscapeByte(c) + Escaped([]);
    } else {
      EscapedAppend(s[1..], c);
      assert (s + [c])[1..] == s[1..] + [c];
    }
  }

  /** The two scans that look for a byte to escape: strnpbrk and containsControlCharacter0. */
  method IsPlain(value: Text) returns (plain: bool)
    ensures plain <==> forall i | 0 <= i < |value| :: !NeedsEscape(value[i])
  {
    for i := 0 to |value|
      invariant forall k | 0 <= k < i :: !HasShortEscape(value[k])
    {
      if HasShortEscape(value[i]) {
        return false;
      }
    }
    for i := 0 to |value|
      invariant forall k | 0 <= k < i :: !NeedsEscape(value[k])
    {
      if IsControl(value[i]) || value[i] == NUL {
        return false;
      }
    }
    plain := true;
  }

  /** A plain value is copied between quotes; any other is walked byte by byte. */
  method ValueToQuotedString(value: Text) returns (result: Text)
    ensures result == Quoted(value)
  {
    hide EscapeByte;
    var plain := IsPlain(value);
    if plain {
      EscapedPlain(value);
      return [QUOTE] + value + [QUOTE];
    }
    result := [QUOTE];
    for i := 0 to |value|
      invariant result == [QUOTE] + Escaped(value[..i])
    {
      EscapedAppend(value[..i], value[i]);
      assert value[..i] + [value[i]] == value[..i + 1];
      result := result + EscapeByte(value[i]);
    }
    assert value[..|value|] == value;
    result := result + [QUOTE];
  }

  // ---- reading it back ----

  /** Inside quotes the lexer passes over a printed byte whole. */
  lemma ReadStringByte(doc: Text, p: nat, c: Byte)
    requires TextAt(doc, p, EscapeByte(c))
    ensures Lexer.ReadString(doc, p) == Lexer.ReadString(doc, p + |EscapeByte(c)|)
  {
    var t := EscapeByte(c);
    TextAtByte(doc, p, t, 0);
    if |t| > 1 {
      TextAtByte(doc, p, t, 1);
    }
    if |t| == 6 {
      TextAtByte(doc, p, t, 2);
      TextAtByte(doc, p, t, 3);
      TextAtByte(doc, p, t, 4);
      TextAtByte(doc, p, t, 5);
      assert Lexer.ReadString(doc, p) == Lexer.ReadString(doc, p + 2);
      assert Lexer.ReadString(doc, p + 2) == Lexer.ReadString(doc, p + 3) == Lexer.ReadString(doc, p + 4);
      assert Lexer.ReadString(doc, p + 4) == Lexer.ReadString(doc, p + 5) == Lexer.ReadString(doc, p + 6);
    }
  }

  lemma {:induction false} ReadStringEscaped(doc: Text, p: nat, s: Text)
    requires TextAt(doc, p, Escaped(s) + [QUOTE])
    ensures Lexer.ReadString(doc, p) == Lexer.Scan(true, p + |Escaped(s)| + 1)
    decreases s
  {
    hide EscapeByte;
    if s == [] {
      TextAtByte(doc, p, Escaped(s) + [QUOTE], 0);
    } else {
      var first, rest := EscapeByte(s[0]), Escaped(s[1..]) + [QUOTE];
      assert Escaped(s) + [QUOTE] == first + rest;
      TextAtConcat(doc, p, first, rest);
      ReadStringByte(doc, p, s[0]);
      ReadStringEscaped(doc, p + |first|, s[1..]);
    }
  }

  /** Whatever follows, the lexer stops exactly at the closing quote. */
  lemma QuotedIsOneToken(doc: Text, p: nat, s: Text)
    requires TextAt(doc, p, Quoted(s))
    ensures Lexer.ReadToken(doc, p) == Lexer.Token(Lexer.StringToken, p, p + |Quoted(s)|)
  {
    assert Quoted(s) == [QUOTE] + (Escaped(s) + [QUOTE]);
    TextAtConcat(doc, p, [QUOTE], Escaped(s) + [QUOTE]);
    TextAtByte(doc, p, [QUOTE], 0);
    ReadStringEscaped(doc, p + 1, s);
  }

  lemma DecodeByte(t: Text, i: nat, end: nat, c: Byte)
    requires TextAt(t, i, EscapeByte(c)) && i + |EscapeByte(c)| <= end <= |t|
    ensures t[i] != QUOTE && DecodeChar(t, i, end) == Char([c], i + |EscapeByte(c)|)
  {
    var e := EscapeByte(c);
    TextAtByte(t, i, e, 0);
    if |e| > 1 {
      TextAtByte(t, i, e, 1);
    }
    if |e| == 6 {
      TextAtByte(t, i, e, 2);
      TextAtByte(t, i, e, 3);
      TextAtByte(t, i, e, 4);
      TextAtByte(t, i, e, 5);
      HexByte(t, i + 2, c);
      assert EscapeSequence(t, i + 2, end) == Unit(c, i + 6);
      assert CodePoint(t, i + 2, end) == Unit(c, i + 6);
    }
  }

  /** The four digits a control byte is printed with denote it. */
  lemma HexByte(t: Text, i: nat, c: Byte)
    requires i + 4 <= |t| && t[i] == t[i + 1] == ZERO
    requires t[i + 2] == HexDigit(c / 16) && t[i + 3] == HexDigit(c % 16)
    ensures HexDigits(t, i, i + 4, 0) == Unit(c, i + 4)
  {
    assert HexValue(t[i + 2]) == Some(c / 16) && HexValue(t[i + 3]) == Some(c % 16);
    calc {
      HexDigits(t, i, i + 4, 0);
      HexDigits(t, i + 1, i + 4, 0);
      HexDigits(t, i + 2, i + 4, 0);
      HexDigits(t, i + 3, i + 4, c / 16);
      HexDigits(t, i + 4, i + 4, c);
    }
  }

  lemma DecodeStep(t: Text, i: nat, end: nat, c: Byte)
    requires TextAt(t, i, EscapeByte(c)) && i + |EscapeByte(c)| <= end <= |t|
    ensures DecodeChars(t, i, end) == Prepend([c], DecodeChars(t, i + |EscapeByte(c)|, end))
  {
    DecodeByte(t, i, end, c);
  }

  lemma {:induction false} DecodeEscaped(t: Text, i: nat, s: Text, end: nat)
    requires TextAt(t, i, Escaped(s)) && i + |Escaped(s)| == end <= |t|
    ensures DecodeChars(t, i, end) == Bytes(s)
    decreases s
  {
    hide EscapeByte, DecodeChar;
    if s != [] {
      var first, rest := EscapeByte(s[0]), Escaped(s[1..]);
      TextAtConcat(t, i, first, rest);
      DecodeStep(t, i, end, s[0]);
      DecodeEscaped(t, i + |first|, s[1..], end);
      assert [s[0]] + s[1..] == s;
    }
  }

  /** The decoder gives back the bytes that were quoted, zero and control bytes included. */
  lemma DecodeQuoted(s: Text)
    ensures Decoding.DecodeString(Quoted(s)) == Bytes(s)
  {
    var t := Quoted(s);
    WholeText(t);
    TextAtConcat(t, 0, [QUOTE] + Escaped(s), [QUOTE]);
    TextAtConcat(t, 0, [QUOTE], Escaped(s));
    DecodeEscaped(t, 1, s, |t| - 1);
  }
}
