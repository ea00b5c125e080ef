/** Bytes, the ASCII characters the JSON code names, and texts at a position of a document. */
module Bytes {

  type Byte = b: int | 0 <= b < 256
  type Text = seq<Byte>

  datatype Option<+T> = None | Some(value: T)

  const NUL: Byte := 0x00
  const BS: Byte := 0x08
  const TAB: Byte := 0x09
  const LF: Byte := 0x0A
  const FF: Byte := 0x0C
  const CR: Byte := 0x0D
  const SPACE: Byte := 0x20
  const QUOTE: Byte := 0x22
  const STAR: Byte := 0x2A
  const PLUS: Byte := 0x2B
  const COMMA: Byte := 0x2C
  const MINUS: Byte := 0x2D
  const DOT: Byte := 0x2E
  const SLASH: Byte := 0x2F
  const ZERO: Byte := 0x30
  const NINE: Byte := 0x39
  const COLON: Byte := 0x3A
  const LBRACKET: Byte := 0x5B
  const BACKSLASH: Byte := 0x5C
  const RBRACKET: Byte := 0x5D
  const LBRACE: Byte := 0x7B
  const RBRACE: Byte := 0x7D

  const NULL_TEXT: Text := [0x6E, 0x75, 0x6C, 0x6C]
  const TRUE_TEXT: Text := [0x74, 0x72, 0x75, 0x65]
  const FALSE_TEXT: Text := [0x66, 0x61, 0x6C, 0x73, 0x65]

  predicate IsSpace(b: Byte) {
    b == SPACE || b == TAB || b == CR || b == LF
  }

  predicate IsDigit(b: Byte) {
    ZERO <= b <= NINE
  }

  /** An upper-case hexadecimal digit. */
  function HexDigit(d: nat): Byte
    requires d < 16
  {
    if d < 10 then ZERO + d else 0x41 + d - 10
  }

  predicate IsHexDigit(c: Byte) {
    0x30 <= c <= 0x39 || 0x41 <= c <= 0x46 || 0x61 <= c <= 0x66
  }

  /** The number of a hexadecimal digit; the low bits of a letter are those of its place in the alphabet. */
  function HexNumber(c: Byte): (d: nat)
    requires IsHexDigit(c)
    ensures d < 16
  {
    if c <= 0x39 then c - 0x30 else c % 0x20 + 9
  }

  /** White space of section 2 of RFC 8259: space, tab, line feed and carriage return. */
  predicate AllSpaces(t: Text) {
    forall i | 0 <= i < |t| :: t[i] == 0x20 || t[i] == 0x09 || t[i] == 0x0A || t[i] == 0x0D
  }

  /** `t` stands in `doc` at position `p`. */
  predicate TextAt(doc: Text, p: nat, t: Text) {
    p + |t| <= |doc| && doc[p..p + |t|] == t
  }

  lemma TextAtConcat(doc: Text, p: nat, a: Text, b: Text)
    ensures TextAt(doc, p, a + b) <==> TextAt(doc, p, a) && TextAt(doc, p + |a|, b)
  {
    if TextAt(doc, p, a + b) {
      assert a == doc[p..p + |a + b|][..|a|];
      assert b == doc[p..p + |a + b|][|a|..];
    }
  }

  lemma TextAtByte(doc: Text, p: nat, t: Text, i: nat)
    requires TextAt(doc, p, t) && i < |t|
    ensures doc[p + i] == t[i]
  {
  }

  lemma WholeText(t: Text)
    ensures TextAt(t, 0, t)
  {
  }

  lemma Associate<T>(a: seq<T>, b: seq<T>, c: seq<T>)
    ensures a + b + c == a + (b + c)
  {
  }

  lemma TakeAllButLast<T>(s: seq<T>, x: T)
    ensures (s + [x])[..|s + [x]| - 1] == s
    ensures (s + [x])[|s + [x]| - 1] == x
  {
  }

  lemma TakeOneMore<T>(s: seq<T>, i: nat)
    requires i < |s|
    ensures s[..i + 1] == s[..i] + [s[i]]
  {
  }

  // ---- joining parts with a separator ----

  /** Parts `i` on, each after the separator. */
  function Separated<T>(sep: seq<T>, parts: seq<seq<T>>, i: nat): seq<T>
    requires i <= |parts|
    decreases |parts| - i
  {
    if i == |parts| then [] else sep + parts[i] + Separated(sep, parts, i + 1)
  }

  function Joined<T>(sep: seq<T>, parts: seq<seq<T>>): seq<T> {
    if parts == [] then [] else parts[0] + Separated(sep, parts, 1)
  }

  /** What is left to join when `i` parts are. */
  function Unjoined<T>(sep: seq<T>, parts: seq<seq<T>>, i: nat): seq<T>
    requires i <= |parts|
  {
    if i == 0 then Joined(sep, parts) else Separated(sep, parts, i)
  }

  /** A part with the separator before it, if it is not the first. */
  function Piece<T>(sep: seq<T>, parts: seq<seq<T>>, i: nat): seq<T>
    requires i < |parts|
  {
    if i > 0 then sep + parts[i] else parts[i]
  }

  lemma JoinOne<T>(done: seq<T>, sep: seq<T>, parts: seq<seq<T>>, i: nat)
    requires i < |parts|
    ensures done + Unjoined(sep, parts, i) == done + Piece(sep, parts, i) + Unjoined(sep, parts, i + 1)
  {
  }

  /** Part `i` and the rest. */
  function FromPart<T>(sep: seq<T>, parts: seq<seq<T>>, i: nat): seq<T>
    requires i < |parts|
  {
    parts[i] + Separated(sep, parts, i + 1)
  }

  /** A loop that writes a part, then the separator unless it was the last. */
  lemma JoinRound<T>(done: seq<T>, sep: seq<T>, parts: seq<seq<T>>, i: nat)
    requires i < |parts|
    ensures done + FromPart(sep, parts, i) ==
            if i + 1 == |parts| then done + parts[i] else done + parts[i] + sep + FromPart(sep, parts, i + 1)
  {
  }
}
