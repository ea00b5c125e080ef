/** JSON texts by the grammar of RFC 8259, as concrete syntax trees with all their white space. */
module Grammar {
  import opened Bytes
  import opened Values
  import opened Lexer
  import opened Unicode
  import opened Spelling
  import opened Rendering

  /** A value of section 3. Numbers and strings carry their text; `blank` is the white space of an empty list. */
  datatype Syntax =
    | NullLiteral
    | BooleanLiteral(b: bool)
    | NumberLiteral(text: Text)
    | StringLiteral(text: Text)
    | List(isArray: bool, blank: Text, items: seq<Item>)

  /** An element, or a member with its name and its colon, between white space. */
  datatype Item = Item(lead: Text, name: Text, colon: Text, value: Syntax, trail: Text)

  // ---- numbers: section 6 ----

  predicate Digits(t: Text, i: nat, j: nat) {
    i < j <= |t| && forall k | i <= k < j :: 0x30 <= t[k] <= 0x39
  }

  function AfterMinus(t: Text): nat {
    if t != [] && t[0] == MINUS then 1 else 0
  }

  function AfterSign(t: Text, i: nat): nat {
    if i < |t| && (t[i] == 0x2B || t[i] == 0x2D) then i + 1 else i
  }

  /** The integer part ends at `d` and the fraction at `f`. */
  predicate NumberParts(t: Text, d: nat, f: nat) {
    var i := AfterMinus(t);
    && Digits(t, i, d) && (t[i] == ZERO ==> d == i + 1)
    && d <= f <= |t| && (f == d || (t[d] == DOT && Digits(t, d + 1, f)))
    && (f == |t| || ((t[f] == 0x65 || t[f] == 0x45) && Digits(t, AfterSign(t, f + 1), |t|)))
  }

  ghost predicate IsNumber(t: Text) {
    exists d: nat, f: nat :: NumberParts(t, d, f)
  }

  // ---- strings: section 7 ----

  /** What a letter after a backslash stands for: quotation mark, reverse solidus, solidus, backspace, form feed, line
      feed, carriage return and tab. */
  function EscapeLetter(c: Byte): Option<Byte> {
    match c
    case 0x22 => Some(0x22)
    case 0x5C => Some(0x5C)
    case 0x2F => Some(0x2F)
    case 0x62 => Some(0x08)
    case 0x66 => Some(0x0C)
    case 0x6E => Some(0x0A)
    case 0x72 => Some(0x0D)
    case 0x74 => Some(0x09)
    case _ => None
  }

  predicate UnitEscapeAt(t: Text, i: nat, end: nat)
    requires end <= |t|
  {
    i + 6 <= end && IsUnit(t, i)
  }

  /** The place after the byte or escape at `i`, if there is one; control bytes are told apart elsewhere. */
  function CharEnd(t: Text, i: nat, end: nat): (r: Option<nat>)
    requires i < end <= |t|
    ensures r.Some? ==> i < r.value <= end
  {
    if t[i] != BACKSLASH then if t[i] == QUOTE then None else Some(i + 1)
    else if UnitEscapeAt(t, i, end) then Some(i + 6)
    else if i + 1 < end && EscapeLetter(t[i + 1]).Some? then Some(i + 2)
    else None
  }

  predicate IsBody(t: Text, i: nat, end: nat)
    requires i <= end <= |t|
    decreases end - i
  {
    i == end || (CharEnd(t, i, end).Some? && IsBody(t, CharEnd(t, i, end).value, end))
  }

  /** Quotes around bytes and escapes, control bytes included. */
  predicate IsRawString(t: Text) {
    2 <= |t| && t[0] == QUOTE && t[|t| - 1] == QUOTE && IsBody(t, 1, |t| - 1)
  }

  predicate IsString(t: Text) {
    IsRawString(t) && forall i | 0 <= i < |t| :: t[i] >= 0x20
  }

  // ---- well-formed texts ----

  ghost predicate WellFormed(j: Syntax) {
    match j
    case NullLiteral => true
    case BooleanLiteral(_) => true
    case NumberLiteral(t) => IsNumber(t)
    case StringLiteral(t) => IsString(t)
    case List(isArray, blank, items) =>
      AllSpaces(blank) && forall i | 0 <= i < |items| :: WellFormedItem(isArray, items[i]) && WellFormed(items[i].value)
  }

  ghost predicate WellFormedItem(isArray: bool, e: Item) {
    && AllSpaces(e.lead) && AllSpaces(e.trail)
    && if isArray then e.name == [] && e.colon == [] else IsString(e.name) && IsColonSymbol(e.colon)
  }

  function ItemText(e: Item): Text
    decreases e, 1
  {
    e.lead + (e.name + e.colon) + (SyntaxText(e.value) + e.trail)
  }

  function ItemTexts(j: Syntax): (ts: seq<Text>)
    requires j.List?
    ensures |ts| == |j.items|
    decreases j, 0
  {
    seq(|j.items|, i requires 0 <= i < |j.items| => ItemText(j.items[i]))
  }

  /** An empty container of the same type, for its brackets. */
  function Shell(j: Syntax): Value
    requires j.List?
  {
    if j.isArray then Value(Array([]), 0, 0) else Value(Object([]), 0, 0)
  }

  function Inside(j: Syntax): Text
    requires j.List?
    decreases j, 1
  {
    if j.items == [] then j.blank else Joined([COMMA], ItemTexts(j))
  }

  function SyntaxText(j: Syntax): Text
    decreases j, 2
  {
    match j
    case NullLiteral => NULL_TEXT
    case BooleanLiteral(b) => if b then TRUE_TEXT else FALSE_TEXT
    case NumberLiteral(t) => t
    case StringLiteral(t) => t
    case List(_, _, _) => BeginWord(Shell(j)).text + Inside(j) + EndWord(Shell(j)).text
  }

  // ---- its tokens ----

  function NameWords(isArray: bool, e: Item): seq<Word> {
    if isArray then [] else [Word(StringToken, e.name), NAME_SEPARATOR]
  }

  function ItemWords(j: Syntax): (ws: seq<seq<Word>>)
    requires j.List?
    ensures |ws| == |j.items|
    decreases j, 0
  {
    seq(|j.items|, i requires 0 <= i < |j.items| => NameWords(j.isArray, j.items[i]) + SyntaxWords(j.items[i].value))
  }

  function SyntaxWords(j: Syntax): seq<Word>
    decreases j, 1
  {
    match j
    case NullLiteral => [Word(NullToken, NULL_TEXT)]
    case BooleanLiteral(b) => [if b then Word(TrueToken, TRUE_TEXT) else Word(FalseToken, FALSE_TEXT)]
    case NumberLiteral(t) => [Word(NumberToken, t)]
    case StringLiteral(t) => [Word(StringToken, t)]
    case List(_, _, _) => [BeginWord(Shell(j))] + Joined([SEPARATOR], ItemWords(j)) + [EndWord(Shell(j))]
  }

  // ---- the lexer finds them ----

  lemma DigitsScannedTo(doc: Text, p: nat, t: Text, i: nat, j: nat)
    requires TextAt(doc, p, t) && i <= j <= |t| && (forall k | i <= k < j :: IsDigit(t[k]))
    requires p + j < |doc| ==> !IsDigit(doc[p + j])
    ensures ScanDigits(doc, p + i) == p + j
  {
    forall k | p + i <= k < p + j ensures IsDigit(doc[k]) {
      TextAtByte(doc, p, t, k - p);
    }
    DigitsScanned(doc, p + i, p + j);
  }

  /** The byte of the document at a place of the text, or after it. */
  lemma ByteOfNumber(doc: Text, p: nat, t: Text, i: nat)
    requires TextAt(doc, p, t) && EndsNumber(doc, p + |t|) && i <= |t|
    ensures p + i < |doc| ==> (i < |t| && doc[p + i] == t[i]) || (i == |t| && !ExtendsNumber(doc[p + i]))
    ensures i < |t| ==> p + i < |doc|
  {
    if i < |t| {
      TextAtByte(doc, p, t, i);
    }
  }

  lemma FractionScanned(doc: Text, p: nat, t: Text, d: nat, f: nat)
    requires TextAt(doc, p, t) && EndsNumber(doc, p + |t|) && NumberParts(t, d, f)
    ensures ScanFraction(doc, p + d) == p + f
  {
    ByteOfNumber(doc, p, t, d);
    ByteOfNumber(doc, p, t, f);
    if f > d {
      DigitsScannedTo(doc, p, t, d + 1, f);
    }
  }

  lemma ExponentScanned(doc: Text, p: nat, t: Text, d: nat, f: nat)
    requires TextAt(doc, p, t) && EndsNumber(doc, p + |t|) && NumberParts(t, d, f)
    ensures ScanExponent(doc, p + f) == p + |t|
  {
    ByteOfNumber(doc, p, t, f);
    ByteOfNumber(doc, p, t, |t|);
    if f < |t| {
      ByteOfNumber(doc, p, t, f + 1);
      DigitsScannedTo(doc, p, t, AfterSign(t, f + 1), |t|);
    }
  }

  lemma NumberIsToken(doc: Text, p: nat, t: Text)
    requires TextAt(doc, p, t) && EndsNumber(doc, p + |t|) && IsNumber(t)
    ensures ReadToken(doc, p) == Token(NumberToken, p, p + |t|)
  {
    hide ScanDigits, ScanFraction, ScanExponent;
    var d: nat, f: nat :| NumberParts(t, d, f);
    ByteOfNumber(doc, p, t, 0);
    ByteOfNumber(doc, p, t, d);
    DigitsScannedTo(doc, p, t, 1, d);
    FractionScanned(doc, p, t, d, f);
    ExponentScanned(doc, p, t, d, f);
    NumberAt(doc, p, p + |t|);
  }

  lemma NumberAt(doc: Text, p: nat, q: nat)
    requires p < |doc| && (IsDigit(doc[p]) || doc[p] == MINUS) && ReadNumber(doc, p + 1) == q
    ensures ReadToken(doc, p) == Token(NumberToken, p, q)
  {
    hide ReadNumber;
  }

  lemma {:induction false} BodyScanned(doc: Text, p: nat, t: Text, i: nat, end: nat)
    requires TextAt(doc, p, t) && i <= end < |t| && t[end] == QUOTE && IsBody(t, i, end)
    ensures ReadString(doc, p + i) == Scan(true, p + end + 1)
    decreases end - i
  {
    TextAtByte(doc, p, t, i);
    if i < end {
      var next := CharEnd(t, i, end).value;
      TextAtByte(doc, p, t, i + 1);
      BodyScanned(doc, p, t, next, end);
      if UnitEscapeAt(t, i, end) {
        UnitScanned(doc, p, t, i, end);
      }
    }
  }

  /** The four digits hide no quote. */
  lemma UnitScanned(doc: Text, p: nat, t: Text, i: nat, end: nat)
    requires TextAt(doc, p, t) && end < |t| && UnitEscapeAt(t, i, end)
    ensures ReadString(doc, p + i) == ReadString(doc, p + i + 6)
  {
    hide IsHexDigit, HexCode, ReadString;
    TextAtByte(doc, p, t, i);
    HexScanned(doc, p, t, i + 2);
    HexScanned(doc, p, t, i + 3);
    HexScanned(doc, p, t, i + 4);
    HexScanned(doc, p, t, i + 5);
    BackslashScanned(doc, p + i);
  }

  lemma BackslashScanned(doc: Text, p: nat)
    requires p + 1 < |doc| && doc[p] == BACKSLASH
    ensures ReadString(doc, p) == ReadString(doc, p + 2)
  {
  }

  lemma HexScanned(doc: Text, p: nat, t: Text, i: nat)
    requires TextAt(doc, p, t) && i < |t| && IsHexDigit(t[i])
    ensures ReadString(doc, p + i) == ReadString(doc, p + i + 1)
  {
    TextAtByte(doc, p, t, i);
  }

  lemma StringIsToken(doc: Text, p: nat, t: Text)
    requires TextAt(doc, p, t) && IsString(t)
    ensures ReadToken(doc, p) == Token(StringToken, p, p + |t|)
  {
    TextAtByte(doc, p, t, 0);
    BodyScanned(doc, p, t, 1, |t| - 1);
    StringAt(doc, p, p + |t|);
  }

  lemma StringAt(doc: Text, p: nat, q: nat)
    requires p < |doc| && doc[p] == QUOTE && ReadString(doc, p + 1) == Scan(true, q)
    ensures ReadToken(doc, p) == Token(StringToken, p, q)
  {
    hide ReadString;
  }

  lemma StringTokenRenders(t: Text)
    requires IsString(t)
    ensures RendersClosed(t, [Word(StringToken, t)])
  {
    forall doc: Text, p: nat | TextAt(doc, p, t) ensures ReadToken(doc, p) == Token(StringToken, p, p + |t|) {
      StringIsToken(doc, p, t);
    }
    WordRenders(Word(StringToken, t));
  }

  lemma NumberTokenRenders(t: Text)
    requires IsNumber(t)
    ensures Renders(t, [Word(NumberToken, t)])
  {
    hide IsNumber;
    forall doc: Text, p: nat | TextAt(doc, p, t) && EndsNumber(doc, p + |t|)
      ensures Spells(doc, p, [Word(NumberToken, t)], p + |t|)
    {
      NumberIsToken(doc, p, t);
      SpellsWord(doc, p, Word(NumberToken, t), p + |t|);
    }
  }

  lemma MemberNameRenders(e: Item)
    requires WellFormedItem(false, e)
    ensures RendersClosed(e.name + e.colon, NameWords(false, e))
  {
    hide RendersClosed, IsString;
    StringTokenRenders(e.name);
    ColonRenders(e.colon);
    ClosedConcat(e.name, [Word(StringToken, e.name)], e.colon, [NAME_SEPARATOR]);
    assert NameWords(false, e) == [Word(StringToken, e.name)] + [NAME_SEPARATOR];
  }

  lemma ItemRenders(isArray: bool, e: Item)
    requires WellFormedItem(isArray, e) && Renders(SyntaxText(e.value), SyntaxWords(e.value))
    ensures Renders(ItemText(e), NameWords(isArray, e) + SyntaxWords(e.value))
  {
    hide Renders, RendersClosed, SyntaxText, SyntaxWords, NameWords;
    var name, words := e.name + e.colon, SyntaxWords(e.value);
    if isArray {
      BlankRenders(name);
      NoNameWords(e);
    } else {
      MemberNameRenders(e);
    }
    BlankRenders(e.lead);
    ClosedConcat(e.lead, [], name, NameWords(isArray, e));
    assert [] + NameWords(isArray, e) == NameWords(isArray, e);
    BlankRenders(e.trail);
    ClosedRenders(e.trail, []);
    SpaceEnds(e.trail);
    RendersBefore(SyntaxText(e.value), words, e.trail, []);
    assert words + [] == words;
    RendersAfterClosed(e.lead + name, NameWords(isArray, e), SyntaxText(e.value) + e.trail, words);
  }

  lemma NoNameWords(e: Item)
    ensures NameWords(true, e) == []
  {
  }

  lemma SpaceEnds(t: Text)
    requires AllSpaces(t)
    ensures t != [] ==> !ExtendsNumber(t[0])
  {
  }

  lemma InsideRenders(j: Syntax)
    requires j.List? && AllSpaces(j.blank)
    requires forall i | 0 <= i < |j.items| :: Renders(ItemTexts(j)[i], ItemWords(j)[i])
    ensures Renders(Inside(j), Joined([SEPARATOR], ItemWords(j)))
  {
    hide Renders, ItemTexts, ItemWords;
    if j.items == [] {
      BlankRenders(j.blank);
      ClosedRenders(j.blank, []);
    } else {
      PunctuationRenders(SEPARATOR);
      JoinedRenders([COMMA], SEPARATOR, ItemTexts(j), ItemWords(j));
    }
  }

  /** A well-formed text reads as its tokens wherever it stands; only a number cares for what follows. */
  lemma {:induction false} SyntaxRenders(j: Syntax)
    requires WellFormed(j)
    ensures Renders(SyntaxText(j), SyntaxWords(j))
    ensures !j.NumberLiteral? ==> RendersClosed(SyntaxText(j), SyntaxWords(j))
    decreases j
  {
    hide Renders, RendersClosed, IsNumber, IsString, ItemText;
    match j {
      case NullLiteral =>
        LiteralRenders(Word(NullToken, NULL_TEXT));
        ClosedRenders(NULL_TEXT, [Word(NullToken, NULL_TEXT)]);
      case BooleanLiteral(b) =>
        LiteralRenders(if b then Word(TrueToken, TRUE_TEXT) else Word(FalseToken, FALSE_TEXT));
        ClosedRenders(SyntaxText(j), SyntaxWords(j));
      case NumberLiteral(t) => NumberTokenRenders(t);
      case StringLiteral(t) =>
        StringTokenRenders(t);
        ClosedRenders(t, [Word(StringToken, t)]);
      case List(isArray, _, items) =>
        forall i | 0 <= i < |items| ensures Renders(ItemTexts(j)[i], ItemWords(j)[i]) {
          SyntaxRenders(items[i].value);
          ItemRenders(isArray, items[i]);
        }
        InsideRenders(j);
        BracketsRender(Shell(j), Inside(j), Joined([SEPARATOR], ItemWords(j)));
        ClosedRenders(SyntaxText(j), SyntaxWords(j));
    }
  }
}
