/** Texts that read as given tokens wherever they stand. */
module Rendering {
  import opened Bytes
  import opened Values
  import opened Lexer
  import opened Numerals
  import opened Escaping
  import opened Spelling

  function ScalarText(drop: bool, p: Payload): Text
    requires !p.Array? && !p.Object?
  {
    match p
    case Null => if drop then [] else NULL_TEXT
    case Int(i) => IntText(i)
    case UInt(u) => Decimal(u)
    case Real(t) => t
    case String(s) => Quoted(s)
    case Boolean(b) => if b then TRUE_TEXT else FALSE_TEXT
  }

  // ---- texts and tokens ----

  /** A byte that would make a number before it longer. */
  predicate ExtendsNumber(b: Byte) {
    IsDigit(b) || b == DOT || IsExponentMark(b)
  }

  predicate EndsNumber(doc: Text, q: nat) {
    q < |doc| ==> !ExtendsNumber(doc[q])
  }

  /** Wherever it stands, the text reads as the words, provided no number goes on after it. */
  ghost predicate Renders(t: Text, ws: seq<Word>) {
    forall doc: Text, p: nat | TextAt(doc, p, t) && EndsNumber(doc, p + |t|) :: Spells(doc, p, ws, p + |t|)
  }

  /** The same whatever follows. */
  ghost predicate RendersClosed(t: Text, ws: seq<Word>) {
    forall doc: Text, p: nat | TextAt(doc, p, t) :: Spells(doc, p, ws, p + |t|)
  }

  lemma ClosedRenders(t: Text, ws: seq<Word>)
    requires RendersClosed(t, ws)
    ensures Renders(t, ws)
  {
  }

  /** The two halves of a concatenation, each read where it stands. */
  lemma HalvesSpell(doc: Text, p: nat, a: Text, x: seq<Word>, b: Text, y: seq<Word>, m: nat, q: nat)
    requires TextAt(doc, p, a + b) && m == p + |a| && q == m + |b|
    requires TextAt(doc, p, a) ==> Spells(doc, p, x, m)
    requires TextAt(doc, m, b) ==> Spells(doc, m, y, q)
    ensures Spells(doc, p, x + y, q)
  {
    hide Spells, TextAt;
    TextAtConcat(doc, p, a, b);
    SpellsConcat(doc, p, x, m, y, q);
  }

  lemma RendersAfterClosed(a: Text, x: seq<Word>, b: Text, y: seq<Word>)
    requires RendersClosed(a, x) && Renders(b, y)
    ensures Renders(a + b, x + y)
  {
    hide Spells;
    forall doc: Text, p: nat | TextAt(doc, p, a + b) && EndsNumber(doc, p + |a + b|)
      ensures Spells(doc, p, x + y, p + |a + b|)
    {
      HalvesSpell(doc, p, a, x, b, y, p + |a|, p + |a| + |b|);
    }
  }

  lemma ClosedConcat(a: Text, x: seq<Word>, b: Text, y: seq<Word>)
    requires RendersClosed(a, x) && RendersClosed(b, y)
    ensures RendersClosed(a + b, x + y)
  {
    hide Spells;
    forall doc: Text, p: nat | TextAt(doc, p, a + b) ensures Spells(doc, p, x + y, p + |a + b|) {
      HalvesSpell(doc, p, a, x, b, y, p + |a|, p + |a| + |b|);
    }
  }

  /** A number may end where the next text starts. */
  lemma RendersBefore(a: Text, x: seq<Word>, b: Text, y: seq<Word>)
    requires Renders(a, x) && Renders(b, y)
    requires b != [] ==> !ExtendsNumber(b[0])
    ensures Renders(a + b, x + y)
  {
    hide Spells;
    forall doc: Text, p: nat | TextAt(doc, p, a + b) && EndsNumber(doc, p + |a + b|)
      ensures Spells(doc, p, x + y, p + |a + b|)
    {
      FirstByteEnds(doc, p, a, b);
      HalvesSpell(doc, p, a, x, b, y, p + |a|, p + |a| + |b|);
    }
  }

  lemma FirstByteEnds(doc: Text, p: nat, a: Text, b: Text)
    requires TextAt(doc, p, a + b)
    requires if b == [] then EndsNumber(doc, p + |a|) else !ExtendsNumber(b[0])
    ensures EndsNumber(doc, p + |a|)
  {
  }

  lemma ClosedBefore(a: Text, x: seq<Word>, b: Text, y: seq<Word>)
    requires Renders(a, x) && RendersClosed(b, y)
    requires b != [] && !ExtendsNumber(b[0])
    ensures RendersClosed(a + b, x + y)
  {
    hide Spells;
    forall doc: Text, p: nat | TextAt(doc, p, a + b) ensures Spells(doc, p, x + y, p + |a + b|) {
      FirstByteEnds(doc, p, a, b);
      HalvesSpell(doc, p, a, x, b, y, p + |a|, p + |a| + |b|);
    }
  }

  /** A text that is a document but for white space after it. */
  lemma RendersDocument(t: Text, ws: seq<Word>, doc: Text)
    requires Renders(t, ws) && |t| <= |doc| && doc[..|t|] == t && AllSpaces(doc[|t|..])
    ensures Spells(doc, 0, ws, |doc|)
  {
    assert TextAt(doc, 0, t);
    forall i | |t| <= i < |doc| ensures IsSpace(doc[i]) {
      assert doc[i] == doc[|t|..][i - |t|];
    }
    SpellsConcat(doc, 0, ws, |t|, [], |doc|);
    assert ws + [] == ws;
  }

  // ---- one token ----

  lemma WordRenders(w: Word)
    requires forall doc: Text, p: nat | TextAt(doc, p, w.text) :: ReadToken(doc, p) == Token(w.kind, p, p + |w.text|)
    ensures RendersClosed(w.text, [w])
  {
    forall doc: Text, p: nat | TextAt(doc, p, w.text) ensures Spells(doc, p, [w], p + |w.text|) {
      SpellsWord(doc, p, w, p + |w.text|);
    }
  }

  lemma BlankRenders(t: Text)
    requires AllSpaces(t)
    ensures RendersClosed(t, [])
  {
    forall doc: Text, p: nat | TextAt(doc, p, t) ensures Blank(doc, p, p + |t|) {
      forall i | p <= i < p + |t| ensures IsSpace(doc[i]) {
        TextAtByte(doc, p, t, i - p);
      }
    }
  }

  lemma StringRenders(s: Text)
    ensures RendersClosed(Quoted(s), [Word(StringToken, Quoted(s))])
  {
    forall doc: Text, p: nat | TextAt(doc, p, Quoted(s))
      ensures ReadToken(doc, p) == Token(StringToken, p, p + |Quoted(s)|)
    {
      QuotedIsOneToken(doc, p, s);
    }
    WordRenders(Word(StringToken, Quoted(s)));
  }

  predicate IsLiteral(w: Word) {
    w in {Word(NullToken, NULL_TEXT), Word(TrueToken, TRUE_TEXT), Word(FalseToken, FALSE_TEXT)}
  }

  lemma LiteralRenders(w: Word)
    requires IsLiteral(w)
    ensures RendersClosed(w.text, [w])
  {
    forall doc: Text, p: nat | TextAt(doc, p, w.text) ensures ReadToken(doc, p) == Token(w.kind, p, p + |w.text|) {
      TextAtByte(doc, p, w.text, 0);
      assert w.text == w.text[..1] + w.text[1..];
      TextAtConcat(doc, p, w.text[..1], w.text[1..]);
    }
    WordRenders(w);
  }

  /** The words whose text is one byte. */
  predicate IsPunctuation(w: Word) {
    w in {OBJECT_BEGIN, OBJECT_END, ARRAY_BEGIN, ARRAY_END, SEPARATOR, NAME_SEPARATOR}
  }

  lemma PunctuationRenders(w: Word)
    requires IsPunctuation(w)
    ensures RendersClosed(w.text, [w])
  {
    forall doc: Text, p: nat | TextAt(doc, p, w.text) ensures ReadToken(doc, p) == Token(w.kind, p, p + |w.text|) {
      TextAtByte(doc, p, w.text, 0);
    }
    WordRenders(w);
  }

  lemma {:induction false} DigitsScanned(doc: Text, p: nat, q: nat)
    requires p <= q <= |doc| && forall i | p <= i < q :: IsDigit(doc[i])
    requires q < |doc| ==> !IsDigit(doc[q])
    ensures ScanDigits(doc, p) == q
    decreases q - p
  {
    if p < q {
      DigitsScanned(doc, p + 1, q);
    }
  }

  lemma DigitsAreOneToken(doc: Text, p: nat, q: nat)
    requires p < q <= |doc| && (IsDigit(doc[p]) || doc[p] == MINUS) && EndsNumber(doc, q)
    requires forall k | p + 1 <= k < q :: IsDigit(doc[k])
    ensures ReadToken(doc, p) == Token(NumberToken, p, q)
  {
    DigitsScanned(doc, p + 1, q);
  }

  lemma NumberIsOneToken(doc: Text, p: nat, i: int)
    requires TextAt(doc, p, IntText(i)) && EndsNumber(doc, p + |IntText(i)|)
    ensures ReadToken(doc, p) == Token(NumberToken, p, p + |IntText(i)|)
  {
    hide ReadToken;
    var t := IntText(i);
    DecimalShape(if i < 0 then -i else i);
    forall k | 0 <= k < |t| ensures doc[p + k] == t[k] && (IsDigit(t[k]) || (k == 0 && t[k] == MINUS)) {
      TextAtByte(doc, p, t, k);
    }
    assert doc[p] == t[0];
    forall k | p + 1 <= k < p + |t| ensures IsDigit(doc[k]) {
      assert doc[p + (k - p)] == t[k - p];
    }
    DigitsAreOneToken(doc, p, p + |t|);
  }

  lemma NumberRenders(i: int)
    ensures Renders(IntText(i), [Word(NumberToken, IntText(i))])
  {
    forall doc: Text, p: nat | TextAt(doc, p, IntText(i)) && EndsNumber(doc, p + |IntText(i)|)
      ensures Spells(doc, p, [Word(NumberToken, IntText(i))], p + |IntText(i)|)
    {
      NumberIsOneToken(doc, p, i);
      SpellsWord(doc, p, Word(NumberToken, IntText(i)), p + |IntText(i)|);
    }
  }

  lemma ScalarRenders(drop: bool, v: Value)
    requires !IsContainer(v) && !v.payload.Real?
    ensures Renders(ScalarText(drop, v.payload), Words(drop, v))
  {
    var t, ws := ScalarText(drop, v.payload), Words(drop, v);
    match v.payload {
      case Null =>
        if drop {
          BlankRenders([]);
        } else {
          LiteralRenders(Word(NullToken, NULL_TEXT));
        }
        ClosedRenders(t, ws);
      case Boolean(b) =>
        LiteralRenders(if b then Word(TrueToken, TRUE_TEXT) else Word(FalseToken, FALSE_TEXT));
        ClosedRenders(t, ws);
      case Int(i) => NumberRenders(i);
      case UInt(u) => NumberRenders(u);
      case String(s) =>
        StringRenders(s);
        ClosedRenders(t, ws);
    }
  }

  /** A colon with white space around it, the colon at `i`. */
  predicate ColonAt(colon: Text, i: nat) {
    i < |colon| && colon[i] == COLON && AllSpaces(colon[..i]) && AllSpaces(colon[i + 1..])
  }

  ghost predicate IsColonSymbol(colon: Text) {
    exists i: nat :: ColonAt(colon, i)
  }

  lemma ColonRenders(colon: Text)
    requires IsColonSymbol(colon)
    ensures RendersClosed(colon, [NAME_SEPARATOR])
  {
    var i: nat :| ColonAt(colon, i);
    var before, after := colon[..i], colon[i + 1..];
    assert colon == before + ([COLON] + after);
    BlankRenders(before);
    PunctuationRenders(NAME_SEPARATOR);
    BlankRenders(after);
    ClosedConcat([COLON], [NAME_SEPARATOR], after, []);
    assert [NAME_SEPARATOR] + [] == [NAME_SEPARATOR];
    ClosedConcat(before, [], [COLON] + after, [NAME_SEPARATOR]);
    assert [] + [NAME_SEPARATOR] == [NAME_SEPARATOR];
  }

  lemma NameRenders(name: Text, colon: Text)
    requires IsColonSymbol(colon)
    ensures RendersClosed(Quoted(name) + colon, KeyWords(Name(name)))
  {
    hide RendersClosed;
    ColonRenders(colon);
    StringRenders(name);
    ClosedConcat(Quoted(name), [Word(StringToken, Quoted(name))], colon, [NAME_SEPARATOR]);
    assert KeyWords(Name(name)) == [Word(StringToken, Quoted(name))] + [NAME_SEPARATOR];
  }

  // ---- lists ----

  /** A separator that stands on its own, with or without white space around it. */
  ghost predicate IsSeparator(sep: Text, word: Word) {
    RendersClosed(sep, [word]) && sep != [] && !ExtendsNumber(sep[0])
  }

  lemma {:induction false} SeparatedRenders(sep: Text, word: Word, parts: seq<Text>, words: seq<seq<Word>>, i: nat)
    requires IsSeparator(sep, word) && |parts| == |words| && i <= |parts|
    requires forall k | 0 <= k < |parts| :: Renders(parts[k], words[k])
    ensures Renders(Separated(sep, parts, i), Separated([word], words, i))
    ensures Separated(sep, parts, i) != [] ==> !ExtendsNumber(Separated(sep, parts, i)[0])
    decreases |parts| - i
  {
    if i == |parts| {
      BlankRenders([]);
    } else {
      SeparatedRenders(sep, word, parts, words, i + 1);
      RendersAfterClosed(sep, [word], parts[i], words[i]);
      RendersBefore(sep + parts[i], [word] + words[i],
                    Separated(sep, parts, i + 1), Separated([word], words, i + 1));
    }
  }

  lemma JoinedRenders(sep: Text, word: Word, parts: seq<Text>, words: seq<seq<Word>>)
    requires IsSeparator(sep, word) && |parts| == |words|
    requires forall k | 0 <= k < |parts| :: Renders(parts[k], words[k])
    ensures Renders(Joined(sep, parts), Joined([word], words))
  {
    if parts == [] {
      BlankRenders([]);
    } else {
      SeparatedRenders(sep, word, parts, words, 1);
      RendersBefore(parts[0], words[0], Separated(sep, parts, 1), Separated([word], words, 1));
    }
  }

  /** Brackets with a list between them. */
  lemma BracketsRender(v: Value, list: Text, words: seq<Word>)
    requires IsContainer(v) && Renders(list, words)
    ensures RendersClosed(BeginWord(v).text + list + EndWord(v).text, [BeginWord(v)] + words + [EndWord(v)])
  {
    PunctuationRenders(BeginWord(v));
    PunctuationRenders(EndWord(v));
    RendersAfterClosed(BeginWord(v).text, [BeginWord(v)], list, words);
    ClosedBefore(BeginWord(v).text + list, [BeginWord(v)] + words, EndWord(v).text, [EndWord(v)]);
  }
}
