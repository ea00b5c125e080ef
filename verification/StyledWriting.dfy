/** BuiltStyledStreamWriter: the laid-out text of a value without comments, and that layout changes no token. */
module StyledWriting {
  import opened Bytes
  import opened Values
  import opened Escaping
  import opened Spelling
  import opened Rendering
  import FastWriting

  datatype Style = Style(indentation: Text, allComments: bool, colon: Text, dropNull: bool, ending: Text)

  /** White space only, around the colon too. */
  ghost predicate IsPlain(s: Style) {
    AllSpaces(s.indentation) && IsColonSymbol(s.colon) && AllSpaces(s.ending)
  }

  const RIGHT_MARGIN: int := 74

  function NewLine(s: Style, indent: Text): Text {
    if s.indentation == [] then [] else [LF] + indent
  }

  /** What writeWithIndent puts before its text. */
  function Lead(s: Style, indent: Text, indented: bool): Text {
    if indented then [] else NewLine(s, indent)
  }

  predicate IsFull(v: Value) {
    IsContainer(v) && v.payload.entries != []
  }

  /** The text of a scalar or an empty container. */
  function ShortText(s: Style, v: Value): Text
    requires !IsFull(v)
  {
    if v.payload.Array? then [LBRACKET, RBRACKET]
    else if v.payload.Object? then [LBRACE, RBRACE]
    else ScalarText(s.dropNull, v.payload)
  }

  predicate HasFullElement(v: Value)
    requires IsContainer(v)
  {
    exists i | 0 <= i < |v.payload.entries| :: IsFull(v.payload.entries[i].value)
  }

  function ShortTexts(s: Style, v: Value): (ts: seq<Text>)
    requires IsContainer(v) && !HasFullElement(v)
    ensures |ts| == |v.payload.entries|
  {
    seq(|v.payload.entries|, i requires 0 <= i < |v.payload.entries| => ShortText(s, v.payload.entries[i].value))
  }

  /** The length of a line with the texts up to `i` added. */
  function LineLength(ts: seq<Text>, i: nat): int
    requires i <= |ts|
  {
    if i == 0 then 4 + (|ts| - 1) * 2 else LineLength(ts, i - 1) + |ts[i - 1]|
  }

  /** isMultineArray, which counts in 32 bits. */
  predicate IsMultiLine(s: Style, v: Value)
    requires v.payload.Array?
  {
    || |v.payload.entries| * 3 % INDEX_RANGE >= RIGHT_MARGIN
    || HasFullElement(v)
    || LineLength(ShortTexts(s, v), |v.payload.entries|) % INDEX_RANGE >= RIGHT_MARGIN
  }

  /** size() tells every object that has members from an empty one. */
  predicate IsCounted(v: Value) {
    match v.payload
    case Array(es) => forall i | 0 <= i < |es| :: IsCounted(es[i].value)
    case Object(es) =>
      (|es| % INDEX_RANGE == 0 ==> es == []) && forall i | 0 <= i < |es| :: IsCounted(es[i].value)
    case _ => true
  }

  function Pad(s: Style): Text {
    if s.indentation == [] then [] else [SPACE]
  }

  /** An array on one line. */
  function LineText(s: Style, v: Value): Text
    requires v.payload.Array? && !HasFullElement(v)
  {
    [LBRACKET] + Pad(s) + Joined([COMMA] + Pad(s), ShortTexts(s, v)) + Pad(s) + [RBRACKET]
  }

  predicate OnOneLine(s: Style, v: Value)
    requires v.payload.Array?
  {
    !s.allComments && !IsMultiLine(s, v)
  }

  function StyledText(s: Style, v: Value, indent: Text, indented: bool): Text
    decreases v
  {
    if !IsFull(v) then ShortText(s, v)
    else if v.payload.Array? && OnOneLine(s, v) then LineText(s, v)
    else
      Lead(s, indent, indented) + Block(s, v, indent, Joined([COMMA], ElementLines(s, v, indent + s.indentation)))
  }

  /** Brackets around a list of lines, the closing one on a line of its own. */
  function Block(s: Style, v: Value, indent: Text, lines: Text): Text
    requires IsContainer(v)
  {
    BeginWord(v).text + (lines + NewLine(s, indent)) + EndWord(v).text
  }

  /** Each element of a container on lines of its own. */
  function ElementLines(s: Style, v: Value, indent: Text): (ts: seq<Text>)
    requires IsContainer(v)
    ensures |ts| == |v.payload.entries|
    decreases v, 0
  {
    var es := v.payload.entries;
    seq(|es|, i requires 0 <= i < |es| =>
      NewLine(s, indent) +
      if es[i].key.Name? then Quoted(es[i].key.name) + s.colon + StyledText(s, es[i].value, indent, false)
      else StyledText(s, es[i].value, indent, true))
  }

  function Written(s: Style, v: Value): Text {
    StyledText(s, Dense(v), [], true) + s.ending
  }

  // ---- layout changes no token ----

  lemma ShortRenders(s: Style, v: Value)
    requires IsDense(v) && !IsFull(v)
    ensures Renders(ShortText(s, v), Words(s.dropNull, v))
  {
    if IsContainer(v) {
      BlankRenders([]);
      BracketsRender(v, [], []);
      assert ShortText(s, v) == BeginWord(v).text + [] + EndWord(v).text;
      assert Words(s.dropNull, v) == [BeginWord(v)] + [] + [EndWord(v)];
      ClosedRenders(ShortText(s, v), Words(s.dropNull, v));
    } else {
      ScalarRenders(s.dropNull, v);
    }
  }

  /** White space before a text. */
  lemma IndentedRenders(blank: Text, t: Text, ws: seq<Word>)
    requires AllSpaces(blank) && Renders(t, ws)
    ensures Renders(blank + t, ws)
  {
    BlankRenders(blank);
    RendersAfterClosed(blank, [], t, ws);
    assert [] + ws == ws;
  }

  /** White space after a text. */
  lemma TrailedRenders(t: Text, ws: seq<Word>, blank: Text)
    requires AllSpaces(blank) && Renders(t, ws)
    ensures Renders(t + blank, ws)
  {
    BlankRenders(blank);
    ClosedRenders(blank, []);
    RendersBefore(t, ws, blank, []);
    assert ws + [] == ws;
  }

  lemma LineRenders(s: Style, v: Value)
    requires IsDense(v) && v.payload.Array? && !HasFullElement(v)
    ensures Renders(LineText(s, v), Words(s.dropNull, v))
  {
    hide Renders, RendersClosed, ShortText, Separated, Joined;
    var es, parts, words := v.payload.entries, ShortTexts(s, v), ElementWords(s.dropNull, v);
    forall i | 0 <= i < |es| ensures Renders(parts[i], words[i]) {
      ShortRenders(s, es[i].value);
      assert words[i] == [] + Words(s.dropNull, es[i].value) == Words(s.dropNull, es[i].value);
    }
    PunctuationRenders(SEPARATOR);
    BlankRenders(Pad(s));
    ClosedConcat([COMMA], [SEPARATOR], Pad(s), []);
    assert [SEPARATOR] + [] == [SEPARATOR];
    JoinedRenders([COMMA] + Pad(s), SEPARATOR, parts, words);
    var list, listWords := Joined([COMMA] + Pad(s), parts), Joined([SEPARATOR], words);
    IndentedRenders(Pad(s), list, listWords);
    TrailedRenders(Pad(s) + list, listWords, Pad(s));
    var inside := Pad(s) + list + Pad(s);
    BracketsRender(v, inside, listWords);
    assert LineText(s, v) == [LBRACKET] + inside + [RBRACKET];
    ClosedRenders(LineText(s, v), Words(s.dropNull, v));
  }

  lemma BlockRenders(s: Style, v: Value, indent: Text, indented: bool, parts: seq<Text>, words: seq<seq<Word>>)
    requires IsContainer(v) && IsPlain(s) && AllSpaces(indent)
    requires words == ElementWords(s.dropNull, v) && |parts| == |words|
    requires forall i | 0 <= i < |parts| :: Renders(parts[i], words[i])
    ensures Renders(Lead(s, indent, indented) + Block(s, v, indent, Joined([COMMA], parts)), Words(s.dropNull, v))
  {
    PunctuationRenders(SEPARATOR);
    JoinedRenders([COMMA], SEPARATOR, parts, words);
    var list, listWords := Joined([COMMA], parts), Joined([SEPARATOR], words);
    TrailedRenders(list, listWords, NewLine(s, indent));
    BracketsRender(v, list + NewLine(s, indent), listWords);
    ClosedRenders(Block(s, v, indent, list), Words(s.dropNull, v));
    IndentedRenders(Lead(s, indent, indented), Block(s, v, indent, list), Words(s.dropNull, v));
  }

  lemma {:induction false} StyledRenders(s: Style, v: Value, indent: Text, indented: bool)
    requires IsDense(v) && IsPlain(s) && AllSpaces(indent)
    ensures Renders(StyledText(s, v, indent, indented), Words(s.dropNull, v))
    decreases v, 1
  {
    if !IsFull(v) {
      ShortRenders(s, v);
    } else if v.payload.Array? && OnOneLine(s, v) {
      LineRenders(s, v);
    } else {
      var inner := indent + s.indentation;
      forall i | 0 <= i < |v.payload.entries|
        ensures Renders(ElementLines(s, v, inner)[i], ElementWords(s.dropNull, v)[i])
      {
        ElementRenders(s, v, i, inner);
      }
      BlockRenders(s, v, indent, indented, ElementLines(s, v, inner), ElementWords(s.dropNull, v));
    }
  }

  lemma {:induction false} ElementRenders(s: Style, v: Value, i: nat, indent: Text)
    requires IsDense(v) && IsContainer(v) && i < |v.payload.entries| && IsPlain(s) && AllSpaces(indent)
    ensures Renders(ElementLines(s, v, indent)[i], ElementWords(s.dropNull, v)[i])
    decreases v, 0
  {
    var e := v.payload.entries[i];
    var words := Words(s.dropNull, e.value);
    StyledRenders(s, e.value, indent, e.key.Index?);
    var text := StyledText(s, e.value, indent, e.key.Index?);
    if e.key.Name? {
      NameRenders(e.key.name, s.colon);
      RendersAfterClosed(Quoted(e.key.name) + s.colon, KeyWords(e.key), text, words);
      text := Quoted(e.key.name) + s.colon + text;
    } else {
      assert KeyWords(e.key) + words == words;
    }
    IndentedRenders(NewLine(s, indent), text, KeyWords(e.key) + words);
  }

  /** Whatever the indentation, the styled document and the compact one have the same tokens. */
  lemma LayoutKeepsTokens(s: Style, o: FastWriting.Options, v: Value)
    requires Valid(v) && RealFree(v) && IsPlain(s) && s.dropNull == o.dropNull
    ensures Spells(Written(s, v), 0, Words(s.dropNull, Dense(v)), |Written(s, v)|)
    ensures Tokens(Written(s, v), 0) == Tokens(FastWriting.Written(o, v), 0) == Words(s.dropNull, Dense(v))
  {
    DenseIsDense(v);
    var doc, ws := Written(s, v), Words(s.dropNull, Dense(v));
    StyledRenders(s, Dense(v), [], true);
    RendersDocument(StyledText(s, Dense(v), [], true), ws, doc);
    NoEndInWords(s.dropNull, Dense(v));
    SpelledTokens(doc, 0, ws, |doc|);
    FastWriting.WrittenSpells(o, v);
  }

  /** Without indentation and with a bare colon the layout is the compact one, byte for byte. */
  lemma {:induction false} NoIndentationIsCompact(s: Style, o: FastWriting.Options, v: Value, indent: Text,
                                                  indented: bool)
    requires IsDense(v) && s.indentation == [] && s.colon == [COLON]
    requires s.dropNull == o.dropNull && !o.yamlCompatible
    ensures StyledText(s, v, indent, indented) == FastWriting.FastText(o, v)
    decreases v
  {
    if IsFull(v) {
      var es, texts := v.payload.entries, FastWriting.ElementTexts(o, v);
      forall i | 0 <= i < |es| ensures texts[i] == ElementLines(s, v, indent)[i] {
        NoIndentationIsCompact(s, o, es[i].value, indent, es[i].key.Index?);
      }
      if v.payload.Array? && OnOneLine(s, v) {
        forall i | 0 <= i < |es| ensures texts[i] == ShortTexts(s, v)[i] {
          NoIndentationIsCompact(s, o, es[i].value, indent, true);
        }
        CompactLine(s, v, texts);
      } else {
        assert indent + s.indentation == indent;
        CompactBlock(s, v, indent, indented, texts);
      }
    }
  }

  lemma CompactLine(s: Style, v: Value, texts: seq<Text>)
    requires v.payload.Array? && !HasFullElement(v) && s.indentation == []
    requires |texts| == |v.payload.entries| && forall i | 0 <= i < |texts| :: texts[i] == ShortTexts(s, v)[i]
    ensures LineText(s, v) == [LBRACKET] + Joined([COMMA], texts) + [RBRACKET]
  {
    assert texts == ShortTexts(s, v);
    assert [COMMA] + Pad(s) == [COMMA];
  }

  lemma CompactBlock(s: Style, v: Value, indent: Text, indented: bool, texts: seq<Text>)
    requires IsContainer(v) && s.indentation == []
    requires |texts| == |v.payload.entries| && forall i | 0 <= i < |texts| :: texts[i] == ElementLines(s, v, indent)[i]
    ensures Lead(s, indent, indented) + Block(s, v, indent, Joined([COMMA], ElementLines(s, v, indent))) ==
            BeginWord(v).text + Joined([COMMA], texts) + EndWord(v).text
  {
    assert texts == ElementLines(s, v, indent);
  }
}
