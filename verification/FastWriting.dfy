/** FastWriter: the compact text of a value, and that it spells the value's tokens. */
module FastWriting {
  import opened Bytes
  import opened Values
  import opened Escaping
  import opened Rendering
  import opened Spelling

  datatype Options = Options(yamlCompatible: bool, dropNull: bool, omitEndingLineFeed: bool)

  /** Member name and separator; array elements have none. */
  function KeyText(o: Options, k: Key): Text {
    match k
    case Index(_) => []
    case Name(s) => Quoted(s) + if o.yamlCompatible then [COLON, SPACE] else [COLON]
  }

  /** The compact text of a dense value. */
  function FastText(o: Options, v: Value): Text
    decreases v
  {
    match v.payload
    case Array(_) => [LBRACKET] + Joined([COMMA], ElementTexts(o, v)) + [RBRACKET]
    case Object(_) => [LBRACE] + Joined([COMMA], ElementTexts(o, v)) + [RBRACE]
    case _ => ScalarText(o.dropNull, v.payload)
  }

  /** The text of each element, with that of its name. */
  function ElementTexts(o: Options, v: Value): (ts: seq<Text>)
    requires IsContainer(v)
    ensures |ts| == |v.payload.entries|
    decreases v, 0
  {
    var es := v.payload.entries;
    seq(|es|, i requires 0 <= i < |es| => KeyText(o, es[i].key) + FastText(o, es[i].value))
  }

  function Written(o: Options, v: Value): Text {
    FastText(o, Dense(v)) + if o.omitEndingLineFeed then [] else [LF]
  }

  // ---- a whole value ----

  lemma KeyRenders(o: Options, k: Key)
    ensures RendersClosed(KeyText(o, k), KeyWords(k))
  {
    BlankRenders([]);
    if k.Name? {
      var colon: Text := if o.yamlCompatible then [COLON, SPACE] else [COLON];
      assert ColonAt(colon, 0);
      NameRenders(k.name, colon);
    }
  }

  lemma {:induction false} FastRenders(o: Options, v: Value)
    requires IsDense(v)
    ensures Renders(FastText(o, v), Words(o.dropNull, v))
    decreases v
  {
    if !IsContainer(v) {
      ScalarRenders(o.dropNull, v);
    } else {
      var es, parts, words := v.payload.entries, ElementTexts(o, v), ElementWords(o.dropNull, v);
      forall i | 0 <= i < |es| ensures Renders(parts[i], words[i]) {
        KeyRenders(o, es[i].key);
        FastRenders(o, es[i].value);
        RendersAfterClosed(KeyText(o, es[i].key), KeyWords(es[i].key),
                           FastText(o, es[i].value), Words(o.dropNull, es[i].value));
      }
      ListRenders(o, v);
    }
  }

  lemma ListRenders(o: Options, v: Value)
    requires IsContainer(v)
    requires forall i | 0 <= i < |v.payload.entries| :: Renders(ElementTexts(o, v)[i], ElementWords(o.dropNull, v)[i])
    ensures Renders(FastText(o, v), Words(o.dropNull, v))
  {
    var parts, words := ElementTexts(o, v), ElementWords(o.dropNull, v);
    PunctuationRenders(SEPARATOR);
    JoinedRenders([COMMA], SEPARATOR, parts, words);
    var list, listWords := Joined([COMMA], parts), Joined([SEPARATOR], words);
    BracketsRender(v, list, listWords);
    assert FastText(o, v) == BeginWord(v).text + list + EndWord(v).text;
    ClosedRenders(FastText(o, v), [BeginWord(v)] + listWords + [EndWord(v)]);
  }

  /** A written document has exactly the tokens of the value. */
  lemma WrittenSpells(o: Options, v: Value)
    requires Valid(v) && RealFree(v)
    ensures Spells(Written(o, v), 0, Words(o.dropNull, Dense(v)), |Written(o, v)|)
    ensures Tokens(Written(o, v), 0) == Words(o.dropNull, Dense(v))
  {
    DenseIsDense(v);
    FastRenders(o, Dense(v));
    RendersDocument(FastText(o, Dense(v)), Words(o.dropNull, Dense(v)), Written(o, v));
    NoEndInWords(o.dropNull, Dense(v));
    SpelledTokens(Written(o, v), 0, Words(o.dropNull, Dense(v)), |Written(o, v)|);
  }
}
