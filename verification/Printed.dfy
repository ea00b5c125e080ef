/** The very bytes that are printed: every escape, and the compact text as its tokens one after the other. */
module Printed {
  import opened Bytes
  import opened Values
  import opened Lexer
  import opened Numerals
  import opened Escaping
  import opened Spelling
  import opened Unicode
  import opened Grammar
  import opened Acceptance
  import FastWriting

  // ---- strings ----

  /** The bytes that have a letter to be escaped with, the solidus aside, which needs no escape. */
  predicate HasLetter(c: Byte) {
    c == 0x22 || c == 0x5C || c == 0x08 || c == 0x0C || c == 0x0A || c == 0x0D || c == 0x09
  }

  /** A byte is printed as the shortest text that means it: two bytes if it has a letter, a unit with upper-case digits
      if it is another control byte, and as it is in every other case. */
  lemma PrintedShortest(c: Byte)
    ensures var t := EscapeByte(c);
            && CharEnd(t, 0, |t|) == Some(|t|) && CharMeaning(t, 0, |t|) == [c]
            && |t| == (if HasLetter(c) then 2 else if c < 0x20 then 6 else 1)
            && (|t| == 6 ==> t[4] <= 0x46 && t[5] <= 0x46)
  {
    var t := EscapeByte(c);
    if |t| == 6 {
      assert FourHexAt(t, 2) && HexCode(t, 2) == c;
    }
  }

  // ---- the compact text ----

  /** The texts of the tokens; with the YAML option a space follows every colon. */
  function TokenTexts(yaml: bool, ws: seq<Word>): Text {
    if ws == [] then []
    else
      ws[0].text + (if yaml && ws[0].kind == MemberSeparator then [SPACE] else []) + TokenTexts(yaml, ws[1..])
  }

  lemma {:induction false} TokenTextsConcat(yaml: bool, a: seq<Word>, b: seq<Word>)
    ensures TokenTexts(yaml, a + b) == TokenTexts(yaml, a) + TokenTexts(yaml, b)
    decreases |a|
  {
    if a == [] {
      assert a + b == b;
    } else {
      TokenTextsConcat(yaml, a[1..], b);
      assert (a + b)[1..] == a[1..] + b;
      var first := a[0].text + (if yaml && a[0].kind == MemberSeparator then [SPACE] else []);
      Associate(first, TokenTexts(yaml, a[1..]), TokenTexts(yaml, b));
    }
  }

  lemma OneTokenText(yaml: bool, w: Word)
    requires w.kind != MemberSeparator
    ensures TokenTexts(yaml, [w]) == w.text
  {
    assert w.text + [] + [] == w.text;
  }

  lemma {:induction false} SeparatedTexts(yaml: bool, texts: seq<Text>, words: seq<seq<Word>>, i: nat)
    requires |texts| == |words| && i <= |texts|
    requires forall k | 0 <= k < |texts| :: texts[k] == TokenTexts(yaml, words[k])
    ensures Separated([COMMA], texts, i) == TokenTexts(yaml, Separated([SEPARATOR], words, i))
    decreases |texts| - i
  {
    hide TokenTexts;
    if i == |texts| {
      NoTokens(yaml);
    } else {
      SeparatedTexts(yaml, texts, words, i + 1);
      OneTokenText(yaml, SEPARATOR);
      TokenTextsConcat(yaml, [SEPARATOR], words[i]);
      TokenTextsConcat(yaml, [SEPARATOR] + words[i], Separated([SEPARATOR], words, i + 1));
    }
  }

  lemma NoTokens(yaml: bool)
    ensures TokenTexts(yaml, []) == []
  {
  }

  lemma ListTexts(yaml: bool, v: Value, texts: seq<Text>, words: seq<seq<Word>>)
    requires IsContainer(v) && |texts| == |words|
    requires forall k | 0 <= k < |texts| :: texts[k] == TokenTexts(yaml, words[k])
    ensures BeginWord(v).text + Joined([COMMA], texts) + EndWord(v).text ==
            TokenTexts(yaml, [BeginWord(v)] + Joined([SEPARATOR], words) + [EndWord(v)])
  {
    hide TokenTexts;
    OneTokenText(yaml, BeginWord(v));
    OneTokenText(yaml, EndWord(v));
    if texts == [] {
      NoTokens(yaml);
    } else {
      SeparatedTexts(yaml, texts, words, 1);
      TokenTextsConcat(yaml, words[0], Separated([SEPARATOR], words, 1));
    }
    TokenTextsConcat(yaml, [BeginWord(v)], Joined([SEPARATOR], words));
    TokenTextsConcat(yaml, [BeginWord(v)] + Joined([SEPARATOR], words), [EndWord(v)]);
  }

  lemma KeyTexts(o: FastWriting.Options, k: Key)
    ensures FastWriting.KeyText(o, k) == TokenTexts(o.yamlCompatible, KeyWords(k))
  {
    if k.Name? {
      var q, y := Word(StringToken, Quoted(k.name)), o.yamlCompatible;
      assert KeyWords(k) == [q] + [NAME_SEPARATOR];
      TokenTextsConcat(y, [q], [NAME_SEPARATOR]);
      OneTokenText(y, q);
      assert TokenTexts(y, [NAME_SEPARATOR]) == if y then [COLON, SPACE] else [COLON];
    }
  }

  lemma {:induction false} FastTextIs(o: FastWriting.Options, v: Value)
    ensures FastWriting.FastText(o, v) == TokenTexts(o.yamlCompatible, Words(o.dropNull, v))
    decreases v
  {
    hide TokenTexts;
    if IsContainer(v) {
      var es, texts, words := v.payload.entries, FastWriting.ElementTexts(o, v), ElementWords(o.dropNull, v);
      forall k | 0 <= k < |es| ensures texts[k] == TokenTexts(o.yamlCompatible, words[k]) {
        FastTextIs(o, es[k].value);
        KeyTexts(o, es[k].key);
        TokenTextsConcat(o.yamlCompatible, KeyWords(es[k].key), Words(o.dropNull, es[k].value));
      }
      ListTexts(o.yamlCompatible, v, texts, words);
    } else if v.payload.Null? && o.dropNull {
      NoTokens(o.yamlCompatible);
    } else {
      ScalarTextIs(o, v);
    }
  }

  lemma ScalarTextIs(o: FastWriting.Options, v: Value)
    requires !IsContainer(v) && !(v.payload.Null? && o.dropNull)
    ensures FastWriting.FastText(o, v) == TokenTexts(o.yamlCompatible, Words(o.dropNull, v))
  {
    hide TokenTexts, IntText, Decimal, Quoted;
    OneTokenText(o.yamlCompatible, Words(o.dropNull, v)[0]);
    assert Words(o.dropNull, v) == [Words(o.dropNull, v)[0]];
  }

  // ---- white space ----

  /** No line feed, and outside strings no white space at all. */
  predicate IsClean(w: Word) {
    && LF !in w.text
    && (w.kind != StringToken ==> SPACE !in w.text && TAB !in w.text && CR !in w.text)
  }

  predicate AllClean(ws: seq<Word>) {
    forall i | 0 <= i < |ws| :: IsClean(ws[i])
  }

  lemma {:induction false} EscapedClean(s: Text)
    ensures LF !in Escaped(s)
  {
    if s != [] {
      EscapedClean(s[1..]);
      EscapeClean(s[0]);
    }
  }

  lemma EscapeClean(c: Byte)
    ensures LF !in EscapeByte(c)
  {
  }

  lemma QuotedClean(s: Text)
    ensures IsClean(Word(StringToken, Quoted(s)))
  {
    EscapedClean(s);
  }

  lemma NumberClean(i: int)
    ensures IsClean(Word(NumberToken, IntText(i)))
  {
    hide Decimal;
    DecimalShape(if i < 0 then -i else i);
    forall k | 0 <= k < |IntText(i)| ensures IsDigit(IntText(i)[k]) || IntText(i)[k] == MINUS {
    }
  }

  lemma {:induction false} SeparatedClean(words: seq<seq<Word>>, i: nat)
    requires i <= |words| && forall k | 0 <= k < |words| :: AllClean(words[k])
    ensures AllClean(Separated([SEPARATOR], words, i))
    decreases |words| - i
  {
    if i < |words| {
      SeparatedClean(words, i + 1);
    }
  }

  lemma {:induction false} WordsClean(drop: bool, v: Value)
    requires RealFree(v)
    ensures AllClean(Words(drop, v))
    decreases v
  {
    hide IsClean;
    if IsContainer(v) {
      var es, words := v.payload.entries, ElementWords(drop, v);
      forall k | 0 <= k < |es| ensures AllClean(words[k]) {
        WordsClean(drop, es[k].value);
        KeyClean(es[k].key);
      }
      PunctuationClean();
      SeparatedClean(words, if words == [] then 0 else 1);
    } else {
      ScalarClean(drop, v);
    }
  }

  lemma KeyClean(k: Key)
    ensures AllClean(KeyWords(k))
  {
    if k.Name? {
      QuotedClean(k.name);
    }
  }

  lemma PunctuationClean()
    ensures IsClean(ARRAY_BEGIN) && IsClean(ARRAY_END) && IsClean(OBJECT_BEGIN) && IsClean(OBJECT_END)
    ensures IsClean(SEPARATOR)
  {
  }

  lemma ScalarClean(drop: bool, v: Value)
    requires !IsContainer(v) && !v.payload.Real?
    ensures AllClean(Words(drop, v))
  {
    hide Quoted, IntText, Decimal, IsClean;
    LiteralsClean();
    match v.payload {
      case Int(i) => NumberClean(i);
      case UInt(u) => NaturalClean(u);
      case String(s) => QuotedClean(s);
      case _ =>
    }
  }

  lemma LiteralsClean()
    ensures IsClean(Word(NullToken, NULL_TEXT))
    ensures IsClean(Word(TrueToken, TRUE_TEXT)) && IsClean(Word(FalseToken, FALSE_TEXT))
  {
  }

  lemma NaturalClean(n: nat)
    ensures IsClean(Word(NumberToken, Decimal(n)))
  {
    NumberClean(n);
  }

  lemma {:induction false} TextsClean(yaml: bool, ws: seq<Word>)
    requires AllClean(ws)
    ensures LF !in TokenTexts(yaml, ws)
    decreases |ws|
  {
    if ws != [] {
      TextsClean(yaml, ws[1..]);
    }
  }

  /** FastWriter's document: the tokens of the dense value one after the other, a space after each colon exactly with
      the YAML option, and a line feed at the end exactly if that is not turned off. Where there are no reals there is
      no other white space but in strings, and no other line feed anywhere. */
  lemma FastWrittenExactly(o: FastWriting.Options, v: Value)
    ensures FastWriting.Written(o, v) ==
            TokenTexts(o.yamlCompatible, Words(o.dropNull, Dense(v))) + if o.omitEndingLineFeed then [] else [LF]
    ensures RealFree(Dense(v)) ==>
            var t := FastWriting.Written(o, v);
            && AllClean(Words(o.dropNull, Dense(v)))
            && (t != [] && t[|t| - 1] == LF <==> !o.omitEndingLineFeed)
            && forall i | 0 <= i < |t| - 1 :: t[i] != LF
  {
    hide TokenTexts, Words, AllClean;
    var ws := Words(o.dropNull, Dense(v));
    FastTextIs(o, Dense(v));
    if RealFree(Dense(v)) {
      WordsClean(o.dropNull, Dense(v));
      TextsClean(o.yamlCompatible, ws);
      var body, t := TokenTexts(o.yamlCompatible, ws), FastWriting.Written(o, v);
      forall i | 0 <= i < |body| ensures t[i] != LF {
        assert t[i] == body[i];
      }
    }
  }
}
