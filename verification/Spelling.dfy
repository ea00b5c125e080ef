/** The token sequence of a value, and what it means for a document to spell one. */
module Spelling {
  import opened Bytes
  import opened Values
  import opened Lexer
  import opened Numerals
  import opened Escaping

  /** A token with its text but without its place. */
  datatype Word = Word(kind: Kind, text: Text)

  const OBJECT_BEGIN := Word(ObjectBegin, [LBRACE])
  const OBJECT_END := Word(ObjectEnd, [RBRACE])
  const ARRAY_BEGIN := Word(ArrayBegin, [LBRACKET])
  const ARRAY_END := Word(ArrayEnd, [RBRACKET])
  const SEPARATOR := Word(ArraySeparator, [COMMA])
  const NAME_SEPARATOR := Word(MemberSeparator, [COLON])

  // ---- dense values: what a writer goes through ----

  /** The value as the writers see it: every array has the size that size() tells, with nulls in its holes. */
  function Dense(v: Value): (d: Value)
    ensures d.payload.Array? == v.payload.Array? && IsContainer(d) == IsContainer(v)
    ensures v.payload.Null? == d.payload.Null?
    decreases v
  {
    match v.payload
    case Array(es) =>
      v.(payload := Array(seq(Size32(es), i requires 0 <= i < Size32(es) =>
        var n := LowerBound(es, Index(i));
        Entry(Index(i), if n < |es| && es[n].key == Index(i) then Dense(es[n].value) else NULL_VALUE))))
    case Object(es) =>
      v.(payload := Object(seq(|es|, i requires 0 <= i < |es| => Entry(es[i].key, Dense(es[i].value)))))
    case _ => v
  }

  lemma DenseSize(v: Value)
    requires IsContainer(v)
    ensures Dense(v).payload.Array? == v.payload.Array? && IsContainer(Dense(v))
    ensures |Dense(v).payload.entries| == if v.payload.Array? then Size32(v.payload.entries) else |v.payload.entries|
  {
    hide LowerBound;
  }

  /** The element at a place of an array, or the null of a hole. */
  lemma DenseAt(v: Value, i: nat)
    requires v.payload.Array? && i < Size32(v.payload.entries)
    ensures |Dense(v).payload.entries| == Size32(v.payload.entries)
    ensures var es, n := v.payload.entries, LowerBound(v.payload.entries, Index(i));
            Dense(v).payload.entries[i] ==
            Entry(Index(i), if n < |es| && es[n].key == Index(i) then Dense(es[n].value) else NULL_VALUE)
  {
    hide LowerBound;
  }

  /** A valid value without reals, its arrays without holes. */
  predicate IsDense(v: Value) {
    match v.payload
    case Real(_) => false
    case Int(i) => INT_MIN <= i <= INT64_MAX
    case UInt(u) => u <= UINT_MAX
    case Array(es) => Contiguous(es) && forall i | 0 <= i < |es| :: IsDense(es[i].value)
    case Object(es) => Sorted(es) && SameKind(es, true) && forall i | 0 <= i < |es| :: IsDense(es[i].value)
    case _ => true
  }

  lemma {:induction false} DenseIsDense(v: Value)
    requires Valid(v) && RealFree(v)
    ensures IsDense(Dense(v))
  {
    if IsContainer(v) {
      var es := v.payload.entries;
      forall i | 0 <= i < |es| ensures IsDense(Dense(es[i].value)) {
        DenseIsDense(es[i].value);
      }
    }
  }

  // ---- words of a value ----

  function BeginWord(v: Value): Word {
    if v.payload.Array? then ARRAY_BEGIN else OBJECT_BEGIN
  }

  function EndWord(v: Value): Word {
    if v.payload.Array? then ARRAY_END else OBJECT_END
  }

  function ScalarWords(drop: bool, p: Payload): seq<Word>
    requires !p.Array? && !p.Object?
  {
    match p
    case Null => if drop then [] else [Word(NullToken, NULL_TEXT)]
    case Int(i) => [Word(NumberToken, IntText(i))]
    case UInt(u) => [Word(NumberToken, Decimal(u))]
    case Real(t) => [Word(NumberToken, t)]
    case String(s) => [Word(StringToken, Quoted(s))]
    case Boolean(b) => if b then [Word(TrueToken, TRUE_TEXT)] else [Word(FalseToken, FALSE_TEXT)]
  }

  function KeyWords(k: Key): seq<Word> {
    match k
    case Index(_) => []
    case Name(s) => [Word(StringToken, Quoted(s)), NAME_SEPARATOR]
  }

  /** The tokens of a dense value; with `drop` a null has none. */
  function Words(drop: bool, v: Value): seq<Word>
    decreases v
  {
    if IsContainer(v) then [BeginWord(v)] + Joined([SEPARATOR], ElementWords(drop, v)) + [EndWord(v)]
    else ScalarWords(drop, v.payload)
  }

  /** The tokens of each element, with those of its name. */
  function ElementWords(drop: bool, v: Value): (ws: seq<seq<Word>>)
    requires IsContainer(v)
    ensures |ws| == |v.payload.entries|
    decreases v, 0
  {
    var es := v.payload.entries;
    seq(|es|, i requires 0 <= i < |es| => KeyWords(es[i].key) + Words(drop, es[i].value))
  }

  // ---- the words of a list, one after the other ----

  /** From item `i` on, and from the separator before it on. */
  function FromItem(parts: seq<seq<Word>>, end: Word, i: nat, rest: seq<Word>): seq<Word>
    requires i < |parts|
  {
    parts[i] + FromComma(parts, end, i + 1, rest)
  }

  function FromComma(parts: seq<seq<Word>>, end: Word, i: nat, rest: seq<Word>): seq<Word>
    requires i <= |parts|
  {
    Separated([SEPARATOR], parts, i) + ([end] + rest)
  }

  lemma FromCommaUnfolds(parts: seq<seq<Word>>, end: Word, i: nat, rest: seq<Word>)
    requires i <= |parts|
    ensures FromComma(parts, end, i, rest) ==
            if i == |parts| then [end] + rest else [SEPARATOR] + FromItem(parts, end, i, rest)
  {
    if i < |parts| {
      Associate([SEPARATOR] + parts[i], Separated([SEPARATOR], parts, i + 1), [end] + rest);
      Associate([SEPARATOR], parts[i], FromComma(parts, end, i + 1, rest));
    } else {
      assert FromComma(parts, end, i, rest) == [end] + rest;
    }
  }

  lemma ListUnfolds(begin: Word, parts: seq<seq<Word>>, end: Word, rest: seq<Word>)
    ensures [begin] + Joined([SEPARATOR], parts) + [end] + rest ==
            [begin] + if parts == [] then [end] + rest else FromItem(parts, end, 0, rest)
  {
    var list := Joined([SEPARATOR], parts);
    Associate([begin] + list, [end], rest);
    Associate([begin], list, [end] + rest);
    if parts != [] {
      Associate(parts[0], Separated([SEPARATOR], parts, 1), [end] + rest);
    } else {
      assert list + ([end] + rest) == [end] + rest;
    }
  }

  // ---- spelling ----

  /** Only white space from `p` to `q`. */
  predicate Blank(doc: Text, p: nat, q: nat) {
    p <= q <= |doc| && forall i | p <= i < q :: IsSpace(doc[i])
  }

  lemma {:induction false} BlankSkipped(doc: Text, p: nat, q: nat)
    requires Blank(doc, p, q)
    ensures SkipSpaces(doc, p) == SkipSpaces(doc, q) && ReadToken(doc, p) == ReadToken(doc, q)
    decreases q - p
  {
    if p < q {
      BlankSkipped(doc, p + 1, q);
    }
  }

  /** Reading tokens from `p` gives these words, and then only white space is left up to `q`. */
  predicate Spells(doc: Text, p: nat, ws: seq<Word>, q: nat)
    decreases |ws|
  {
    p <= |doc| &&
    if ws == [] then Blank(doc, p, q)
    else
      var t := ReadToken(doc, p);
      t.kind == ws[0].kind && doc[t.start..t.end] == ws[0].text && Spells(doc, t.end, ws[1..], q)
  }

  lemma SpellsWord(doc: Text, p: nat, w: Word, q: nat)
    requires p <= |doc| && ReadToken(doc, p) == Token(w.kind, p, q) && doc[p..q] == w.text
    ensures Spells(doc, p, [w], q)
  {
  }

  lemma SpellsFirst(doc: Text, p: nat, w: Word, rest: seq<Word>, q: nat)
    requires Spells(doc, p, [w] + rest, q)
    ensures p <= |doc|
    ensures var t := ReadToken(doc, p);
            t.kind == w.kind && doc[t.start..t.end] == w.text && Spells(doc, t.end, rest, q)
  {
  }

  lemma {:induction false} SpellsConcat(doc: Text, p: nat, a: seq<Word>, m: nat, b: seq<Word>, q: nat)
    requires Spells(doc, p, a, m) && Spells(doc, m, b, q)
    ensures Spells(doc, p, a + b, q)
    decreases |a|
  {
    hide ReadToken;
    if a == [] {
      assert a + b == b;
      BlankSkipped(doc, p, m);
    } else {
      SpellsConcat(doc, ReadToken(doc, p).end, a[1..], m, b, q);
      assert (a + b)[1..] == a[1..] + b;
    }
  }

  /** A spelling may as well be read from the first byte of its first token. */
  lemma SpellsFromToken(doc: Text, p: nat, p': nat, ws: seq<Word>, q: nat)
    requires Spells(doc, p, ws, q) && ws != []
    requires p' <= |doc| && ReadToken(doc, p') == ReadToken(doc, p)
    ensures Spells(doc, p', ws, q)
  {
  }

  /** All tokens of a document up to the end of the stream. */
  function Tokens(doc: Text, p: nat): seq<Word>
    requires p <= |doc|
    decreases |doc| - p
  {
    var t := ReadToken(doc, p);
    if t.kind == EndOfStream then [] else [Word(t.kind, doc[t.start..t.end])] + Tokens(doc, t.end)
  }

  predicate NoEnd(ws: seq<Word>) {
    forall i | 0 <= i < |ws| :: ws[i].kind != EndOfStream
  }

  /** A document that spells words and then only has white space has exactly these tokens. */
  lemma {:induction false} SpelledTokens(doc: Text, p: nat, ws: seq<Word>, q: nat)
    requires Spells(doc, p, ws, q) && q <= |doc| && SkipSpaces(doc, q) == |doc|
    requires NoEnd(ws)
    ensures Tokens(doc, p) == ws
    decreases |ws|
  {
    if ws == [] {
      BlankSkipped(doc, p, q);
    } else {
      SpelledTokens(doc, ReadToken(doc, p).end, ws[1..], q);
    }
  }

  lemma {:induction false} NoEndInWords(drop: bool, v: Value)
    ensures NoEnd(Words(drop, v))
    decreases v
  {
    if IsContainer(v) {
      var parts := ElementWords(drop, v);
      forall i | 0 <= i < |parts| ensures NoEnd(parts[i]) {
        NoEndInWords(drop, v.payload.entries[i].value);
      }
      NoEndInJoined(parts, 0);
      assert Words(drop, v) == [BeginWord(v)] + Joined([SEPARATOR], parts) + [EndWord(v)];
    }
  }

  lemma {:induction false} NoEndInJoined(parts: seq<seq<Word>>, i: nat)
    requires i <= |parts| && forall k | 0 <= k < |parts| :: NoEnd(parts[k])
    ensures NoEnd(Separated([SEPARATOR], parts, i)) && (i == 0 ==> NoEnd(Joined([SEPARATOR], parts)))
    decreases |parts| - i
  {
    if i < |parts| {
      NoEndInJoined(parts, i + 1);
    }
  }
}
