/** Which JSON texts of RFC 8259 are accepted, and with what value. */
module Acceptance {
  import opened Bytes
  import opened Values
  import opened OrderedMap
  import opened Lexer
  import opened Decoding
  import opened Unicode
  import opened Parsing
  import opened Spelling
  import opened Rendering
  import opened Grammar
  import opened RoundTrip
  import opened Locality

  // ---- strings ----

  predicate IsHighUnit(t: Text, i: nat, end: nat)
    requires end <= |t|
  {
    UnitEscapeAt(t, i, end) && 0xD800 <= HexCode(t, i + 2) <= 0xDBFF
  }

  /** Every unit that is a high surrogate is followed by another unit, which is then taken with it. */
  predicate HighsPaired(t: Text, i: nat, end: nat)
    requires i <= end <= |t| && IsBody(t, i, end)
    decreases end - i
  {
    if i == end then true
    else
      var next := CharEnd(t, i, end).value;
      if !IsHighUnit(t, i, end) then HighsPaired(t, next, end)
      else next < end && UnitEscapeAt(t, next, end) && HighsPaired(t, next + 6, end)
  }

  predicate NoLoneHigh(t: Text) {
    IsRawString(t) && HighsPaired(t, 1, |t| - 1)
  }

  /** A character that is no high surrogate decodes, whatever follows. */
  lemma CharDecodes(t: Text, i: nat, end: nat)
    requires i < end <= |t| && CharEnd(t, i, end).Some? && !IsHighUnit(t, i, end)
    ensures t[i] != QUOTE
    ensures var c := DecodeChar(t, i, end); c.Char? && c.next == CharEnd(t, i, end).value
  {
    hide CodePointToUTF8, HexValue;
    if UnitEscapeAt(t, i, end) {
      UnitDecodes(t, i, end, HexCode(t, i + 2));
    }
  }

  lemma PairDecodesTogether(t: Text, i: nat, end: nat)
    requires end <= |t| && IsHighUnit(t, i, end) && UnitEscapeAt(t, i + 6, end)
    ensures var c := DecodeChar(t, i, end); c.Char? && c.next == i + 12
  {
    hide CodePointToUTF8, HexValue, DecodeChar;
    PairDecodes(t, i, end, HexCode(t, i + 2), HexCode(t, i + 8));
  }

  lemma LoneHighRefused(t: Text, i: nat, end: nat)
    requires end <= |t| && IsHighUnit(t, i, end) && IsBody(t, i + 6, end) && !UnitEscapeAt(t, i + 6, end)
    ensures DecodeChar(t, i, end).BadChar?
  {
    hide HexDigits, CodePointToUTF8;
    FourDigitsDecode(t, i + 2, end);
    if end - (i + 6) >= 6 && t[i + 6] == BACKSLASH {
      assert CharEnd(t, i + 6, end).Some?;
    }
  }

  lemma {:induction false} BodyDecodesExactly(t: Text, i: nat, end: nat)
    requires i <= end <= |t| && IsBody(t, i, end)
    ensures DecodeChars(t, i, end).Bytes? <==> HighsPaired(t, i, end)
    decreases end - i
  {
    hide DecodeChar, CharEnd, UnitEscapeAt, IsHighSurrogate, HexCode;
    if i < end {
      var next := CharEnd(t, i, end).value;
      if !IsHighUnit(t, i, end) {
        CharDecodes(t, i, end);
        BodyDecodesExactly(t, next, end);
      } else {
        HighUnitEnds(t, i, end);
        if next < end && UnitEscapeAt(t, next, end) {
          HighUnitEnds(t, i, end);
          UnitEnds(t, next, end);
          PairDecodesTogether(t, i, end);
          BodyDecodesExactly(t, next + 6, end);
        } else {
          NoUnitAtEnd(t, next, end);
          LoneHighRefused(t, i, end);
        }
      }
    }
  }

  lemma UnitEnds(t: Text, i: nat, end: nat)
    requires i < end <= |t| && UnitEscapeAt(t, i, end)
    ensures CharEnd(t, i, end) == Some(i + 6)
  {
  }

  lemma HighUnitEnds(t: Text, i: nat, end: nat)
    requires i < end <= |t| && IsHighUnit(t, i, end)
    ensures CharEnd(t, i, end) == Some(i + 6) && t[i] != QUOTE
  {
  }

  lemma NoUnitAtEnd(t: Text, i: nat, end: nat)
    requires i <= end <= |t| && !(i < end && UnitEscapeAt(t, i, end))
    ensures !UnitEscapeAt(t, i, end)
  {
  }

  /** A string, of the grammar or with control bytes, is accepted exactly if it has no lone high surrogate. */
  lemma StringAcceptedExactly(t: Text)
    requires IsRawString(t)
    ensures 2 <= |t| && (DecodeString(t).Bytes? <==> NoLoneHigh(t))
  {
    BodyDecodesExactly(t, 1, |t| - 1);
  }

  // ---- what a string means: section 7 ----

  /** The code point of a pair; of its second unit the low ten bits count. */
  function PairCode(high: nat, low: nat): nat
    requires 0xD800 <= high
  {
    0x1_0000 + (high - 0xD800) * 0x400 + low % 0x400
  }

  /** Two units at `i`, the first one a high surrogate. */
  predicate IsPair(t: Text, i: nat, end: nat)
    requires end <= |t|
  {
    IsHighUnit(t, i, end) && UnitEscapeAt(t, i + 6, end)
  }

  /** The bytes that the character or escape at `i` stands for. */
  function CharMeaning(t: Text, i: nat, end: nat): Text
    requires i < end <= |t| && CharEnd(t, i, end).Some?
  {
    if t[i] != BACKSLASH then [t[i]]
    else if !UnitEscapeAt(t, i, end) then [EscapeLetter(t[i + 1]).value]
    else
      CodePointToUTF8(if IsPair(t, i, end) then PairCode(HexCode(t, i + 2), HexCode(t, i + 8)) else HexCode(t, i + 2))
  }

  function CharStop(t: Text, i: nat, end: nat): (next: nat)
    requires i < end <= |t| && CharEnd(t, i, end).Some?
    ensures i < next <= end
  {
    if IsPair(t, i, end) then i + 12 else CharEnd(t, i, end).value
  }

  /** The bytes that the characters and escapes from `i` to `end` stand for. */
  function BodyMeaning(t: Text, i: nat, end: nat): Text
    requires i <= end <= |t|
    decreases end - i
  {
    if i == end || CharEnd(t, i, end).None? then []
    else CharMeaning(t, i, end) + BodyMeaning(t, CharStop(t, i, end), end)
  }

  /** The bytes of a string, quotes included in its text. */
  function StringOf(t: Text): Text {
    if |t| < 2 then [] else BodyMeaning(t, 1, |t| - 1)
  }

  lemma LetterDecodes(t: Text, i: nat, end: nat)
    requires i < end <= |t| && t[i] == BACKSLASH && CharEnd(t, i, end).Some? && !UnitEscapeAt(t, i, end)
    ensures DecodeChar(t, i, end) == Char([EscapeLetter(t[i + 1]).value], i + 2)
  {
  }

  lemma PlainDecodes(t: Text, i: nat, end: nat)
    requires i < end <= |t| && t[i] != BACKSLASH
    ensures DecodeChar(t, i, end) == Char([t[i]], i + 1)
  {
  }

  lemma CharMeans(t: Text, i: nat, end: nat)
    requires i < end <= |t| && IsBody(t, i, end) && HighsPaired(t, i, end)
    ensures DecodeChar(t, i, end) == Char(CharMeaning(t, i, end), CharStop(t, i, end)) && t[i] != QUOTE
  {
    hide DecodeChar, CodePointToUTF8, HexCode, EscapeLetter;
    if t[i] != BACKSLASH {
      PlainDecodes(t, i, end);
    } else if !UnitEscapeAt(t, i, end) {
      LetterDecodes(t, i, end);
    } else if IsPair(t, i, end) {
      PairDecodes(t, i, end, HexCode(t, i + 2), HexCode(t, i + 8));
    } else {
      UnitDecodes(t, i, end, HexCode(t, i + 2));
    }
  }

  lemma BodyGoesOn(t: Text, i: nat, end: nat)
    requires i < end <= |t| && IsBody(t, i, end) && HighsPaired(t, i, end)
    ensures IsBody(t, CharStop(t, i, end), end) && HighsPaired(t, CharStop(t, i, end), end)
  {
    hide HexCode, EscapeLetter;
  }

  lemma {:induction false} BodyMeans(t: Text, i: nat, end: nat)
    requires i <= end <= |t| && IsBody(t, i, end) && HighsPaired(t, i, end)
    ensures DecodeChars(t, i, end) == Bytes(BodyMeaning(t, i, end))
    decreases end - i
  {
    hide DecodeChar, CharMeaning, CharStop, CharEnd, HighsPaired;
    if i < end {
      CharMeans(t, i, end);
      BodyGoesOn(t, i, end);
      BodyMeans(t, CharStop(t, i, end), end);
    }
  }

  /** Every accepted string decodes to the bytes that its characters and escapes stand for. */
  lemma StringMeans(t: Text)
    requires NoLoneHigh(t)
    ensures DecodeString(t) == Bytes(StringOf(t))
  {
    BodyMeans(t, 1, |t| - 1);
  }

  // ---- values ----

  /** What the reader wants beyond the grammar: no more levels than the limit, no lone high surrogate, and that the
      floating-point reader takes every number that is no 64-bit integer. */
  predicate Accepts(cfg: Config, j: Syntax, depth: nat)
    decreases j
  {
    depth <= cfg.stackLimit &&
    match j
    case NullLiteral => true
    case BooleanLiteral(_) => true
    case NumberLiteral(t) => DecodeInteger(t).Some? || cfg.isDouble(t)
    case StringLiteral(t) => NoLoneHigh(t)
    case List(isArray, _, items) => forall i | 0 <= i < |items| ::
        (isArray || NoLoneHigh(items[i].name)) && Accepts(cfg, items[i].value, depth + 1)
  }

  function KeyOf(j: Syntax, i: nat): Key
    requires j.List? && i < |j.items|
  {
    if j.isArray then Index(i) else Name(StringOf(j.items[i].name))
  }

  /** The value that a text means: each element stored under its index or name, a later one over an earlier one. */
  function Meaning(j: Syntax): (v: Value)
    ensures j.List? ==> IsContainer(v) && v.payload.Array? == j.isArray
    decreases j, 1
  {
    var p := match j
      case NullLiteral => Null
      case BooleanLiteral(b) => Boolean(b)
      case NumberLiteral(t) => if DecodeInteger(t).Some? then DecodeInteger(t).value else Real(t)
      case StringLiteral(t) => String(StringOf(t))
      case List(isArray, _, items) => if isArray then Array(Stored(j, |items|)) else Object(Stored(j, |items|));
    Value(p, 0, 0)
  }

  /** The first `i` elements. */
  function Stored(j: Syntax, i: nat): seq<Entry>
    requires j.List? && i <= |j.items|
    decreases j, 0, i
  {
    if i == 0 then [] else Put(Stored(j, i - 1), KeyOf(j, i - 1), Meaning(j.items[i - 1].value))
  }

  lemma {:induction false} StoredSorted(j: Syntax, i: nat)
    requires j.List? && i <= |j.items|
    ensures Sorted(Stored(j, i)) && SameKind(Stored(j, i), !j.isArray)
  {
    hide Meaning, KeyLess, StringOf, Put;
    if i > 0 {
      StoredSorted(j, i - 1);
      PutSorted(Stored(j, i - 1), KeyOf(j, i - 1), Meaning(j.items[i - 1].value), !j.isArray);
    }
  }

  /** Under each name the last member of that name is found. */
  lemma LastMemberWins(j: Syntax, i: nat, k: Key)
    requires j.List? && 0 < i <= |j.items|
    ensures Find(Stored(j, i), k) ==
            if KeyOf(j, i - 1) == k then Some(Meaning(j.items[i - 1].value)) else Find(Stored(j, i - 1), k)
  {
    hide Meaning, KeyLess, StringOf, Put, Find;
    StoredSorted(j, i - 1);
    PutFinds(Stored(j, i - 1), KeyOf(j, i - 1), Meaning(j.items[i - 1].value), !j.isArray, k);
  }

  /** The elements of an array stay in order. */
  lemma {:induction false} ElementsInOrder(j: Syntax, i: nat)
    requires j.List? && j.isArray && i <= |j.items|
    ensures |Stored(j, i)| == i && Contiguous(Stored(j, i))
    ensures forall k | 0 <= k < i :: Stored(j, i)[k].value == Meaning(j.items[k].value)
  {
    hide Meaning, Put;
    if i > 0 {
      ElementsInOrder(j, i - 1);
      PutLast(Stored(j, i - 1), Meaning(j.items[i - 1].value));
      assert Stored(j, i) == Put(Stored(j, i - 1), Index(i - 1), Meaning(j.items[i - 1].value));
    }
  }

  predicate SameEntry(e: Entry, f: Entry) {
    e.key == f.key && Equal(e.value, f.value)
  }

  predicate SameEntries(es: seq<Entry>, fs: seq<Entry>) {
    |es| == |fs| && forall i | 0 <= i < |es| :: SameEntry(es[i], fs[i])
  }

  lemma PutSame(es: seq<Entry>, fs: seq<Entry>, k: Key, v: Value, w: Value)
    requires SameEntries(es, fs) && Equal(v, w)
    ensures SameEntries(Put(es, k, v), Put(fs, k, w))
  {
    hide Put, LowerBound, Equal;
    SameKeysSameBound(es, fs, k);
    PutOrigins(es, k, v);
    PutOrigins(fs, k, w);
    forall i | 0 <= i < |Put(es, k, v)| ensures SameEntry(Put(es, k, v)[i], Put(fs, k, w)[i]) {
      assert Origin(es, k, i) == Origin(fs, k, i);
    }
  }

  /** `c` holds the first `i` elements. */
  predicate Holds(c: Value, j: Syntax, i: nat)
    requires j.List? && i <= |j.items|
  {
    IsContainer(c) && c.payload.Array? == j.isArray && SameEntries(c.payload.entries, Stored(j, i))
  }

  lemma HoldsOneMore(c: Value, j: Syntax, i: nat, w: Value)
    requires j.List? && i < |j.items| && Holds(c, j, i) && Equal(w, Meaning(j.items[i].value))
    ensures Holds(WithEntry(c, KeyOf(j, i), w), j, i + 1)
  {
    hide SameEntries, Equal, Put;
    PutSame(c.payload.entries, Stored(j, i), KeyOf(j, i), w, Meaning(j.items[i].value));
  }

  lemma HoldsAll(c: Value, j: Syntax, limit: int)
    requires j.List? && Holds(c, j, |j.items|)
    ensures Equal(c.(limit := limit), Meaning(j))
  {
  }

  // ---- reading ----

  /** `o` is what reading the text with `depth` nodes on the stack gives: its meaning, if it is accepted, with `rest`
      spelled after it. */
  predicate Answers(cfg: Config, doc: Text, depth: nat, j: Syntax, rest: seq<Word>, q: nat, o: Outcome) {
    if Accepts(cfg, j, depth) then o.Read? && Equal(o.value, Meaning(j)) && Spells(doc, o.pos, rest, q) else !o.Read?
  }

  predicate ItemsAccepted(cfg: Config, j: Syntax, depth: nat, i: nat)
    requires j.List?
  {
    forall k | i <= k < |j.items| ::
      (j.isArray || NoLoneHigh(j.items[k].name)) && Accepts(cfg, j.items[k].value, depth + 1)
  }

  /** The same for a container's loop from item `i` on. */
  predicate ListAnswers(cfg: Config, doc: Text, depth: nat, j: Syntax, i: nat, rest: seq<Word>, q: nat, o: Outcome)
    requires j.List?
  {
    if ItemsAccepted(cfg, j, depth, i) then o.Read? && Holds(o.value, j, |j.items|) && Spells(doc, o.pos, rest, q)
    else !o.Read?
  }

  lemma ScalarAnswers(cfg: Config, doc: Text, depth: nat, p: nat, cur: Value, j: Syntax, rest: seq<Word>, q: nat)
    requires WellFormed(j) && !j.List? && depth <= cfg.stackLimit && Spells(doc, p, SyntaxWords(j) + rest, q)
    ensures Answers(cfg, doc, depth, j, rest, q, ReadValue(cfg, doc, depth, p, cur))
  {
    hide ReadToken, ScalarOutcome, Spells, Equal, WellFormed, Accepts;
    assert SyntaxWords(j) == [SyntaxWords(j)[0]];
    SpellsFirst(doc, p, SyntaxWords(j)[0], rest, q);
    var t := ReadToken(doc, p);
    NextIsRead(cfg, doc, p);
    assert ReadValue(cfg, doc, depth, p, cur) == ScalarOutcome(cfg, doc, t, cur);
    TokenAnswers(cfg, doc, depth, t, cur, j);
  }

  lemma TokenAnswers(cfg: Config, doc: Text, depth: nat, t: Token, cur: Value, j: Syntax)
    requires WellFormed(j) && !j.List? && depth <= cfg.stackLimit
    requires t.start < t.end <= |doc| && SyntaxWords(j) == [Word(t.kind, doc[t.start..t.end])]
    requires t.kind == StringToken ==> t.start + 2 <= t.end
    ensures var o := ScalarOutcome(cfg, doc, t, cur);
            if Accepts(cfg, j, depth) then o.Read? && Equal(o.value, Meaning(j)) && o.pos == t.end else !o.Read?
  {
    hide DecodeString, DecodeInteger, IsNumber, IsRawString, NoLoneHigh, StringOf;
    assert SyntaxWords(j)[0] == Word(t.kind, doc[t.start..t.end]);
    if j.StringLiteral? {
      StringAcceptedExactly(j.text);
      if NoLoneHigh(j.text) {
        StringMeans(j.text);
      }
    } else if j.NumberLiteral? && DecodeInteger(j.text).Some? {
      IntegerIsScalar(j.text);
    }
  }

  lemma IntegerIsScalar(t: Text)
    requires DecodeInteger(t).Some?
    ensures var p := DecodeInteger(t).value; p.Int? || p.UInt?
  {
    hide Accumulate;
  }

  lemma {:induction false} SyntaxAnswers(cfg: Config, doc: Text, depth: nat, p: nat, cur: Value, j: Syntax,
                                         rest: seq<Word>, q: nat)
    requires WellFormed(j) && Spells(doc, p, SyntaxWords(j) + rest, q)
    ensures Answers(cfg, doc, depth, j, rest, q, ReadValue(cfg, doc, depth, p, cur))
    decreases j, 2
  {
    hide Spells, ReadToken, ReadMembers, ReadElements, Stored, Equal, ItemWords, Joined;
    if depth > cfg.stackLimit {
    } else if !j.List? {
      ScalarAnswers(cfg, doc, depth, p, cur, j, rest, q);
    } else {
      var begin, end := BeginWord(Shell(j)), EndWord(Shell(j));
      var inside := if j.items == [] then [end] + rest else FromItem(ItemWords(j), end, 0, rest);
      ListUnfolds(begin, ItemWords(j), end, rest);
      SpellsFirst(doc, p, begin, inside, q);
      NextIsRead(cfg, doc, p);
      var t := ReadToken(doc, p);
      var c := Value(Shell(j).payload, t.start, cur.limit);
      InsideAnswers(cfg, doc, depth, t.end, c, j, rest, q);
      var o := ReadList(cfg, doc, depth, t.end, c);
      assert ReadValue(cfg, doc, depth, p, cur) == Limited(o);
      if o.Read? && ItemsAccepted(cfg, j, depth, 0) {
        HoldsAll(o.value, j, o.pos);
      }
    }
  }

  /** readArray or readObject, after the opening bracket. */
  lemma {:induction false} InsideAnswers(cfg: Config, doc: Text, depth: nat, p: nat, c: Value, j: Syntax,
                                         rest: seq<Word>, q: nat)
    requires WellFormed(j) && j.List? && c.payload == Shell(j).payload
    requires Spells(doc, p, if j.items == [] then [EndWord(Shell(j))] + rest
                            else FromItem(ItemWords(j), EndWord(Shell(j)), 0, rest), q)
    requires p <= |doc|
    ensures ListAnswers(cfg, doc, depth, j, 0, rest, q, ReadList(cfg, doc, depth, p, c))
    decreases j, 1
  {
    hide Spells, ReadToken, ReadMembers, ReadElements, ItemWords, WellFormed;
    assert Holds(c, j, 0);
    if j.items == [] {
      SpellsFirst(doc, p, EndWord(Shell(j)), rest, q);
      EmptyListRead(cfg, doc, depth, p, c);
    } else if j.isArray {
      var ws := FromItem(ItemWords(j), EndWord(Shell(j)), 0, rest);
      FirstIsNoEnd(j, rest);
      FirstTokenKind(doc, p, ws, q);
      BracketAhead(doc, p);
      var s := SkipSpaces(doc, p);
      SpellsFromToken(doc, p, s, ws, q);
      ElementsAnswer(cfg, doc, depth, s, c, j, 0, rest, q);
      assert ReadList(cfg, doc, depth, p, c) == ReadElements(cfg, doc, depth, s, c, 0);
    } else {
      MembersAnswer(cfg, doc, depth, p, c, [], j, 0, rest, q);
    }
  }

  lemma FirstTokenKind(doc: Text, p: nat, ws: seq<Word>, q: nat)
    requires Spells(doc, p, ws, q) && ws != []
    ensures p <= |doc| && ReadToken(doc, p).kind == ws[0].kind
  {
  }

  lemma FirstIsNoEnd(j: Syntax, rest: seq<Word>)
    requires j.List? && j.isArray && j.items != []
    ensures var ws := FromItem(ItemWords(j), EndWord(Shell(j)), 0, rest); ws != [] && ws[0].kind != ArrayEnd
  {
    FirstWord(j.items[0].value);
  }

  lemma FirstWord(j: Syntax)
    ensures SyntaxWords(j) != [] && SyntaxWords(j)[0].kind != ArrayEnd
  {
  }

  /** An item of an array: its words, and what is left. */
  lemma ElementWordsAre(j: Syntax, i: nat, rest: seq<Word>)
    requires j.List? && j.isArray && i < |j.items|
    ensures var end := EndWord(Shell(j));
            FromItem(ItemWords(j), end, i, rest) ==
            SyntaxWords(j.items[i].value) + FromComma(ItemWords(j), end, i + 1, rest)
  {
    assert [] + SyntaxWords(j.items[i].value) == SyntaxWords(j.items[i].value);
  }

  lemma MemberWordsAre(j: Syntax, i: nat, rest: seq<Word>)
    requires j.List? && !j.isArray && i < |j.items|
    ensures var end, name := EndWord(Shell(j)), Word(StringToken, j.items[i].name);
            FromItem(ItemWords(j), end, i, rest) ==
            [name] + ([NAME_SEPARATOR] + (SyntaxWords(j.items[i].value) + FromComma(ItemWords(j), end, i + 1, rest)))
  {
    var end, name := EndWord(Shell(j)), Word(StringToken, j.items[i].name);
    var value, after := SyntaxWords(j.items[i].value), FromComma(ItemWords(j), end, i + 1, rest);
    assert NameWords(false, j.items[i]) == [name] + [NAME_SEPARATOR];
    Associate([name] + [NAME_SEPARATOR], value, after);
    Associate([name], [NAME_SEPARATOR], value + after);
  }

  /** From an item and the ones after it to all of them. */
  lemma ItemsCombine(cfg: Config, doc: Text, depth: nat, j: Syntax, i: nat, rest: seq<Word>, q: nat, child: Outcome,
                     o: Outcome)
    requires j.List? && i < |j.items| && (j.isArray || NoLoneHigh(j.items[i].name))
    requires child.Read? <==> Accepts(cfg, j.items[i].value, depth + 1)
    requires !child.Read? ==> !o.Read?
    requires child.Read? ==> ListAnswers(cfg, doc, depth, j, i + 1, rest, q, o)
    ensures ListAnswers(cfg, doc, depth, j, i, rest, q, o)
  {
    hide Accepts, NoLoneHigh, Holds, Spells;
  }

  lemma {:induction false} ElementsAnswer(cfg: Config, doc: Text, depth: nat, p: nat, arr: Value, j: Syntax, i: nat,
                                          rest: seq<Word>, q: nat)
    requires WellFormed(j) && j.List? && j.isArray && i < |j.items| && Holds(arr, j, i) && p <= |doc|
    requires Spells(doc, p, FromItem(ItemWords(j), EndWord(Shell(j)), i, rest), q)
    ensures ListAnswers(cfg, doc, depth, j, i, rest, q, ReadElements(cfg, doc, depth, p, arr, i))
    decreases j, 0, |j.items| - i
  {
    hide Spells, ReadToken, ReadValue, ReadElements, ItemWords, Accepts, Meaning, Equal, Holds, FromItem, FromComma;
    var value, after := j.items[i].value, FromComma(ItemWords(j), EndWord(Shell(j)), i + 1, rest);
    ElementWordsAre(j, i, rest);
    FromCommaUnfolds(ItemWords(j), EndWord(Shell(j)), i + 1, rest);
    HoldsContainer(arr, j, i);
    SyntaxAnswers(cfg, doc, depth + 1, p, SlotOf(arr, Index(i)), value, after, q);
    var child := ReadValue(cfg, doc, depth + 1, p, SlotOf(arr, Index(i)));
    ElementStep(cfg, doc, depth, p, arr, i);
    if !child.Read? {
      ElementStops(cfg, doc, depth, p, arr, i);
    }
    if child.Read? {
      HoldsOneMore(arr, j, i, child.value);
      var t := ReadToken(doc, child.pos);
      if i + 1 < |j.items| {
        SpellsFirst(doc, child.pos, SEPARATOR, FromItem(ItemWords(j), EndWord(Shell(j)), i + 1, rest), q);
        ElementsAnswer(cfg, doc, depth, t.end, WithEntry(arr, Index(i), child.value), j, i + 1, rest, q);
      } else {
        SpellsFirst(doc, child.pos, EndWord(Shell(j)), rest, q);
      }
    }
    ItemsCombine(cfg, doc, depth, j, i, rest, q, child, ReadElements(cfg, doc, depth, p, arr, i));
  }

  lemma HoldsContainer(c: Value, j: Syntax, i: nat)
    requires j.List? && i <= |j.items| && Holds(c, j, i)
    ensures IsContainer(c) && c.payload.Array? == j.isArray
  {
  }

  lemma ElementStops(cfg: Config, doc: Text, depth: nat, p: nat, arr: Value, i: nat)
    requires p <= |doc| && arr.payload.Array? && !ReadValue(cfg, doc, depth + 1, p, SlotOf(arr, Index(i))).Read?
    ensures !ReadElements(cfg, doc, depth, p, arr, i).Read?
  {
    hide ReadValue, AfterElement, Recover, WithEntry;
    assert ElementRound(cfg, doc, depth, p, arr, i) == Stop(ReadChild(cfg, doc, depth, p, arr, Index(i), ArrayEnd));
  }

  lemma MemberStops(cfg: Config, doc: Text, depth: nat, p: nat, obj: Value, previous: Text, name: Text, m: nat)
    requires p <= |doc| && obj.payload.Object? && ReadName(doc, p, previous) == Named(name, m)
    requires !ReadValue(cfg, doc, depth + 1, m, SlotOf(obj, Name(name))).Read?
    ensures !ReadMembers(cfg, doc, depth, p, obj, previous).Read?
  {
    hide ReadValue, ReadName, AfterMember, Recover, WithEntry;
    var child := ReadChild(cfg, doc, depth, m, obj, Name(name), ObjectEnd);
    assert MemberValue(cfg, doc, depth, m, obj, name) == Stop(child);
    assert MemberRound(cfg, doc, depth, p, obj, previous) == MemberValue(cfg, doc, depth, m, obj, name);
  }

  lemma NameStops(cfg: Config, doc: Text, depth: nat, p: nat, obj: Value, previous: Text)
    requires p <= |doc| && obj.payload.Object? && ReadName(doc, p, previous).BadName?
    ensures !ReadMembers(cfg, doc, depth, p, obj, previous).Read?
  {
    hide ReadName, ReadValue;
    assert MemberRound(cfg, doc, depth, p, obj, previous).Stop?;
  }

  /** A name token and its colon. */
  lemma NameAnswers(doc: Text, p: nat, previous: Text, name: Text, rest: seq<Word>, q: nat) returns (m: nat)
    requires IsString(name) && Spells(doc, p, [Word(StringToken, name)] + ([NAME_SEPARATOR] + rest), q)
    ensures p <= |doc|
    ensures if NoLoneHigh(name) then ReadName(doc, p, previous) == Named(StringOf(name), m) && Spells(doc, m, rest, q)
            else ReadName(doc, p, previous).BadName?
  {
    hide ReadToken, DecodeString, IsRawString, NoLoneHigh, Recover, StringOf;
    var t := ReadToken(doc, p);
    SpellsFirst(doc, p, Word(StringToken, name), [NAME_SEPARATOR] + rest, q);
    SpellsFirst(doc, t.end, NAME_SEPARATOR, rest, q);
    StringAcceptedExactly(name);
    if NoLoneHigh(name) {
      StringMeans(name);
    }
    m := ReadToken(doc, t.end).end;
  }

  lemma {:induction false} MembersAnswer(cfg: Config, doc: Text, depth: nat, p: nat, obj: Value, previous: Text,
                                         j: Syntax, i: nat, rest: seq<Word>, q: nat)
    requires WellFormed(j) && j.List? && !j.isArray && i < |j.items| && Holds(obj, j, i) && p <= |doc|
    requires Spells(doc, p, FromItem(ItemWords(j), EndWord(Shell(j)), i, rest), q)
    ensures ListAnswers(cfg, doc, depth, j, i, rest, q, ReadMembers(cfg, doc, depth, p, obj, previous))
    decreases j, 0, |j.items| - i
  {
    hide Spells, ReadToken, ReadValue, ReadMembers, ReadName, ItemWords, Accepts, Meaning, Equal, Holds, FromItem,
        FromComma;
    var name, value := j.items[i].name, j.items[i].value;
    var after := FromComma(ItemWords(j), EndWord(Shell(j)), i + 1, rest);
    MemberWordsAre(j, i, rest);
    FromCommaUnfolds(ItemWords(j), EndWord(Shell(j)), i + 1, rest);
    HoldsContainer(obj, j, i);
    assert WellFormedItem(false, j.items[i]);
    var m := NameAnswers(doc, p, previous, name, SyntaxWords(value) + after, q);
    if !NoLoneHigh(name) {
      NameStops(cfg, doc, depth, p, obj, previous);
    } else {
      SyntaxAnswers(cfg, doc, depth + 1, m, SlotOf(obj, KeyOf(j, i)), value, after, q);
      var child := ReadValue(cfg, doc, depth + 1, m, SlotOf(obj, KeyOf(j, i)));
      MemberStep(cfg, doc, depth, p, obj, previous, StringOf(name), m);
      if child.Read? {
        HoldsOneMore(obj, j, i, child.value);
        var t := ReadToken(doc, child.pos);
        if i + 1 < |j.items| {
          SpellsFirst(doc, child.pos, SEPARATOR, FromItem(ItemWords(j), EndWord(Shell(j)), i + 1, rest), q);
          MembersAnswer(cfg, doc, depth, t.end, WithEntry(obj, KeyOf(j, i), child.value), StringOf(name), j, i + 1,
              rest, q);
        } else {
          SpellsFirst(doc, child.pos, EndWord(Shell(j)), rest, q);
        }
      } else {
        MemberStops(cfg, doc, depth, p, obj, previous, StringOf(name), m);
      }
      ItemsCombine(cfg, doc, depth, j, i, rest, q, child, ReadMembers(cfg, doc, depth, p, obj, previous));
    }
  }

  /** Every JSON text of RFC 8259, with white space before it, whatever the features are and whatever follows it that
      does not make a final number longer, is accepted exactly if the reader's further demands are met, and then with
      its meaning; strict root refuses scalars. */
  lemma AcceptedExactly(cfg: Config, before: Text, j: Syntax, after: Text, root0: Value)
    requires WellFormed(j) && AllSpaces(before)
    requires j.NumberLiteral? && after != [] ==> !ExtendsNumber(after[0])
    ensures var r := Parse(cfg, before + SyntaxText(j) + after, root0);
            && (r.Parsed? && r.ok <==> Accepts(cfg, j, 1) && (cfg.strictRoot ==> j.List?))
            && (Accepts(cfg, j, 1) ==> r.Parsed? && Equal(r.root, Meaning(j)))
  {
    hide Renders, RendersClosed, SyntaxText, SyntaxWords, ReadValue, Accepts, Stored;
    var text, words := before + SyntaxText(j), SyntaxWords(j);
    BlankRenders(before);
    SyntaxRenders(j);
    RendersAfterClosed(before, [], SyntaxText(j), words);
    if !j.NumberLiteral? {
      ClosedConcat(before, [], SyntaxText(j), words);
    }
    assert [] + words == words;
    StandsFirst(text, words, after, !j.NumberLiteral?);
    assert words + [] == words;
    SyntaxAnswers(cfg, text + after, 1, 0, root0, j, [], |text|);
  }

  /** A text at the start of a document reads as its words. */
  lemma StandsFirst(text: Text, words: seq<Word>, after: Text, closed: bool)
    requires if closed then RendersClosed(text, words) else Renders(text, words)
    requires !closed && after != [] ==> !ExtendsNumber(after[0])
    ensures Spells(text + after, 0, words, |text|)
  {
    hide Spells;
    var doc := text + after;
    assert doc[0..|text|] == text;
    assert TextAt(doc, 0, text);
    assert 0 + |text| == |text|;
  }
}
