/** Nothing else is accepted: what is read is a text of the relaxed grammar, with its meaning. */
module Soundness {
  import opened Bytes
  import opened Values
  import opened Lexer
  import opened Decoding
  import opened Unicode
  import opened Parsing
  import opened Grammar
  import opened Acceptance
  import opened Locality
  import opened Leniencies
  import opened Slices
  import opened SliceLaw
  import opened Trailing
  import opened RelaxedGrammar

  lemma SlicesJoin(doc: Text, a: nat, b: nat, c: nat)
    requires a <= b <= c <= |doc|
    ensures doc[a..b] + doc[b..c] == doc[a..c]
  {
  }

  lemma SliceParts(doc: Text, a: nat, b: nat, c: nat)
    requires a <= b <= c <= |doc|
    ensures doc[a..c][..b - a] == doc[a..b] && doc[a..c][b - a..] == doc[b..c]
  {
  }

  // ---- white space and comments ----

  lemma BlankStep(t: Text, k: nat)
    requires 0 < k <= |t| && StartsBlank(t, k) && IsBlank(t[k..])
    ensures IsBlank(t)
  {
  }

  lemma {:induction false} SpacesThenBlank(t: Text, k: nat)
    requires k <= |t| && AllSpaces(t[..k]) && IsBlank(t[k..])
    ensures IsBlank(t)
    decreases k
  {
    hide IsBlank, IsComment;
    if k > 0 {
      assert t[0] == t[..k][0];
      assert t[1..][..k - 1] == t[..k][1..] && t[1..][k - 1..] == t[k..];
      SpacesThenBlank(t[1..], k - 1);
      BlankStep(t, 1);
    } else {
      assert t[0..] == t;
    }
  }

  lemma SpacesAreBlank(t: Text)
    requires AllSpaces(t)
    ensures IsBlank(t)
  {
    assert t[..|t|] == t && t[|t|..] == [];
    SpacesThenBlank(t, |t|);
  }

  /** A comment that does not end the document is a comment of the grammar. */
  lemma BlockIs(doc: Text, s: nat, e: nat)
    requires s + 2 <= |doc| && doc[s] == SLASH && doc[s + 1] == STAR && ReadCStyleComment(doc, s + 2) == Scan(true, e)
    requires e < |doc|
    ensures IsComment(doc[s..e])
  {
    hide ReadCStyleComment;
    BlockCommentCloses(doc, s + 2);
    var c := doc[s..e];
    assert TerminatorAt(doc, e - 2);
    forall k | 2 <= k < |c| - 2 ensures !(c[k] == STAR && c[k + 1] == SLASH) {
      assert !TerminatorAt(doc, s + k);
    }
  }

  lemma {:induction false} LineEnds(doc: Text, p: nat) returns (m: nat)
    requires p <= |doc| && ReadCppStyleComment(doc, p) < |doc|
    ensures p <= m < ReadCppStyleComment(doc, p) && IsLineEnd(doc[m..ReadCppStyleComment(doc, p)])
    ensures forall k | p <= k < m :: doc[k] != LF && doc[k] != CR
    decreases |doc| - p
  {
    if doc[p] == LF || doc[p] == CR {
      m := p;
    } else {
      m := LineEnds(doc, p + 1);
    }
  }

  lemma LineIs(doc: Text, s: nat, e: nat)
    requires s + 2 <= |doc| && doc[s] == SLASH && doc[s + 1] == SLASH && ReadCppStyleComment(doc, s + 2) == e < |doc|
    ensures IsComment(doc[s..e])
  {
    hide ReadCppStyleComment;
    var m := LineEnds(doc, s + 2);
    var c := doc[s..e];
    assert c[m - s..] == doc[m..e];
    assert LineCommentTo(c, m - s);
  }

  lemma CommentIs(doc: Text, p: nat)
    requires p <= |doc| && ReadToken(doc, p).kind == Comment && ReadToken(doc, p).end < |doc|
    ensures var t := ReadToken(doc, p); t.start == SkipSpaces(doc, p) < t.end && IsComment(doc[t.start..t.end])
    ensures doc[ReadToken(doc, p).start] == SLASH
  {
    hide ReadString, ReadNumber, Match, IsComment, ReadCStyleComment, ReadCppStyleComment;
    var t := ReadToken(doc, p);
    if doc[t.start + 1] == STAR {
      BlockIs(doc, t.start, t.end);
    } else {
      LineIs(doc, t.start, t.end);
    }
  }

  lemma NotAllSpaces(t: Text, i: nat)
    requires i < |t| && t[i] == SLASH
    ensures !AllSpaces(t)
  {
  }

  /** What stands before the next token is white space and comments. */
  lemma {:induction false} BlankBefore(doc: Text, p: nat)
    requires p <= |doc| && SkipComments(doc, p).start < |doc|
    ensures IsBlank(doc[p..SkipComments(doc, p).start])
    ensures ReadToken(doc, p).kind == Comment ==> !AllSpaces(doc[p..SkipComments(doc, p).start])
    decreases |doc| - p
  {
    hide ReadToken, IsBlank, IsComment, AllSpaces, IsSpace;
    var t, q := ReadToken(doc, p), SkipComments(doc, p).start;
    SpacesOnly(doc, p);
    TokenAfterSpaces(doc, p);
    if t.kind == Comment {
      CommentBefore(doc, p);
      CommentIs(doc, p);
      BlankBefore(doc, t.end);
      var u := doc[t.start..q];
      SliceParts(doc, t.start, t.end, q);
      BlankStep(u, t.end - t.start);
      var w := doc[p..q];
      SliceParts(doc, p, t.start, q);
      SpacesThenBlank(w, t.start - p);
      NotAllSpaces(w, t.start - p);
    } else {
      SpacesAreBlank(doc[p..q]);
    }
  }

  lemma TokenAfterSpaces(doc: Text, p: nat)
    requires p <= |doc|
    ensures ReadToken(doc, p).start == SkipSpaces(doc, p)
  {
    hide TokenAt;
  }

  lemma LeadBefore(cfg: Config, doc: Text, p: nat)
    requires p <= |doc| && NextToken(cfg, doc, p).start < |doc|
    ensures MayLead(cfg, doc[p..NextToken(cfg, doc, p).start])
  {
    hide ReadToken, IsBlank;
    if cfg.allowComments {
      BlankBefore(doc, p);
    } else {
      SpacesOnly(doc, p);
      TokenAfterSpaces(doc, p);
    }
  }

  // ---- scalars ----

  lemma {:induction false} DigitsFound(doc: Text, p: nat)
    requires p <= |doc|
    ensures forall k | p <= k < ScanDigits(doc, p) :: IsDigit(doc[k])
    decreases |doc| - p
  {
    if p < |doc| && IsDigit(doc[p]) {
      DigitsFound(doc, p + 1);
    }
  }

  /** The digits of the document from `i` to `j` are digits of its part from `s` to `e`. */
  lemma DigitsOf(doc: Text, s: nat, i: nat, j: nat, e: nat)
    requires s <= i <= j <= e <= |doc| && ScanDigits(doc, i) == j
    ensures SomeDigits(doc[s..e], i - s, j - s)
  {
    hide ScanDigits;
    DigitsFound(doc, i);
  }

  lemma FractionIs(doc: Text, s: nat, a: nat, b: nat, e: nat)
    requires s <= a <= b <= e <= |doc| && ScanFraction(doc, a) == b
    ensures b == a || (doc[a] == DOT && SomeDigits(doc[s..e], a + 1 - s, b - s))
  {
    hide ScanDigits, SomeDigits;
    if b > a {
      DigitsOf(doc, s, a + 1, b, e);
    }
  }

  lemma ExponentIs(doc: Text, s: nat, b: nat, e: nat)
    requires s <= b <= e <= |doc| && ScanExponent(doc, b) == e
    ensures e == b || (IsExponentMark(doc[b]) && SomeDigits(doc[s..e], AfterSign(doc[s..e], b + 1 - s), e - s))
  {
    hide ScanDigits, SomeDigits;
    if e > b {
      var signed := b + 1 < |doc| && IsSign(doc[b + 1]);
      DigitsOf(doc, s, if signed then b + 2 else b + 1, e, e);
    }
  }

  lemma NumberIs(doc: Text, s: nat)
    requires s < |doc| && (IsDigit(doc[s]) || doc[s] == MINUS)
    ensures IsRelaxedNumber(doc[s..ReadNumber(doc, s + 1)])
  {
    hide ScanDigits, ScanFraction, ScanExponent, SomeDigits, AfterSign;
    var a := ScanDigits(doc, s + 1);
    var b := ScanFraction(doc, a);
    var e := ScanExponent(doc, b);
    DigitsOf(doc, s, s + 1, a, e);
    FractionIs(doc, s, a, b, e);
    ExponentIs(doc, s, b, e);
    assert RelaxedParts(doc[s..e], a - s, b - s);
  }

  /** A string token whose escapes all decode is a string of the relaxed grammar. */
  lemma {:induction false} BodyIs(t: Text, i: nat, end: nat)
    requires i <= end < |t| && ReadString(t, i) == Scan(true, end + 1) && DecodeChars(t, i, end).Bytes?
    ensures IsBody(t, i, end) && HighsPaired(t, i, end)
    decreases end - i
  {
    hide CodePointToUTF8, HexCode, EscapeLetter, FourHexAt, IsHexDigit;
    if i < end {
      if t[i] != BACKSLASH {
        BodyIs(t, i + 1, end);
      } else {
        EscapeIs(t, i, end);
        var next := DecodeChar(t, i, end).next;
        EscapeScanned(t, i, end, next);
        BodyIs(t, next, end);
      }
    }
  }

  /** An escape that decodes: one letter, one unit, or two units of which the first is a high surrogate. */
  predicate EscapeTo(t: Text, i: nat, end: nat, next: nat)
    requires i < end <= |t|
  {
    if UnitEscapeAt(t, i, end) then
      if IsHighUnit(t, i, end) then UnitEscapeAt(t, i + 6, end) && next == i + 12 else next == i + 6
    else next == i + 2 <= end && EscapeLetter(t[i + 1]).Some?
  }

  lemma EscapeIs(t: Text, i: nat, end: nat)
    requires i < end <= |t| && t[i] == BACKSLASH && DecodeChar(t, i, end).Char?
    ensures EscapeTo(t, i, end, DecodeChar(t, i, end).next)
    ensures CharEnd(t, i, end) == Some(if UnitEscapeAt(t, i, end) then i + 6 else i + 2)
  {
    hide CodePointToUTF8, HexDigits;
    if i + 1 < end && t[i + 1] == 0x75 {
      var u := EscapeSequence(t, i + 2, end);
      HexDigitsFound(t, i + 2, end);
      FourDigitsDecode(t, i + 2, end);
      if IsHighSurrogate(u.code) {
        HexDigitsFound(t, i + 8, end);
      }
    }
  }

  lemma HexDigitsFound(t: Text, i: nat, end: nat)
    requires i <= end <= |t| && EscapeSequence(t, i, end).Unit?
    ensures i + 4 <= end && FourHexAt(t, i)
  {
    HexValueIs(t[i]);
    HexValueIs(t[i + 1]);
    HexValueIs(t[i + 2]);
    HexValueIs(t[i + 3]);
    assert HexDigits(t, i, i + 4, 0).Unit?;
    var a := HexValue(t[i]).value;
    assert HexDigits(t, i + 1, i + 4, a).Unit?;
    var b := a * 16 + HexValue(t[i + 1]).value;
    assert HexDigits(t, i + 2, i + 4, b).Unit?;
    var c := b * 16 + HexValue(t[i + 2]).value;
    assert HexDigits(t, i + 3, i + 4, c).Unit?;
  }

  /** The lexer passes over the same bytes. */
  lemma EscapeScanned(t: Text, i: nat, end: nat, next: nat)
    requires i < end < |t| && t[i] == BACKSLASH && EscapeTo(t, i, end, next)
    ensures ReadString(t, i) == ReadString(t, next)
  {
    hide HexCode;
    WholeText(t);
    if UnitEscapeAt(t, i, end) {
      UnitScanned(t, 0, t, i, end);
      if next == i + 12 {
        UnitScanned(t, 0, t, i + 6, end);
      }
    }
  }

  lemma StringIs(doc: Text, t: Token)
    requires t.start + 2 <= t.end <= |doc| && ReadToken(doc, t.start) == t && t.kind == StringToken
    requires DecodeString(Lexeme(doc, t)).Bytes?
    ensures NoLoneHigh(Lexeme(doc, t)) && DecodeString(Lexeme(doc, t)) == Bytes(StringOf(Lexeme(doc, t)))
  {
    hide DecodeChars, ReadNumber, ReadComment, Match, ReadString, HighsPaired, IsBody, BodyMeaning;
    var x := Lexeme(doc, t);
    assert TokenAt(doc, t.start) == t by { hide ReadString; }
    assert ReadString(doc, t.start + 1) == Scan(true, t.end);
    ReadStringIn(doc, x, t.start, t.end, t.start + 1);
    assert x[|x| - 1] == doc[t.end - 1] && x[0] == doc[t.start];
    BodyIs(x, 1, |x| - 1);
    StringMeans(x);
  }

  lemma ScalarRelaxed(cfg: Config, doc: Text, t: Token, cur: Value) returns (j: Relaxed)
    requires t.start <= t.end <= |doc| && (t.kind == StringToken ==> t.start + 2 <= t.end)
    requires t.kind != EndOfStream ==> t.start < t.end
    requires ReadToken(doc, t.start) == t && ScalarOutcome(cfg, doc, t, cur).Read?
    ensures t.start <= ScalarOutcome(cfg, doc, t, cur).pos
    ensures RelaxedText(j) == doc[t.start..ScalarOutcome(cfg, doc, t, cur).pos] && IsRelaxed(cfg, j)
    ensures Equal(ScalarOutcome(cfg, doc, t, cur).value, RelaxedMeaning(j))
  {
    hide DecodeString, DecodeInteger, NoLoneHigh, IsRelaxedNumber, ReadToken, StringOf;
    if t.kind == StringToken {
      j := StringText(Lexeme(doc, t));
      StringIs(doc, t);
    } else if t.kind == NumberToken {
      j := NumberText(Lexeme(doc, t));
      NumberTokenIs(doc, t);
      if DecodeInteger(j.text).Some? {
        IntegerIsScalar(j.text);
      }
    } else if t.kind in {TrueToken, FalseToken, NullToken} {
      j := if t.kind == NullToken then NullText else BooleanText(t.kind == TrueToken);
      LiteralIs(doc, t);
    } else {
      j := NoText;
      DroppedRead(cfg, doc, t, cur);
    }
  }

  lemma NumberTokenIs(doc: Text, t: Token)
    requires t.start < t.end <= |doc| && ReadToken(doc, t.start) == t && t.kind == NumberToken
    ensures IsRelaxedNumber(Lexeme(doc, t))
  {
    hide ReadString, ReadNumber, ReadComment, Match, IsRelaxedNumber;
    NumberIs(doc, t.start);
  }

  lemma LiteralIs(doc: Text, t: Token)
    requires t.start < t.end <= |doc| && ReadToken(doc, t.start) == t && t.kind in {TrueToken, FalseToken, NullToken}
    ensures doc[t.start..t.end] ==
            if t.kind == TrueToken then TRUE_TEXT else if t.kind == FalseToken then FALSE_TEXT else NULL_TEXT
  {
    hide ReadString, ReadNumber, ReadComment;
    SlicesJoin(doc, t.start, t.start + 1, t.end);
    assert doc[t.start..t.start + 1] == [doc[t.start]];
  }

  // ---- containers ----

  /** `c` holds what the items mean. */
  predicate HoldsItems(c: Value, isArray: bool, items: seq<RelaxedItem>) {
    IsContainer(c) && c.payload.Array? == isArray && SameEntries(c.payload.entries, StoredItems(isArray, items))
  }

  lemma HoldsItem(c: Value, isArray: bool, items: seq<RelaxedItem>, e: RelaxedItem, w: Value)
    requires HoldsItems(c, isArray, items) && Equal(w, RelaxedMeaning(e.value))
    ensures HoldsItems(WithEntry(c, ItemKey(isArray, |items|, e), w), isArray, items + [e])
    ensures var d := WithEntry(c, ItemKey(isArray, |items|, e), w); IsContainer(d) && d.payload.Array? == isArray
  {
    hide SameEntries, Equal, Put;
    assert (items + [e])[..|items|] == items;
    PutSame(c.payload.entries, StoredItems(isArray, items), ItemKey(isArray, |items|, e), w, RelaxedMeaning(e.value));
  }

  lemma {:induction false} ValueRelaxed(cfg: Config, doc: Text, depth: nat, p: nat, cur: Value)
    returns (lead: Text, j: Relaxed)
    requires p <= |doc| && ReadValue(cfg, doc, depth, p, cur).Read?
    ensures var o := ReadValue(cfg, doc, depth, p, cur);
            lead + RelaxedText(j) == doc[p..o.pos] && Equal(o.value, RelaxedMeaning(j))
    ensures MayLead(cfg, lead) && IsRelaxed(cfg, j)
    decreases |doc| - p, 0
  {
    hide NextToken, ScalarOutcome, ReadMembers, ReadArray, MayLead, IsRelaxed, RelaxedText, RelaxedMeaning, Equal;
    var t, q := NextToken(cfg, doc, p), ReadValue(cfg, doc, depth, p, cur).pos;
    lead := doc[p..t.start];
    TokenBeforeSeparator(cfg, doc, depth, p, cur);
    LeadBefore(cfg, doc, p);
    if t.kind == ObjectBegin {
      j := ObjectRelaxed(cfg, doc, depth, t, cur.limit);
    } else if t.kind == ArrayBegin {
      j := ArrayRelaxed(cfg, doc, depth, t, cur.limit);
    } else {
      j := ScalarRelaxed(cfg, doc, t, cur);
    }
    SlicesJoin(doc, p, t.start, q);
  }

  lemma OneByteText(doc: Text, t: Token)
    requires t.start <= |doc| && ReadToken(doc, t.start) == t
    requires t.kind in {ObjectBegin, ObjectEnd, ArrayBegin, ArrayEnd, ArraySeparator, MemberSeparator}
    ensures t.end == t.start + 1 <= |doc|
    ensures t.kind == ObjectBegin ==> doc[t.start] == LBRACE
    ensures t.kind == ObjectEnd ==> doc[t.start] == RBRACE
    ensures t.kind == ArrayBegin ==> doc[t.start] == LBRACKET
    ensures t.kind == ArrayEnd ==> doc[t.start] == RBRACKET
    ensures t.kind == ArraySeparator ==> doc[t.start] == COMMA
    ensures t.kind == MemberSeparator ==> doc[t.start] == COLON
  {
  }

  lemma {:induction false} ObjectRelaxed(cfg: Config, doc: Text, depth: nat, t: Token, limit: int) returns (j: Relaxed)
    requires t.start < t.end <= |doc| && ReadToken(doc, t.start) == t && t.kind == ObjectBegin
    requires ReadMembers(cfg, doc, depth, t.end, Value(Object([]), t.start, limit), []).Read?
    ensures var o := ReadMembers(cfg, doc, depth, t.end, Value(Object([]), t.start, limit), []);
            RelaxedText(j) == doc[t.start..o.pos] && Equal(o.value.(limit := o.pos), RelaxedMeaning(j))
    ensures IsRelaxed(cfg, j)
    decreases |doc| - t.end, 6
  {
    hide ReadMembers, AreMembers, Equal, ReadToken, ItemsText, HoldsItems, RelaxedMeaning;
    var obj := Value(Object([]), t.start, limit);
    EmptyHolds(obj, false);
    var items, end := MembersRelaxed(cfg, doc, depth, t.end, obj, [], []);
    var o := ReadMembers(cfg, doc, depth, t.end, obj, []);
    assert [] + items == items;
    j := ListText(false, items, end);
    OneByteText(doc, t);
    SlicesJoin(doc, t.start, t.end, o.pos);
    assert doc[t.start..t.end] == [LBRACE];
    HoldsEqual(o.value, j, o.pos);
  }

  lemma EmptyHolds(c: Value, isArray: bool)
    requires IsContainer(c) && c.payload.Array? == isArray && c.payload.entries == []
    ensures HoldsItems(c, isArray, [])
  {
  }

  lemma HoldsEqual(c: Value, j: Relaxed, limit: int)
    requires j.ListText? && HoldsItems(c, j.isArray, j.items)
    ensures Equal(c.(limit := limit), RelaxedMeaning(j))
  {
  }

  lemma {:induction false} ArrayRelaxed(cfg: Config, doc: Text, depth: nat, t: Token, limit: int) returns (j: Relaxed)
    requires t.start < t.end <= |doc| && ReadToken(doc, t.start) == t && t.kind == ArrayBegin
    requires Parsing.ReadArray(cfg, doc, depth, t.end, Value(Array([]), t.start, limit)).Read?
    ensures var o := Parsing.ReadArray(cfg, doc, depth, t.end, Value(Array([]), t.start, limit));
            RelaxedText(j) == doc[t.start..o.pos] && Equal(o.value.(limit := o.pos), RelaxedMeaning(j))
    ensures IsRelaxed(cfg, j)
    decreases |doc| - t.end, 6
  {
    hide ReadElements, Equal, ReadToken, SkipSpaces, HoldsItems, RelaxedMeaning, IsRelaxed, RelaxedText, AllSpaces;
    var arr, s := Value(Array([]), t.start, limit), SkipSpaces(doc, t.end);
    EmptyHolds(arr, true);
    SpacesOnly(doc, t.end);
    OneByteText(doc, t);
    if s < |doc| && doc[s] == RBRACKET {
      j := ListText(true, [], doc[t.end..s]);
      EmptyArrayText(cfg, doc[t.end..s]);
      BracketsAround(doc, t.start, s);
      HoldsEqual(arr, j, s + 1);
    } else {
      j := FullArrayRelaxed(cfg, doc, depth, t.start, s, arr);
    }
  }

  lemma BracketsAround(doc: Text, b: nat, s: nat)
    requires b + 1 <= s < |doc| && doc[b] == LBRACKET && doc[s] == RBRACKET
    ensures doc[b..s + 1] == [LBRACKET] + (doc[b + 1..s] + [RBRACKET])
  {
  }

  lemma {:induction false} FullArrayRelaxed(cfg: Config, doc: Text, depth: nat, b: nat, s: nat, arr: Value)
    returns (j: Relaxed)
    requires b + 1 <= s <= |doc| && doc[b] == LBRACKET && AllSpaces(doc[b + 1..s])
    requires arr.payload.Array? && HoldsItems(arr, true, []) && ReadElements(cfg, doc, depth, s, arr, 0).Read?
    ensures var o := ReadElements(cfg, doc, depth, s, arr, 0);
            RelaxedText(j) == doc[b..o.pos] && Equal(o.value.(limit := o.pos), RelaxedMeaning(j))
    ensures IsRelaxed(cfg, j)
    decreases |doc| - s, 5
  {
    hide ReadElements, AreElements, Equal, HoldsItems, RelaxedMeaning, IsRelaxed, RelaxedText, ItemsText, AllSpaces;
    var o := ReadElements(cfg, doc, depth, s, arr, 0);
    var items := ElementsRelaxed(cfg, doc, depth, s, arr, 0, [], doc[b + 1..s]);
    assert [] + items == items;
    j := ListText(true, items, []);
    assert doc[b..b + 1] == [LBRACKET];
    SlicesJoin(doc, b, b + 1, o.pos);
    SlicesJoin(doc, b + 1, s, o.pos);
    ArrayText(cfg, items);
    HoldsEqual(o.value, j, o.pos);
  }

  lemma EmptyArrayText(cfg: Config, spaces: Text)
    requires AllSpaces(spaces)
    ensures var j := ListText(true, [], spaces);
            RelaxedText(j) == [LBRACKET] + (spaces + [RBRACKET]) && IsRelaxed(cfg, j)
  {
    assert [] + spaces == spaces;
  }

  lemma ArrayText(cfg: Config, items: seq<RelaxedItem>)
    requires items != [] && AreElements(cfg, items) && AllRelaxed(cfg, items)
    ensures var j := ListText(true, items, []);
            RelaxedText(j) == [LBRACKET] + (ItemsText(items) + [RBRACKET]) && IsRelaxed(cfg, j)
  {
    hide AreElements, ItemsText;
    assert ItemsText(items) + [] == ItemsText(items);
  }

  lemma SpacesThenLead(cfg: Config, spaces: Text, t: Text)
    requires AllSpaces(spaces) && MayLead(cfg, t)
    ensures MayLead(cfg, spaces + t)
  {
    hide IsBlank;
    if cfg.allowComments {
      assert (spaces + t)[..|spaces|] == spaces && (spaces + t)[|spaces|..] == t;
      SpacesThenBlank(spaces + t, |spaces|);
    }
  }

  /** What follows an element: white space and comments, and a comma or the closing bracket. */
  lemma ElementEnd(doc: Text, p: nat)
    requires p <= |doc| && !AfterElement(doc, p).BadSeparator?
    ensures var u := SkipComments(doc, p);
            && IsBlank(doc[p..u.start]) && AfterElement(doc, p).pos == u.end
            && doc[u.start..u.end] == [if AfterElement(doc, p).Last? then RBRACKET else COMMA]
  {
    hide ReadToken, SkipComments, Recover, IsBlank;
    var u := SkipComments(doc, p);
    OneByteText(doc, u);
    BlankBefore(doc, p);
  }

  // ---- one item more ----

  ghost predicate AllRelaxed(cfg: Config, items: seq<RelaxedItem>) {
    forall i | 0 <= i < |items| :: IsRelaxed(cfg, items[i].value)
  }

  /** The text and the items of a list, one item at its front. */
  lemma ItemFirst(cfg: Config, done: seq<RelaxedItem>, e: RelaxedItem, more: seq<RelaxedItem>, tail: Text)
    ensures ItemsText([e] + more) + tail == RelaxedItemText(e) + (ItemsText(more) + tail)
    ensures done + [e] + more == done + ([e] + more)
    ensures IsRelaxed(cfg, e.value) && AllRelaxed(cfg, more) ==> AllRelaxed(cfg, [e] + more)
  {
    hide RelaxedItemText, IsRelaxed;
    assert ([e] + more)[1..] == more;
    Associate(RelaxedItemText(e), ItemsText(more), tail);
  }

  lemma ElementFirst(cfg: Config, e: RelaxedItem, more: seq<RelaxedItem>)
    requires IsElement(cfg, e)
    requires if more == [] then e.separator == [] else e.separator == [COMMA] && AreElements(cfg, more)
    ensures AreElements(cfg, [e] + more)
  {
    hide IsElement;
    assert ([e] + more)[1..] == more;
  }

  lemma MemberFirst(cfg: Config, previous: Text, e: RelaxedItem, more: seq<RelaxedItem>, end: Text)
    requires IsMember(cfg, e)
    requires if more == [] && e.separator == [] then end == []
             else IsMemberSeparator(e) && AreMembers(cfg, StringOf(e.name), more, end)
    ensures AreMembers(cfg, previous, [e] + more, end)
  {
    hide IsMember, IsMemberSeparator, StringOf;
    assert ([e] + more)[1..] == more;
  }

  lemma {:induction false} ElementsRelaxed(cfg: Config, doc: Text, depth: nat, p: nat, arr: Value, index: nat,
                                           done: seq<RelaxedItem>, spaces: Text) returns (items: seq<RelaxedItem>)
    requires p <= |doc| && arr.payload.Array? && ReadElements(cfg, doc, depth, p, arr, index).Read?
    requires HoldsItems(arr, true, done) && index == |done| && AllSpaces(spaces)
    ensures var o := ReadElements(cfg, doc, depth, p, arr, index);
            && p < o.pos && spaces + doc[p..o.pos] == ItemsText(items) + [RBRACKET]
            && HoldsItems(o.value, true, done + items)
    ensures items != [] && AreElements(cfg, items) && AllRelaxed(cfg, items)
    decreases |doc| - p, 3
  {
    hide ReadValue, ReadElements, AfterElement, SkipComments, IsBlank, MayLead, IsRelaxed, AllRelaxed, HoldsItems,
        Equal, RelaxedText, RelaxedItemText, ItemsText, AreElements, WithEntry;
    var child := ReadValue(cfg, doc, depth + 1, p, SlotOf(arr, Index(index)));
    ElementStopsUnread(cfg, doc, depth, p, arr, index);
    var lead, j := ValueRelaxed(cfg, doc, depth + 1, p, SlotOf(arr, Index(index)));
    var sep, u := AfterElement(doc, child.pos), SkipComments(doc, child.pos);
    ElementRoundIs(cfg, doc, depth, p, arr, index);
    ElementEnd(doc, child.pos);
    SpacesThenLead(cfg, spaces, lead);
    var e := RelaxedItem(spaces + lead, [], [], j, doc[child.pos..u.start], if sep.Last? then [] else [COMMA]);
    HoldsItem(arr, true, done, e, child.value);
    ElementText(doc, p, child.pos, u.start, u.end, spaces, lead, j, e);
    var more: seq<RelaxedItem> := [];
    if sep.More? {
      var arr2 := WithEntry(arr, Index(index), child.value);
      more := ElementsRelaxed(cfg, doc, depth, sep.pos, arr2, index + 1, done + [e], []);
      var q := ReadElements(cfg, doc, depth, sep.pos, arr2, index + 1).pos;
      SlicesJoin(doc, p, u.end, q);
      Associate(spaces, doc[p..u.end], doc[u.end..q]);
      assert [] + doc[u.end..q] == doc[u.end..q];
    } else {
      NoItems(cfg, done + [e], [RBRACKET]);
    }
    items := [e] + more;
    ItemFirst(cfg, done, e, more, [RBRACKET]);
    ElementFirst(cfg, e, more);
  }

  lemma NoItems(cfg: Config, done: seq<RelaxedItem>, tail: Text)
    ensures done + [] == done && ItemsText([]) + tail == tail && AllRelaxed(cfg, [])
  {
  }

  lemma ElementStopsUnread(cfg: Config, doc: Text, depth: nat, p: nat, arr: Value, i: nat)
    requires p <= |doc| && arr.payload.Array? && ReadElements(cfg, doc, depth, p, arr, i).Read?
    ensures ReadValue(cfg, doc, depth + 1, p, SlotOf(arr, Index(i))).Read?
  {
    hide ReadValue;
    if !ReadValue(cfg, doc, depth + 1, p, SlotOf(arr, Index(i))).Read? {
      ElementStops(cfg, doc, depth, p, arr, i);
    }
  }

  /** The loop of readArray in terms of its element and the separator after it. */
  lemma ElementRoundIs(cfg: Config, doc: Text, depth: nat, p: nat, arr: Value, i: nat)
    requires p <= |doc| && arr.payload.Array? && ReadElements(cfg, doc, depth, p, arr, i).Read?
    requires ReadValue(cfg, doc, depth + 1, p, SlotOf(arr, Index(i))).Read?
    ensures var child := ReadValue(cfg, doc, depth + 1, p, SlotOf(arr, Index(i)));
            var arr2, s := WithEntry(arr, Index(i), child.value), AfterElement(doc, child.pos);
            && !s.BadSeparator?
            && ReadElements(cfg, doc, depth, p, arr, i) ==
               if s.Last? then Read(arr2, s.pos) else ReadElements(cfg, doc, depth, s.pos, arr2, i + 1)
  {
    hide ReadValue, AfterElement, WithEntry, Recover;
    var child := ReadChild(cfg, doc, depth, p, arr, Index(i), ArrayEnd);
    assert ElementRound(cfg, doc, depth, p, arr, i) == AfterChild(child.value, [], AfterElement(doc, child.pos));
  }

  lemma ElementText(doc: Text, p: nat, c: nat, u: nat, q: nat, spaces: Text, lead: Text, j: Relaxed, e: RelaxedItem)
    requires p <= c <= u <= q <= |doc| && lead + RelaxedText(j) == doc[p..c]
    requires e.lead == spaces + lead && e.name == [] && e.colon == [] && e.value == j && e.trail == doc[c..u]
    ensures e.separator == [] ==> spaces + doc[p..q] == RelaxedItemText(e) + doc[u..q]
    ensures e.separator == doc[u..q] ==> spaces + doc[p..q] == RelaxedItemText(e)
  {
    var t := RelaxedText(j);
    SlicesJoin(doc, p, c, u);
    SlicesJoin(doc, p, u, q);
    assert e.lead + e.name + e.colon == e.lead;
    assert spaces + (lead + t + doc[c..u]) == (spaces + lead) + t + doc[c..u];
    assert spaces + (doc[p..u] + doc[u..q]) == spaces + doc[p..u] + doc[u..q];
    assert RelaxedItemText(e) == spaces + doc[p..u] + e.separator;
    assert e.separator == [] ==> RelaxedItemText(e) == spaces + doc[p..u];
  }

  // ---- members ----

  lemma NameRelaxed(doc: Text, p: nat, previous: Text) returns (lead: Text, name: Text, spaces: Text)
    requires p <= |doc| && ReadName(doc, p, previous).Named?
    ensures var r := ReadName(doc, p, previous);
            doc[p..r.pos] == lead + name + (spaces + [COLON]) && NoLoneHigh(name) && StringOf(name) == r.name
    ensures IsBlank(lead) && AllSpaces(spaces)
  {
    hide ReadToken, SkipComments, Recover, IsBlank, NoLoneHigh, DecodeString, StringOf;
    var t := SkipComments(doc, p);
    var colon := ReadToken(doc, t.end);
    lead, name, spaces := doc[p..t.start], doc[t.start..t.end], doc[t.end..colon.start];
    BlankBefore(doc, p);
    StringIs(doc, t);
    SpacesOnly(doc, t.end);
    TokenAfterSpaces(doc, t.end);
    ReadTokenFromStart(doc, t.end);
    OneByteText(doc, colon);
    SlicesJoin(doc, p, t.start, t.end);
    SlicesJoin(doc, t.end, colon.start, colon.end);
    SlicesJoin(doc, p, t.end, colon.end);
  }

  /** A closing brace in place of a name. */
  lemma NoMemberRelaxed(doc: Text, p: nat, previous: Text)
    requires p <= |doc| && ReadName(doc, p, previous).NoMember?
    ensures var u, q := SkipComments(doc, p), ReadName(doc, p, previous).pos;
            previous == [] && IsBlank(doc[p..u.start]) && doc[p..q] == doc[p..u.start] + [RBRACE]
  {
    hide ReadToken, SkipComments, Recover, IsBlank, DecodeString;
    var u := SkipComments(doc, p);
    OneByteText(doc, u);
    BlankBefore(doc, p);
    SlicesJoin(doc, p, u.start, u.end);
  }

  /** What follows a member. */
  lemma MemberEnd(doc: Text, p: nat)
    requires p <= |doc| && !AfterMember(doc, p).BadSeparator? && SkipComments(doc, p).start < |doc|
    ensures var u, s := SkipComments(doc, p), AfterMember(doc, p);
            && IsBlank(doc[p..u.start]) && s.pos == u.end
            && (s.Last? ==> doc[u.start..u.end] == [RBRACE])
            && (s.More? ==> doc[u.start..u.end] == [COMMA] ||
                            (!AllSpaces(doc[p..u.start]) && IsTokenText(doc[u.start..u.end])))
  {
    hide ReadToken, SkipComments, Recover, IsBlank, IsTokenText;
    var u := SkipComments(doc, p);
    BlankBefore(doc, p);
    if u.kind in {ObjectEnd, ArraySeparator} {
      OneByteText(doc, u);
    }
    FirstToken(doc, p);
    if AfterMember(doc, p).More? && u.kind != ArraySeparator {
      TokenTextIs(doc, u);
    }
  }

  lemma FirstToken(doc: Text, p: nat)
    requires p <= |doc|
    ensures ReadToken(doc, p).kind != Comment ==> SkipComments(doc, p) == ReadToken(doc, p)
  {
    hide ReadToken;
  }

  lemma TokenTextIs(doc: Text, u: Token)
    requires u.start < |doc| && ReadToken(doc, u.start) == u && u.kind !in {ObjectEnd, Comment}
    ensures u.end <= |doc| && IsTokenText(doc[u.start..u.end])
  {
    hide ReadToken;
    ReadTokenIn(doc, doc[u.start..u.end], u.start, u.end, u.start);
    TokenNotEmpty(doc, u);
  }

  lemma TokenNotEmpty(doc: Text, u: Token)
    requires u.start < |doc| && ReadToken(doc, u.start) == u
    ensures u.start < u.end
  {
    hide TokenAt;
  }

  /** The loop of readObject in terms of its member's value and what follows it. */
  lemma MemberRoundIs(cfg: Config, doc: Text, depth: nat, p: nat, obj: Value, previous: Text)
    requires p <= |doc| && obj.payload.Object? && ReadMembers(cfg, doc, depth, p, obj, previous).Read?
    ensures var next := ReadName(doc, p, previous);
            && !next.BadName?
            && (next.NoMember? ==> ReadMembers(cfg, doc, depth, p, obj, previous) == Read(obj, next.pos))
            && (next.Named? ==>
                  var child := ReadValue(cfg, doc, depth + 1, next.pos, SlotOf(obj, Name(next.name)));
                  && child.Read?
                  && var obj2, s := WithEntry(obj, Name(next.name), child.value), AfterMember(doc, child.pos);
                  && !s.BadSeparator?
                  && ReadMembers(cfg, doc, depth, p, obj, previous) ==
                     if s.Last? then Read(obj2, s.pos) else ReadMembers(cfg, doc, depth, s.pos, obj2, next.name))
  {
    hide ReadValue, ReadName, AfterMember, WithEntry, Recover;
    var next := ReadName(doc, p, previous);
    if next.Named? {
      var child := ReadChild(cfg, doc, depth, next.pos, obj, Name(next.name), ObjectEnd);
      assert MemberRound(cfg, doc, depth, p, obj, previous) == MemberValue(cfg, doc, depth, next.pos, obj, next.name);
      assert MemberValue(cfg, doc, depth, next.pos, obj, next.name) ==
             if child.Read? then AfterChild(child.value, next.name, AfterMember(doc, child.pos)) else Stop(child);
    } else {
      assert MemberRound(cfg, doc, depth, p, obj, previous).Stop?;
    }
  }

  lemma ColonIs(cfg: Config, spaces: Text, lead: Text)
    requires AllSpaces(spaces) && MayLead(cfg, lead)
    ensures IsRelaxedColon(cfg, spaces + [COLON] + lead)
  {
    hide MayLead;
    var t, i := spaces + [COLON] + lead, |spaces|;
    assert t[..i] == spaces && t[i + 1..] == lead && t[i] == COLON;
  }

  lemma MemberText(doc: Text, p: nat, m: nat, c: nat, u: nat, lead: Text, name: Text, spaces: Text, before: Text,
                   j: Relaxed, e: RelaxedItem)
    requires p <= m <= c <= u <= |doc| && doc[p..m] == lead + name + (spaces + [COLON])
    requires before + RelaxedText(j) == doc[m..c]
    requires e.lead == lead && e.name == name && e.colon == spaces + [COLON] + before && e.value == j
    requires e.trail == doc[c..u]
    ensures doc[p..u] + e.separator == RelaxedItemText(e)
  {
    var t := RelaxedText(j);
    SlicesJoin(doc, p, m, c);
    SlicesJoin(doc, p, c, u);
    assert lead + name + (spaces + [COLON]) + (before + t) == lead + name + (spaces + [COLON] + before) + t;
  }

  /** There is a document left where the loop goes on. */
  lemma MoreLeft(cfg: Config, doc: Text, depth: nat, c: nat, obj: Value, name: Text)
    requires c <= |doc| && obj.payload.Object? && AfterMember(doc, c).More?
    requires ReadMembers(cfg, doc, depth, AfterMember(doc, c).pos, obj, name).Read?
    ensures SkipComments(doc, c).start < |doc|
  {
    hide ReadMembers, ReadToken, Recover;
    MembersGoOn(cfg, doc, depth, AfterMember(doc, c).pos, obj, name);
  }

  lemma WithEntryKeeps(obj: Value, k: Key, v: Value)
    requires obj.payload.Object?
    ensures WithEntry(obj, k, v).payload.Object?
  {
  }

  lemma LastLeft(doc: Text, c: nat)
    requires c <= |doc| && AfterMember(doc, c).Last?
    ensures SkipComments(doc, c).start < |doc|
  {
    hide ReadToken, Recover;
    ClosingToken(doc, SkipComments(doc, c));
  }

  lemma {:induction false} MembersRelaxed(cfg: Config, doc: Text, depth: nat, p: nat, obj: Value, previous: Text,
                                          done: seq<RelaxedItem>) returns (items: seq<RelaxedItem>, end: Text)
    requires p <= |doc| && obj.payload.Object? && ReadMembers(cfg, doc, depth, p, obj, previous).Read?
    requires HoldsItems(obj, false, done)
    ensures var o := ReadMembers(cfg, doc, depth, p, obj, previous);
            && p <= o.pos && doc[p..o.pos] == ItemsText(items) + end + [RBRACE]
            && HoldsItems(o.value, false, done + items)
    ensures AreMembers(cfg, previous, items, end) && AllRelaxed(cfg, items)
    decreases |doc| - p, 4
  {
    hide ReadValue, ReadMembers, ReadName, AfterMember, SkipComments, IsBlank, MayLead, IsRelaxed, AllRelaxed,
        HoldsItems, Equal, RelaxedText, RelaxedItemText, ItemsText, AreMembers, NoLoneHigh, IsRelaxedColon, IsTokenText,
        StringOf, WithEntry;
    var next := ReadName(doc, p, previous);
    MemberRoundIs(cfg, doc, depth, p, obj, previous);
    if next.NoMember? {
      NoMemberRelaxed(doc, p, previous);
      items, end := [], doc[p..SkipComments(doc, p).start];
      NoItems(cfg, done, end);
      NoMembersAre(cfg, end);
    } else {
      var child := ReadValue(cfg, doc, depth + 1, next.pos, SlotOf(obj, Name(next.name)));
      var sep, u := AfterMember(doc, child.pos), SkipComments(doc, child.pos);
      var e := MemberRelaxed(cfg, doc, depth, p, obj, previous, done);
      var more: seq<RelaxedItem>;
      if sep.Last? {
        more, end := [], [];
        NoItems(cfg, done + [e], [RBRACE]);
      } else {
        var obj2 := WithEntry(obj, Name(next.name), child.value);
        more, end := MembersRelaxed(cfg, doc, depth, sep.pos, obj2, next.name, done + [e]);
        SlicesJoin(doc, p, u.end, ReadMembers(cfg, doc, depth, sep.pos, obj2, next.name).pos);
      }
      items := [e] + more;
      Associate(ItemsText(items), end, [RBRACE]);
      Associate(ItemsText(more), end, [RBRACE]);
      assert end == [] ==> end + [RBRACE] == [RBRACE];
      ItemFirst(cfg, done, e, more, end + [RBRACE]);
      MemberFirst(cfg, previous, e, more, end);
    }
  }

  lemma NoMembersAre(cfg: Config, end: Text)
    requires IsBlank(end)
    ensures AreMembers(cfg, [], [], end)
  {
  }

  /** A member with what follows it. */
  lemma {:induction false} MemberRelaxed(cfg: Config, doc: Text, depth: nat, p: nat, obj: Value, previous: Text,
                                         done: seq<RelaxedItem>) returns (e: RelaxedItem)
    requires p <= |doc| && obj.payload.Object? && ReadMembers(cfg, doc, depth, p, obj, previous).Read?
    requires HoldsItems(obj, false, done) && ReadName(doc, p, previous).Named?
    ensures var next := ReadName(doc, p, previous);
            var child := ReadValue(cfg, doc, depth + 1, next.pos, SlotOf(obj, Name(next.name)));
            && child.Read?
            && var sep, u := AfterMember(doc, child.pos), SkipComments(doc, child.pos);
            && sep.pos == u.end > p && HoldsItems(WithEntry(obj, Name(next.name), child.value), false, done + [e])
            && WithEntry(obj, Name(next.name), child.value).payload.Object?
            && (if sep.Last? then doc[p..u.end] == RelaxedItemText(e) + [RBRACE] && e.separator == []
                else doc[p..u.end] == RelaxedItemText(e) && e.separator != [] && IsMemberSeparator(e))
            && StringOf(e.name) == next.name
    ensures IsMember(cfg, e) && IsRelaxed(cfg, e.value)
    decreases |doc| - p, 3
  {
    hide ReadValue, ReadMembers, ReadName, AfterMember, SkipComments, IsBlank, MayLead, IsRelaxed, HoldsItems,
        Equal, RelaxedText, RelaxedItemText, NoLoneHigh, IsRelaxedColon, IsTokenText, StringOf, WithEntry;
    var next := ReadName(doc, p, previous);
    MemberRoundIs(cfg, doc, depth, p, obj, previous);
    var child := ReadValue(cfg, doc, depth + 1, next.pos, SlotOf(obj, Name(next.name)));
    var sep, u := AfterMember(doc, child.pos), SkipComments(doc, child.pos);
    var lead, name, spaces := NameRelaxed(doc, p, previous);
    var before, j := ValueRelaxed(cfg, doc, depth + 1, next.pos, SlotOf(obj, Name(next.name)));
    WithEntryKeeps(obj, Name(next.name), child.value);
    if sep.Last? {
      LastLeft(doc, child.pos);
    } else {
      MoreLeft(cfg, doc, depth, child.pos, WithEntry(obj, Name(next.name), child.value), next.name);
    }
    MemberEnd(doc, child.pos);
    ColonIs(cfg, spaces, before);
    e := RelaxedItem(lead, name, spaces + [COLON] + before, j, doc[child.pos..u.start],
                     if sep.Last? then [] else doc[u.start..u.end]);
    HoldsItem(obj, false, done, e, child.value);
    MemberText(doc, p, next.pos, child.pos, u.start, lead, name, spaces, before, j, e);
    SlicesJoin(doc, p, u.start, u.end);
    if sep.Last? {
      assert doc[p..u.start] + [] == doc[p..u.start];
    } else {
      SeparatorNotEmpty(e);
    }
  }

  lemma SeparatorNotEmpty(e: RelaxedItem)
    requires IsMemberSeparator(e)
    ensures e.separator != []
  {
    hide ReadToken;
  }

  // ---- documents ----

  /** A document that is accepted is white space or comments, a text of the relaxed grammar and any rest, and its root
      is what the text means. */
  lemma AcceptedOnly(cfg: Config, doc: Text, root0: Value) returns (before: Text, j: Relaxed, rest: Text)
    requires Parse(cfg, doc, root0).Parsed? && Parse(cfg, doc, root0).ok
    ensures doc == before + RelaxedText(j) + rest && Equal(Parse(cfg, doc, root0).root, RelaxedMeaning(j))
    ensures MayLead(cfg, before) && IsRelaxed(cfg, j)
  {
    hide ReadValue, MayLead, IsRelaxed, RelaxedText, RelaxedMeaning, Equal;
    var q := ReadValue(cfg, doc, 1, 0, root0).pos;
    before, j := ValueRelaxed(cfg, doc, 1, 0, root0);
    rest := doc[q..];
    assert doc == doc[0..q] + rest;
  }
}
