/** Which error is reported, and where: the token, what is wrong with it, and the place of a bad escape in a string. */
module Errors {
  import opened Bytes
  import opened Values
  import opened OrderedMap
  import opened Lexer
  import opened Decoding
  import opened Unicode
  import opened Parsing
  import opened Grammar
  import opened Acceptance
  import opened Soundness

  // ---- strings ----

  /** The characters and escapes from `i` lead to `k`. */
  predicate GoodTo(t: Text, i: nat, k: nat, end: nat)
    requires i <= end <= |t|
    decreases end - i
  {
    || i == k
    || (i < end && CharEnd(t, i, end).Some? && (IsHighUnit(t, i, end) ==> IsPair(t, i, end)) &&
        GoodTo(t, CharStop(t, i, end), k, end))
  }

  /** The first byte from `i` on that is no digit although four are needed. */
  predicate NoDigitAt(t: Text, i: nat, k: nat)
    requires k < |t|
  {
    i <= k < i + 4 && !IsHexDigit(t[k]) && forall j | i <= j < k :: IsHexDigit(t[j])
  }

  /** What can be wrong with the escape at `k` of a string that ends at `end`, and which place is reported for it. */
  predicate IsBadEscape(t: Text, k: nat, end: nat, message: Message, at: nat)
    requires k < end <= |t|
  {
    t[k] == BACKSLASH &&
    match message
    case EmptyEscape => at == end == k + 1
    case BadEscape => k + 2 <= end && t[k + 1] != 0x75 && EscapeLetter(t[k + 1]).None? && at == k + 2
    case FourDigitsExpected => k + 2 <= end < k + 6 && t[k + 1] == 0x75 && at == k + 2
    case HexDigitExpected =>
      && k + 6 <= end && t[k + 1] == 0x75 && 0 < at <= end
      && (NoDigitAt(t, k + 2, at - 1) || (IsHighUnit(t, k, end) && NoDigitAt(t, k + 8, at - 1)))
    case SixMoreCharactersExpected => IsHighUnit(t, k, end) && end < k + 12 && at == k + 6
    case SecondSurrogateExpected =>
      && IsHighUnit(t, k, end) && k + 12 <= end
      && if t[k + 6] != BACKSLASH then at == k + 7 else t[k + 7] != 0x75 && at == k + 8
    case _ => false
  }

  lemma HexDigitsBad(t: Text, i: nat, end: nat)
    requires i <= end <= |t| && EscapeSequence(t, i, end).BadUnit?
    ensures var u := EscapeSequence(t, i, end);
            if end - i < 4 then u == BadUnit(FourDigitsExpected, i)
            else u.message == HexDigitExpected && 0 < u.at <= end && NoDigitAt(t, i, u.at - 1)
  {
    if end - i >= 4 {
      HexValueIs(t[i]);
      HexValueIs(t[i + 1]);
      HexValueIs(t[i + 2]);
      HexValueIs(t[i + 3]);
      var a := if HexValue(t[i]).Some? then HexValue(t[i]).value else 0;
      var b := a * 16 + if HexValue(t[i + 1]).Some? then HexValue(t[i + 1]).value else 0;
      var c := b * 16 + if HexValue(t[i + 2]).Some? then HexValue(t[i + 2]).value else 0;
      assert IsHexDigit(t[i]) ==> HexDigits(t, i, i + 4, 0) == HexDigits(t, i + 1, i + 4, a);
      assert IsHexDigit(t[i + 1]) ==> HexDigits(t, i + 1, i + 4, a) == HexDigits(t, i + 2, i + 4, b);
      assert IsHexDigit(t[i + 2]) ==> HexDigits(t, i + 2, i + 4, b) == HexDigits(t, i + 3, i + 4, c);
    }
  }

  lemma EscapeBad(t: Text, k: nat, end: nat)
    requires k < end <= |t| && DecodeChar(t, k, end).BadChar?
    ensures var c := DecodeChar(t, k, end); IsBadEscape(t, k, end, c.message, c.at)
  {
    hide HexDigits, CodePointToUTF8, NoDigitAt, HexCode, FourHexAt;
    if k + 1 < end && t[k + 1] == 0x75 {
      var u := EscapeSequence(t, k + 2, end);
      if u.BadUnit? {
        HexDigitsBad(t, k + 2, end);
      } else {
        HexDigitsFound(t, k + 2, end);
        FourDigitsDecode(t, k + 2, end);
        if end >= k + 12 && t[k + 6] == BACKSLASH && t[k + 7] == 0x75 {
          HexDigitsBad(t, k + 8, end);
        }
      }
    }
  }

  /** The first escape that does not decode is the one reported. */
  lemma {:induction false} StringBad(t: Text, i: nat, end: nat) returns (k: nat)
    requires i <= end <= |t| && DecodeChars(t, i, end).Bad?
    ensures i <= k < end && GoodTo(t, i, k, end)
    ensures var d := DecodeChars(t, i, end); IsBadEscape(t, k, end, d.message, d.at)
    decreases end - i
  {
    hide DecodeChar, IsBadEscape, CharEnd, CharStop, IsPair, IsHighUnit;
    if DecodeChar(t, i, end).BadChar? {
      EscapeBad(t, i, end);
      k := i;
    } else {
      GoodChar(t, i, end);
      k := StringBad(t, DecodeChar(t, i, end).next, end);
    }
  }

  lemma GoodChar(t: Text, i: nat, end: nat)
    requires i < end <= |t| && t[i] != QUOTE && DecodeChar(t, i, end).Char?
    ensures CharEnd(t, i, end).Some? && (IsHighUnit(t, i, end) ==> IsPair(t, i, end))
    ensures CharStop(t, i, end) == DecodeChar(t, i, end).next
  {
    hide CodePointToUTF8, HexCode, FourHexAt, EscapeLetter;
    if t[i] == BACKSLASH {
      EscapeIs(t, i, end);
    }
  }

  // ---- tokens ----

  /** A token that starts no value. */
  predicate StartsNoValue(cfg: Config, k: Kind) {
    && k !in {StringToken, NumberToken, TrueToken, FalseToken, NullToken, ObjectBegin, ArrayBegin}
    && (cfg.allowDropped ==> k !in {ArraySeparator, ObjectEnd, ArrayEnd})
    && (cfg.allowComments ==> k != Comment)
  }

  /** A value was read that ends at `q`. */
  ghost predicate ValueEndsAt(cfg: Config, doc: Text, q: nat) {
    exists depth: nat, p: nat, cur: Value :: ReadsTo(cfg, doc, depth, p, cur, q)
  }

  predicate ReadsTo(cfg: Config, doc: Text, depth: nat, p: nat, cur: Value, q: nat) {
    p <= |doc| && ReadValue(cfg, doc, depth, p, cur).Read? && ReadValue(cfg, doc, depth, p, cur).pos == q
  }

  /** A name was read that ends at `q`. */
  ghost predicate NameEndsAt(doc: Text, q: nat) {
    exists s: nat :: s <= |doc| && ReadToken(doc, s) == Token(StringToken, s, q) && NoLoneHigh(doc[s..q])
  }

  /** What is wrong at the token that is reported, for each message. */
  ghost predicate IsErrorOf(cfg: Config, doc: Text, e: ErrorInfo) {
    var t := e.token;
    && t.start <= t.end <= |doc| && ReadToken(doc, t.start) == t
    && match e.message
       case ValueExpected => e.extra == None && StartsNoValue(cfg, t.kind)
       case NotANumber =>
         && e.extra == None && t.kind == NumberToken
         && DecodeInteger(Lexeme(doc, t)).None? && !cfg.isDouble(Lexeme(doc, t))
       case MissingBraceOrName => e.extra == None && t.kind !in {StringToken, Comment}
       case MissingColon =>
         && e.extra == None && t.kind != MemberSeparator
         && exists q: nat :: q <= |doc| && NameEndsAt(doc, q) && t == ReadToken(doc, q)
       case MissingCommaOrBrace =>
         && e.extra == None && t.kind !in {ObjectEnd, ArraySeparator, Comment}
         && exists q: nat :: q <= |doc| && ValueEndsAt(cfg, doc, q) && t == ReadToken(doc, q)
       case MissingCommaOrBracket =>
         && e.extra == None && t.kind !in {ArrayEnd, ArraySeparator, Comment}
         && exists q: nat :: q <= |doc| && ValueEndsAt(cfg, doc, q) && t == SkipComments(doc, q)
       case ArrayOrObjectExpected => false
       case _ =>
         && t.kind == StringToken && t.start + 2 <= t.end && e.extra.Some? && t.start <= e.extra.value
         && HasBadEscape(Lexeme(doc, t), e.message, e.extra.value - t.start)
  }

  /** In a string with its quotes the characters up to `k` are good, and there stands a bad escape. */
  predicate FirstBadEscape(x: Text, k: nat, message: Message, at: nat)
    requires 2 <= |x|
  {
    1 <= k < |x| - 1 && GoodTo(x, 1, k, |x| - 1) && IsBadEscape(x, k, |x| - 1, message, at)
  }

  ghost predicate HasBadEscape(x: Text, message: Message, at: nat)
    requires 2 <= |x|
  {
    exists k: nat :: FirstBadEscape(x, k, message, at)
  }

  // ---- every routine ----

  lemma StringErrorIs(cfg: Config, doc: Text, t: Token)
    requires t.start + 2 <= t.end <= |doc| && ReadToken(doc, t.start) == t && t.kind == StringToken
    requires DecodeString(Lexeme(doc, t)).Bad?
    ensures IsErrorOf(cfg, doc, DecodedError(DecodeString(Lexeme(doc, t)), t))
  {
    hide ReadToken, DecodeChars, GoodTo;
    var x := Lexeme(doc, t);
    var k := StringBad(x, 1, |x| - 1);
    var d := DecodeString(x);
    assert FirstBadEscape(x, k, d.message, d.at);
  }

  lemma ScalarErrorIs(cfg: Config, doc: Text, p: nat, cur: Value)
    requires p <= |doc| && NextToken(cfg, doc, p).kind !in {ObjectBegin, ArrayBegin}
    requires ScalarOutcome(cfg, doc, NextToken(cfg, doc, p), cur).Failed?
    ensures IsErrorOf(cfg, doc, ScalarOutcome(cfg, doc, NextToken(cfg, doc, p), cur).error)
  {
    hide ReadToken, DecodeString, DecodeInteger, SkipComments, FirstBadEscape;
    var t := NextToken(cfg, doc, p);
    if t.kind == StringToken {
      StringErrorIs(cfg, doc, t);
    }
  }

  lemma NameErrorIs(cfg: Config, doc: Text, p: nat, previous: Text)
    requires p <= |doc| && ReadName(doc, p, previous).BadName?
    ensures IsErrorOf(cfg, doc, ReadName(doc, p, previous).error)
  {
    hide ReadToken, SkipComments, DecodeString, Recover, FirstBadEscape, NoLoneHigh;
    var t := SkipComments(doc, p);
    if t.kind == StringToken {
      if DecodeString(Lexeme(doc, t)).Bad? {
        StringErrorIs(cfg, doc, t);
      } else {
        StringIs(doc, t);
        assert doc[t.start..t.end] == Lexeme(doc, t);
        assert NameEndsAt(doc, t.end);
        ReadTokenFromStart(doc, t.end);
      }
    }
  }

  lemma MemberErrorIs(cfg: Config, doc: Text, depth: nat, p: nat, cur: Value)
    requires p <= |doc| && ReadValue(cfg, doc, depth, p, cur).Read?
    requires AfterMember(doc, ReadValue(cfg, doc, depth, p, cur).pos).BadSeparator?
    ensures IsErrorOf(cfg, doc, AfterMember(doc, ReadValue(cfg, doc, depth, p, cur).pos).error)
  {
    hide ReadToken, ReadValue, Recover;
    var q := ReadValue(cfg, doc, depth, p, cur).pos;
    assert ReadsTo(cfg, doc, depth, p, cur, q);
    assert ValueEndsAt(cfg, doc, q);
    ReadTokenFromStart(doc, q);
  }

  lemma ElementErrorIs(cfg: Config, doc: Text, depth: nat, p: nat, cur: Value)
    requires p <= |doc| && ReadValue(cfg, doc, depth, p, cur).Read?
    requires AfterElement(doc, ReadValue(cfg, doc, depth, p, cur).pos).BadSeparator?
    ensures IsErrorOf(cfg, doc, AfterElement(doc, ReadValue(cfg, doc, depth, p, cur).pos).error)
  {
    hide ReadToken, ReadValue, Recover, SkipComments;
    var q := ReadValue(cfg, doc, depth, p, cur).pos;
    assert ReadsTo(cfg, doc, depth, p, cur, q);
    assert ValueEndsAt(cfg, doc, q);
  }

  lemma {:induction false} ValueErrorIs(cfg: Config, doc: Text, depth: nat, p: nat, cur: Value)
    requires p <= |doc| && ReadValue(cfg, doc, depth, p, cur).Failed?
    ensures IsErrorOf(cfg, doc, ReadValue(cfg, doc, depth, p, cur).error)
    decreases |doc| - p, 0
  {
    hide NextToken, ScalarOutcome, ReadMembers, ReadElements, SkipSpaces, IsErrorOf;
    var t := NextToken(cfg, doc, p);
    if t.kind == ObjectBegin {
      MembersErrorIs(cfg, doc, depth, t.end, Value(Object([]), t.start, cur.limit), []);
    } else if t.kind == ArrayBegin {
      var s := SkipSpaces(doc, t.end);
      ElementsErrorIs(cfg, doc, depth, s, Value(Array([]), t.start, cur.limit), 0);
    } else {
      ScalarErrorIs(cfg, doc, p, cur);
    }
  }

  lemma {:induction false} ChildErrorIs(cfg: Config, doc: Text, depth: nat, p: nat, v: Value, k: Key, until: Kind)
    requires p <= |doc| && IsContainer(v) && ReadChild(cfg, doc, depth, p, v, k, until).Failed?
    ensures IsErrorOf(cfg, doc, ReadChild(cfg, doc, depth, p, v, k, until).error)
    decreases |doc| - p, 1
  {
    hide ReadValue, Recover, WithEntry, IsErrorOf;
    ValueErrorIs(cfg, doc, depth + 1, p, SlotOf(v, k));
  }

  lemma {:induction false} MembersErrorIs(cfg: Config, doc: Text, depth: nat, p: nat, obj: Value, name: Text)
    requires p <= |doc| && obj.payload.Object?
    ensures var o := ReadMembers(cfg, doc, depth, p, obj, name); o.Failed? ==> IsErrorOf(cfg, doc, o.error)
    decreases |doc| - p, 4
  {
    hide ReadName, ReadValue, AfterMember, Recover, WithEntry, IsErrorOf;
    var round, next := MemberRound(cfg, doc, depth, p, obj, name), ReadName(doc, p, name);
    if next.Named? {
      assert round == MemberValue(cfg, doc, depth, next.pos, obj, next.name);
      var child := ReadChild(cfg, doc, depth, next.pos, obj, Name(next.name), ObjectEnd);
      if child.Failed? {
        ChildErrorIs(cfg, doc, depth, next.pos, obj, Name(next.name), ObjectEnd);
      } else if child.Read? && AfterMember(doc, child.pos).BadSeparator? {
        MemberErrorIs(cfg, doc, depth + 1, next.pos, SlotOf(obj, Name(next.name)));
      }
    } else if next.BadName? {
      NameErrorIs(cfg, doc, p, name);
    }
    if round.Continue? {
      MembersErrorIs(cfg, doc, depth, round.pos, round.value, round.name);
    }
  }

  lemma {:induction false} ElementsErrorIs(cfg: Config, doc: Text, depth: nat, p: nat, arr: Value, index: nat)
    requires p <= |doc| && arr.payload.Array?
    ensures var o := ReadElements(cfg, doc, depth, p, arr, index); o.Failed? ==> IsErrorOf(cfg, doc, o.error)
    decreases |doc| - p, 3
  {
    hide ReadValue, AfterElement, Recover, WithEntry, IsErrorOf;
    var round := ElementRound(cfg, doc, depth, p, arr, index);
    var child := ReadChild(cfg, doc, depth, p, arr, Index(index), ArrayEnd);
    if child.Failed? {
      ChildErrorIs(cfg, doc, depth, p, arr, Index(index), ArrayEnd);
    } else if child.Read? && AfterElement(doc, child.pos).BadSeparator? {
      ElementErrorIs(cfg, doc, depth + 1, p, SlotOf(arr, Index(index)));
    }
    if round.Continue? {
      ElementsErrorIs(cfg, doc, depth, round.pos, round.value, index + 1);
    }
  }

  /** The errors of a document that is refused: one that says what is wrong at its token, and with strict root, if the
      root is no container, one about the whole document, which may stand alone. */
  lemma ErrorsAre(cfg: Config, doc: Text, root: Value)
    requires Parse(cfg, doc, root).Parsed?
    ensures var r := Parse(cfg, doc, root);
            var whole := ErrorInfo(ArrayOrObjectExpected, Token(ErrorToken, 0, |doc|), None);
            var strict := if cfg.strictRoot && !IsContainer(r.root) then [whole] else [];
            || (r.errors == strict && ReadValue(cfg, doc, 1, 0, root).Read?)
            || (r.errors != [] && r.errors[1..] == strict && IsErrorOf(cfg, doc, r.errors[0]))
  {
    hide ReadValue, IsErrorOf;
    if ReadValue(cfg, doc, 1, 0, root).Failed? {
      ValueErrorIs(cfg, doc, 1, 0, root);
    }
  }

  // ---- what a refused document leaves behind ----

  /** A scalar that is refused leaves the value as it was; where no value could start, with the place of the token. */
  lemma RefusedLeaves(cfg: Config, doc: Text, depth: nat, p: nat, cur: Value)
    requires p <= |doc| && ReadValue(cfg, doc, depth, p, cur).Failed?
    requires NextToken(cfg, doc, p).kind !in {ObjectBegin, ArrayBegin}
    ensures var o := ReadValue(cfg, doc, depth, p, cur);
            && o.value.payload == cur.payload && o.error.token == NextToken(cfg, doc, p)
            && if o.error.message == ValueExpected then
                 o.value.start == o.error.token.start && o.value.limit == o.error.token.end
               else o.value == cur
  {
    hide NextToken, ReadMembers, ReadElements, DecodeString, DecodeInteger, SkipSpaces;
    var t := NextToken(cfg, doc, p);
    if t.kind == StringToken {
      StringErrorIs(cfg, doc, t);
    }
  }

  predicate WellKeyed(v: Value) {
    IsContainer(v) && Sorted(v.payload.entries) && SameKind(v.payload.entries, v.payload.Object?)
  }

  /** What is left of an element that failed is stored under its key, and the elements before it stay. */
  lemma FailedChildStored(cfg: Config, doc: Text, depth: nat, p: nat, v: Value, k: Key, until: Kind)
    requires p <= |doc| && WellKeyed(v) && k.Name? == v.payload.Object?
    requires ReadChild(cfg, doc, depth, p, v, k, until).Failed?
    ensures var child, o := ReadValue(cfg, doc, depth + 1, p, SlotOf(v, k)), ReadChild(cfg, doc, depth, p, v, k, until);
            && child.Failed? && o.error == child.error && WellKeyed(o.value)
            && forall other ::
                 Find(o.value.payload.entries, other) ==
                 if other == k then Some(child.value) else Find(v.payload.entries, other)
  {
    hide ReadValue, Recover, Put, Find, KeyLess;
    var es, child := v.payload.entries, ReadValue(cfg, doc, depth + 1, p, SlotOf(v, k));
    PutSorted(es, k, child.value, v.payload.Object?);
    forall other
      ensures Find(Put(es, k, child.value), other) == if other == k then Some(child.value) else Find(es, other)
    {
      PutFinds(es, k, child.value, v.payload.Object?, other);
    }
  }
}
