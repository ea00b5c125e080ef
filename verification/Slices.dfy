/** A value read within a slice of the document is read from the slice alone. */
module Slices {
  import opened Bytes
  import opened Values
  import opened Lexer
  import opened Decoding
  import opened Parsing
  import opened Locality

  // ---- a slice reads as it did in place ----

  /** A value's first token ends before the value does, or closes the place of a null that was not written. */
  lemma TokenBeforeSeparator(cfg: Config, doc: Text, depth: nat, p: nat, cur: Value)
    requires p <= |doc| && ReadValue(cfg, doc, depth, p, cur).Read?
    ensures var t, q := NextToken(cfg, doc, p), ReadValue(cfg, doc, depth, p, cur).pos;
            && t.kind != EndOfStream
            && (t.end <= q || (q == t.start && t.end == q + 1 && ReadToken(doc, q) == t && t.kind != Comment))
  {
    hide NextToken, ReadMembers, ReadArray, StringOutcome, NumberOutcome;
    var t := NextToken(cfg, doc, p);
    if t.kind !in {ObjectBegin, ArrayBegin} {
      ScalarToken(cfg, doc, t, cur);
    }
  }

  lemma ScalarToken(cfg: Config, doc: Text, t: Token, cur: Value)
    requires t.start <= t.end <= |doc| && (t.kind == StringToken ==> t.start + 2 <= t.end)
    requires t.kind != EndOfStream ==> t.start < t.end
    requires ReadToken(doc, t.start) == t && ScalarOutcome(cfg, doc, t, cur).Read?
    ensures t.kind !in {EndOfStream, Comment, ErrorToken}
    ensures ScalarOutcome(cfg, doc, t, cur).pos == t.end ||
            (ScalarOutcome(cfg, doc, t, cur).pos == t.start && t.end == t.start + 1)
  {
    hide DecodeString, DecodeInteger, ReadString, ReadNumber, ReadComment, SkipSpaces, Match;
  }

  lemma {:induction false} ValueIn(cfg: Config, doc: Text, w: Text, s: nat, n: nat, depth: nat, depth2: nat, p: nat,
                                   cur: Value, cur2: Value)
    requires Window(doc, w, s, n) && s <= p <= n && depth2 <= depth
    requires NextToken(cfg, doc, p).end <= n
    requires var o := ReadValue(cfg, doc, depth, p, cur); o.Read? && o.pos <= n
    ensures ReadsMoved(ReadValue(cfg, doc, depth, p, cur), ReadValue(cfg, w, depth2, p - s, cur2), s)
    decreases |doc| - p, 0
  {
    hide NextToken, ScalarOutcome, ReadMembers, ReadArray, Moved, ReadToken;
    var t := NextToken(cfg, doc, p);
    TokenBeforeSeparator(cfg, doc, depth, p, cur);
    NextTokenIn(cfg, doc, w, s, n, p);
    if t.kind == ObjectBegin {
      var obj, obj2 := Value(Object([]), t.start, cur.limit), Value(Object([]), t.start - s, cur2.limit);
      MembersIn(cfg, doc, w, s, n, depth, depth2, t.end, obj, obj2, []);
      var o, r := ReadMembers(cfg, doc, depth, t.end, obj, []), ReadMembers(cfg, w, depth2, t.end - s, obj2, []);
      CloseIn(o, r, s);
      assert ReadValue(cfg, w, depth2, p - s, cur2) == Limited(r);
    } else if t.kind == ArrayBegin {
      var arr, arr2 := Value(Array([]), t.start, cur.limit), Value(Array([]), t.start - s, cur2.limit);
      ArrayIn(cfg, doc, w, s, n, depth, depth2, t.end, arr, arr2);
      var o, r := Parsing.ReadArray(cfg, doc, depth, t.end, arr), Parsing.ReadArray(cfg, w, depth2, t.end - s, arr2);
      CloseIn(o, r, s);
      assert ReadValue(cfg, w, depth2, p - s, cur2) == Limited(r);
    } else {
      assert ReadValue(cfg, doc, depth, p, cur) == ScalarOutcome(cfg, doc, t, cur);
      ScalarIn(cfg, doc, w, s, n, t, cur, cur2);
      assert ReadValue(cfg, w, depth2, p - s, cur2) == ScalarOutcome(cfg, w, Back(t, s), cur2);
    }
  }

  lemma CloseIn(o: Outcome, r: Outcome, s: nat)
    requires ReadsOpen(o, r, s)
    ensures ReadsMoved(Limited(o), Limited(r), s)
  {
  }

  lemma {:induction false} ChildIn(cfg: Config, doc: Text, w: Text, s: nat, n: nat, depth: nat, depth2: nat, p: nat,
                                   v: Value, c: Value, k: Key, until: Kind)
    requires Window(doc, w, s, n) && s <= p <= n && depth2 <= depth && StandsFor(c, v, s)
    requires NextToken(cfg, doc, p).end <= n
    requires var o := ReadChild(cfg, doc, depth, p, v, k, until); o.Read? && o.pos <= n
    ensures ReadsOpen(ReadChild(cfg, doc, depth, p, v, k, until), ReadChild(cfg, w, depth2, p - s, c, k, until), s)
    decreases |doc| - p, 1
  {
    hide ReadValue, Recover, WithEntry, SlotOf;
    ValueIn(cfg, doc, w, s, n, depth + 1, depth2 + 1, p, SlotOf(v, k), SlotOf(c, k));
    WithEntryStandsFor(c, v, s, k, ReadValue(cfg, doc, depth + 1, p, SlotOf(v, k)).value);
  }

  /** The first token of an element ends before the separator after the element does. */
  lemma ChildToken(cfg: Config, doc: Text, depth: nat, p: nat, v: Value, k: Key, until: Kind)
    requires p <= |doc| && IsContainer(v) && ReadChild(cfg, doc, depth, p, v, k, until).Read?
    ensures NextToken(cfg, doc, p).end <= SkipComments(doc, ReadChild(cfg, doc, depth, p, v, k, until).pos).end
  {
    hide ReadValue, NextToken, ReadToken;
    TokenBeforeSeparator(cfg, doc, depth + 1, p, SlotOf(v, k));
  }

  lemma SeparatorEnds(doc: Text, p: nat)
    requires p <= |doc|
    ensures !AfterMember(doc, p).BadSeparator? ==> AfterMember(doc, p).pos == SkipComments(doc, p).end
    ensures !AfterElement(doc, p).BadSeparator? ==> AfterElement(doc, p).pos == SkipComments(doc, p).end
  {
    hide SkipComments, Recover;
  }

  /** A round of a container's loop did elsewhere what it did in place. */
  predicate RoundMoved(o: Round, r: Round, s: nat) {
    match o
    case Stop(a) => r.Stop? && ReadsOpen(a, r.result, s)
    case Continue(v, q, name) =>
      r.Continue? && s <= q && r.pos == q - s && r.name == name && StandsFor(r.value, v, s)
  }

  predicate RoundReads(o: Round, n: nat) {
    if o.Stop? then o.result.Read? && o.result.pos <= n else o.pos <= n
  }

  lemma AfterChildIn(a: Outcome, b: Outcome, name: Text, x: SeparatorResult, y: SeparatorResult, s: nat)
    requires ReadsOpen(a, b, s) && !x.BadSeparator? && s <= x.pos && y == BackSeparator(x, s)
    ensures RoundMoved(AfterChild(a.value, name, x), AfterChild(b.value, name, y), s)
  {
  }

  lemma {:induction false} MemberValueIn(cfg: Config, doc: Text, w: Text, s: nat, n: nat, depth: nat, depth2: nat,
                                         p: nat, v: Value, c: Value, name: Text)
    requires Window(doc, w, s, n) && s <= p <= n && depth2 <= depth
    requires StandsFor(c, v, s) && v.payload.Object?
    requires RoundReads(MemberValue(cfg, doc, depth, p, v, name), n)
    ensures RoundMoved(MemberValue(cfg, doc, depth, p, v, name), MemberValue(cfg, w, depth2, p - s, c, name), s)
    decreases |doc| - p, 2
  {
    hide ReadChild, AfterMember, SkipComments, NextToken, MovedEntries, Window;
    var child := ReadChild(cfg, doc, depth, p, v, Name(name), ObjectEnd);
    assert NextToken(cfg, doc, p).end <= n && child.pos <= n by {
      ChildToken(cfg, doc, depth, p, v, Name(name), ObjectEnd);
      SeparatorEnds(doc, child.pos);
    }
    ChildIn(cfg, doc, w, s, n, depth, depth2, p, v, c, Name(name), ObjectEnd);
    var child2 := ReadChild(cfg, w, depth2, p - s, c, Name(name), ObjectEnd);
    AfterMemberIn(doc, w, s, n, child.pos);
    AfterChildIn(child, child2, name, AfterMember(doc, child.pos), AfterMember(w, child2.pos), s);
  }

  lemma {:induction false} MemberRoundIn(cfg: Config, doc: Text, w: Text, s: nat, n: nat, depth: nat, depth2: nat,
                                         p: nat, v: Value, c: Value, name: Text)
    requires Window(doc, w, s, n) && s <= p <= n && depth2 <= depth
    requires StandsFor(c, v, s) && v.payload.Object?
    requires RoundReads(MemberRound(cfg, doc, depth, p, v, name), n)
    ensures RoundMoved(MemberRound(cfg, doc, depth, p, v, name), MemberRound(cfg, w, depth2, p - s, c, name), s)
    decreases |doc| - p, 3
  {
    hide ReadName, MemberValue;
    var next := ReadName(doc, p, name);
    if next.Named? {
      assert MemberRound(cfg, doc, depth, p, v, name) == MemberValue(cfg, doc, depth, next.pos, v, next.name);
      ReadNameIn(doc, w, s, n, p, name);
      MemberValueIn(cfg, doc, w, s, n, depth, depth2, next.pos, v, c, next.name);
      assert MemberRound(cfg, w, depth2, p - s, c, name) == MemberValue(cfg, w, depth2, next.pos - s, c, next.name);
    } else {
      ReadNameIn(doc, w, s, n, p, name);
    }
  }

  lemma {:induction false} MembersIn(cfg: Config, doc: Text, w: Text, s: nat, n: nat, depth: nat, depth2: nat, p: nat,
                                     v: Value, c: Value, name: Text)
    requires Window(doc, w, s, n) && s <= p <= n && depth2 <= depth
    requires StandsFor(c, v, s) && v.payload.Object?
    requires var o := ReadMembers(cfg, doc, depth, p, v, name); o.Read? && o.pos <= n
    ensures ReadsOpen(ReadMembers(cfg, doc, depth, p, v, name), ReadMembers(cfg, w, depth2, p - s, c, name), s)
    decreases |doc| - p, 4
  {
    hide MemberRound;
    var round := MemberRound(cfg, doc, depth, p, v, name);
    MemberRoundIn(cfg, doc, w, s, n, depth, depth2, p, v, c, name);
    var round2 := MemberRound(cfg, w, depth2, p - s, c, name);
    if round.Continue? {
      MembersIn(cfg, doc, w, s, n, depth, depth2, round.pos, round.value, round2.value, round.name);
      assert ReadMembers(cfg, w, depth2, p - s, c, name) ==
             ReadMembers(cfg, w, depth2, round2.pos, round2.value, round2.name);
    }
  }

  lemma {:induction false} ElementRoundIn(cfg: Config, doc: Text, w: Text, s: nat, n: nat, depth: nat, depth2: nat,
                                          p: nat, v: Value, c: Value, index: nat)
    requires Window(doc, w, s, n) && s <= p <= n && depth2 <= depth
    requires StandsFor(c, v, s) && v.payload.Array?
    requires RoundReads(ElementRound(cfg, doc, depth, p, v, index), n)
    ensures RoundMoved(ElementRound(cfg, doc, depth, p, v, index), ElementRound(cfg, w, depth2, p - s, c, index), s)
    decreases |doc| - p, 2
  {
    hide ReadChild, AfterElement, SkipComments, NextToken, MovedEntries, Window;
    var child := ReadChild(cfg, doc, depth, p, v, Index(index), ArrayEnd);
    assert NextToken(cfg, doc, p).end <= n && child.pos <= n by {
      ChildToken(cfg, doc, depth, p, v, Index(index), ArrayEnd);
      SeparatorEnds(doc, child.pos);
    }
    ChildIn(cfg, doc, w, s, n, depth, depth2, p, v, c, Index(index), ArrayEnd);
    var child2 := ReadChild(cfg, w, depth2, p - s, c, Index(index), ArrayEnd);
    AfterElementIn(doc, w, s, n, child.pos);
    AfterChildIn(child, child2, [], AfterElement(doc, child.pos), AfterElement(w, child2.pos), s);
  }

  lemma {:induction false} ElementsIn(cfg: Config, doc: Text, w: Text, s: nat, n: nat, depth: nat, depth2: nat, p: nat,
                                      v: Value, c: Value, index: nat)
    requires Window(doc, w, s, n) && s <= p <= n && depth2 <= depth
    requires StandsFor(c, v, s) && v.payload.Array?
    requires var o := ReadElements(cfg, doc, depth, p, v, index); o.Read? && o.pos <= n
    ensures ReadsOpen(ReadElements(cfg, doc, depth, p, v, index), ReadElements(cfg, w, depth2, p - s, c, index), s)
    decreases |doc| - p, 3
  {
    hide ElementRound;
    var round := ElementRound(cfg, doc, depth, p, v, index);
    ElementRoundIn(cfg, doc, w, s, n, depth, depth2, p, v, c, index);
    if round.Continue? {
      ElementsIn(cfg, doc, w, s, n, depth, depth2, round.pos, round.value,
                 ElementRound(cfg, w, depth2, p - s, c, index).value, index + 1);
    }
  }

  lemma {:induction false} ArrayIn(cfg: Config, doc: Text, w: Text, s: nat, n: nat, depth: nat, depth2: nat, p: nat,
                                   v: Value, c: Value)
    requires Window(doc, w, s, n) && s <= p <= n && depth2 <= depth
    requires StandsFor(c, v, s) && v.payload.Array?
    requires var o := Parsing.ReadArray(cfg, doc, depth, p, v); o.Read? && o.pos <= n
    ensures ReadsOpen(Parsing.ReadArray(cfg, doc, depth, p, v), Parsing.ReadArray(cfg, w, depth2, p - s, c), s)
    decreases |doc| - p, 5
  {
    hide SkipSpaces, ReadElements;
    var q := SkipSpaces(doc, p);
    SkipSpacesIn(doc, w, s, n, p);
    if !(q < |doc| && doc[q] == RBRACKET) {
      ElementsIn(cfg, doc, w, s, n, depth, depth2, q, v, c, 0);
    }
  }
}
