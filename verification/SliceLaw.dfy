/** Offsets are truthful: the slice of the document a node records parses alone to that node. */
module SliceLaw {
  import opened Bytes
  import opened Values
  import opened OrderedMap
  import opened Lexer
  import opened Decoding
  import opened Parsing
  import opened Locality
  import opened Slices

  /** What parse answers when it read a value. */
  function Accepted(cfg: Config, doc: Text, v: Value): Verdict {
    if cfg.strictRoot && !IsContainer(v) then Parsed(false, v, [StrictError(doc)]) else Parsed(true, v, [])
  }

  /** The recorded slice, parsed as a document of its own, gives the value with its offsets counted from the slice. */
  ghost predicate Alone(cfg: Config, doc: Text, v: Value) {
    && 0 <= v.start < v.limit <= |doc|
    && forall root: Value ::
         Parse(cfg, doc[v.start..v.limit], root) == Accepted(cfg, doc[v.start..v.limit], Moved(v, v.start))
  }

  /** A null that was not written: one byte long, where the literal has four. */
  predicate IsUnwritten(v: Value) {
    v.payload.Null? && v.limit == v.start + 1
  }

  /** Parsing the text finds a null. */
  predicate FindsNull(cfg: Config, t: Text, root: Value) {
    var r := Parse(cfg, t, root);
    r.Parsed? && r.root.payload.Null? && r.errors == if cfg.strictRoot then [StrictError(t)] else []
  }

  /** A byte that closes the place of a null. */
  predicate ClosesPlace(b: Byte) {
    b == COMMA || b == RBRACKET || b == RBRACE
  }

  /** A null that was not written records the byte before the token that closed its place; that byte alone parses to
      a null again exactly if it closes a place itself. Only a root can record a byte before the document. */
  ghost predicate Unwritten(cfg: Config, doc: Text, v: Value) {
    && cfg.allowDropped && -1 <= v.start < v.limit <= |doc|
    && (0 <= v.start ==>
          forall root: Value :: FindsNull(cfg, doc[v.start..v.limit], root) <==> ClosesPlace(doc[v.start]))
  }

  /** Inside a container that starts at `start`, up to `q`; a null that was not written may share its first byte. */
  predicate Placed(start: int, e: Value, q: int) {
    (if IsUnwritten(e) then start else start + 1) <= e.start < e.limit <= q
  }

  predicate Apart(a: Value, b: Value) {
    a.limit <= b.start || b.limit <= a.start
  }

  /** The slices of the elements lie in the container's and not past `q`, and nowhere overlap. */
  ghost predicate Filled(cfg: Config, doc: Text, v: Value, q: int)
    requires IsContainer(v)
    decreases v, 0
  {
    var es := v.payload.entries;
    && Sorted(es) && SameKind(es, v.payload.Object?)
    && (forall i | 0 <= i < |es| :: Placed(v.start, es[i].value, q) && Sliced(cfg, doc, es[i].value))
    && forall i, j | 0 <= i < j < |es| :: Apart(es[i].value, es[j].value)
  }

  /** Every node's slice parses alone to that node, unless the node was not written; it lies inside its parent's,
      before the parent's last byte, and apart from its siblings'. */
  ghost predicate Sliced(cfg: Config, doc: Text, v: Value)
    decreases v
  {
    if IsUnwritten(v) then Unwritten(cfg, doc, v)
    else Alone(cfg, doc, v) && (IsContainer(v) ==> Filled(cfg, doc, v, v.limit - 1))
  }

  lemma FilledFurther(cfg: Config, doc: Text, v: Value, p: int, q: int)
    requires IsContainer(v) && Filled(cfg, doc, v, p) && p <= q
    ensures Filled(cfg, doc, v, q)
  {
    hide Sliced, KeyLess;
  }

  /** An element read after the others; the byte before `p` belongs to none of them. */
  lemma FillOne(cfg: Config, doc: Text, v: Value, p: int, k: Key, child: Value, q: int)
    requires IsContainer(v) && Filled(cfg, doc, v, p - 1) && v.start < p && p - 1 <= child.start
    requires Placed(v.start, child, q) && Sliced(cfg, doc, child) && k.Name? == v.payload.Object?
    ensures Filled(cfg, doc, WithEntry(v, k, child), q)
  {
    hide Sliced, KeyLess, Put;
    var es, rs := v.payload.entries, Put(v.payload.entries, k, child);
    PutSorted(es, k, child, v.payload.Object?);
    PutOrigins(es, k, child);
    forall i, j | 0 <= i < j < |rs| ensures Apart(rs[i].value, rs[j].value) {
      if Origin(es, k, i).None? {
        assert rs[j] == es[Origin(es, k, j).value];
      } else if Origin(es, k, j).None? {
        assert rs[i] == es[Origin(es, k, i).value];
      } else {
        assert Apart(es[Origin(es, k, i).value].value, es[Origin(es, k, j).value].value);
      }
    }
  }

  lemma Closed(cfg: Config, doc: Text, v: Value, q: int)
    requires IsContainer(v) && Filled(cfg, doc, v, q - 1) && Alone(cfg, doc, v.(limit := q))
    ensures Sliced(cfg, doc, v.(limit := q))
  {
    hide Alone, KeyLess;
  }

  lemma TokenFromStart(cfg: Config, doc: Text, p: nat)
    requires p <= |doc|
    ensures var t := NextToken(cfg, doc, p); NextToken(cfg, doc, t.start) == t
  {
  }

  /** What was read up to `v.limit` from a token at `v.start` is read alone, too. */
  lemma ReadsAlone(cfg: Config, doc: Text, depth: nat, p: nat, cur: Value, v: Value)
    requires depth > 0 && p <= |doc|
    requires v.start == NextToken(cfg, doc, p).start && v.start < v.limit && NextToken(cfg, doc, p).end <= v.limit
    requires ReadValue(cfg, doc, depth, p, cur) == Read(v, v.limit)
    ensures Alone(cfg, doc, v)
  {
    hide NextToken, ScalarOutcome, ReadMembers, ReadArray, Moved;
    var s, n := v.start, v.limit;
    TokenFromStart(cfg, doc, p);
    assert ReadValue(cfg, doc, depth, s, cur) == Read(v, n);
    forall root: Value
      ensures Parse(cfg, doc[s..n], root) == Accepted(cfg, doc[s..n], Moved(v, s))
    {
      ValueIn(cfg, doc, doc[s..n], s, n, depth, 1, s, cur, root);
    }
  }

  /** A document of one byte parses to a null exactly if the byte closes a place. */
  lemma OneByteDocument(cfg: Config, b: Byte, root: Value)
    requires cfg.allowDropped && cfg.stackLimit > 0
    ensures FindsNull(cfg, [b], root) <==> ClosesPlace(b)
  {
    var doc: Text := [b];
    var t := ReadToken(doc, 0);
    if IsSpace(b) {
      assert SkipSpaces(doc, 1) == 1;
      NextIsRead(cfg, doc, 0);
    } else {
      OneByteToken(b);
      NextIsRead(cfg, doc, 0);
      assert b == LBRACE ==> ReadMembers(cfg, doc, 1, 1, Value(Object([]), 0, root.limit), []).Failed? by {
        OpenBraceFails(cfg, doc, Value(Object([]), 0, root.limit));
      }
      assert b == LBRACKET ==> !Parsing.ReadArray(cfg, doc, 1, 1, Value(Array([]), 0, root.limit)).Read? by {
        OpenBracketFails(cfg, doc, Value(Array([]), 0, root.limit));
      }
      if t.kind == NumberToken && DecodeInteger(doc).Some? {
        assert Lexeme(doc, t) == doc;
      }
    }
  }

  lemma OneByteToken(b: Byte)
    requires !IsSpace(b)
    ensures var t := ReadToken([b], 0);
            && t.start == 0 && t.end == 1 && t.kind !in {Comment, StringToken, TrueToken, FalseToken, NullToken}
            && (t.kind in {ArraySeparator, ArrayEnd, ObjectEnd} <==> ClosesPlace(b))
            && (t.kind == ObjectBegin <==> b == LBRACE) && (t.kind == ArrayBegin <==> b == LBRACKET)
  {
  }

  lemma OpenBraceFails(cfg: Config, doc: Text, obj: Value)
    requires |doc| == 1 && obj.payload.Object?
    ensures ReadMembers(cfg, doc, 1, 1, obj, []).Failed?
  {
    assert MemberRound(cfg, doc, 1, 1, obj, []).Stop?;
  }

  lemma OpenBracketFails(cfg: Config, doc: Text, arr: Value)
    requires |doc| == 1 && arr.payload.Array?
    ensures !Parsing.ReadArray(cfg, doc, 1, 1, arr).Read?
  {
    hide Recover, WithEntry, AfterElement;
    assert SkipSpaces(doc, 1) == 1;
    assert !ReadValue(cfg, doc, 2, 1, SlotOf(arr, Index(0))).Read?;
    assert ElementRound(cfg, doc, 1, 1, arr, 0).Stop?;
  }

  // ---- every successful parse ----

  /** Where a value read from `p` is. */
  predicate ReadFrom(v: Value, p: nat) {
    p - 1 <= v.start && (!IsUnwritten(v) ==> p <= v.start)
  }

  lemma {:induction false} ValueSliced(cfg: Config, doc: Text, depth: nat, p: nat, cur: Value)
    requires depth > 0 && p <= |doc| && ReadValue(cfg, doc, depth, p, cur).Read?
    ensures var r := ReadValue(cfg, doc, depth, p, cur);
            ReadFrom(r.value, p) && r.value.start < r.value.limit == r.pos && Sliced(cfg, doc, r.value)
    decreases |doc| - p, 0
  {
    hide NextToken, ScalarOutcome, ReadMembers, ReadArray, Sliced, Filled;
    var t, v := NextToken(cfg, doc, p), ReadValue(cfg, doc, depth, p, cur).value;
    TokenBeforeSeparator(cfg, doc, depth, p, cur);
    if t.kind == ObjectBegin {
      var obj := Value(Object([]), t.start, cur.limit);
      EmptyFilled(cfg, doc, obj, t.end - 1);
      MembersSliced(cfg, doc, depth, t.end, obj, []);
      var o := ReadMembers(cfg, doc, depth, t.end, obj, []);
      ReadsAlone(cfg, doc, depth, p, cur, v);
      Closed(cfg, doc, o.value, o.pos);
    } else if t.kind == ArrayBegin {
      var arr := Value(Array([]), t.start, cur.limit);
      EmptyFilled(cfg, doc, arr, t.end - 1);
      ArraySliced(cfg, doc, depth, t.end, arr);
      var o := Parsing.ReadArray(cfg, doc, depth, t.end, arr);
      ReadsAlone(cfg, doc, depth, p, cur, v);
      Closed(cfg, doc, o.value, o.pos);
    } else if t.kind in {ArraySeparator, ObjectEnd, ArrayEnd} {
      DroppedRead(cfg, doc, t, cur);
      UnwrittenSliced(cfg, doc, v);
    } else {
      ScalarSpans(cfg, doc, t, cur);
      ReadsAlone(cfg, doc, depth, p, cur, v);
      ScalarSliced(cfg, doc, v);
    }
  }

  lemma EmptyFilled(cfg: Config, doc: Text, v: Value, q: int)
    requires IsContainer(v) && v.payload.entries == []
    ensures Filled(cfg, doc, v, q)
  {
  }

  lemma ScalarSliced(cfg: Config, doc: Text, v: Value)
    requires !IsContainer(v) && !IsUnwritten(v) && Alone(cfg, doc, v)
    ensures Sliced(cfg, doc, v)
  {
  }

  /** The token is un-read, and the null records the byte before it. */
  lemma DroppedRead(cfg: Config, doc: Text, t: Token, cur: Value)
    requires t.start <= t.end <= |doc| && t.kind in {ArraySeparator, ObjectEnd, ArrayEnd}
    requires ReadToken(doc, t.start) == t && ScalarOutcome(cfg, doc, t, cur).Read?
    ensures cfg.allowDropped
    ensures ScalarOutcome(cfg, doc, t, cur) == Read(Value(Null, t.start - 1, t.start), t.start)
  {
    hide ReadString, ReadNumber, ReadComment, Match, SkipSpaces;
  }

  lemma UnwrittenSliced(cfg: Config, doc: Text, v: Value)
    requires cfg.allowDropped && cfg.stackLimit > 0 && IsUnwritten(v) && -1 <= v.start < |doc|
    ensures Sliced(cfg, doc, v)
  {
    hide FindsNull, ClosesPlace;
    if 0 <= v.start {
      var slice, b := doc[v.start..v.limit], doc[v.start];
      assert slice == [b];
      forall root: Value ensures FindsNull(cfg, slice, root) <==> ClosesPlace(b) {
        OneByteDocument(cfg, b, root);
      }
    }
  }

  lemma ScalarSpans(cfg: Config, doc: Text, t: Token, cur: Value)
    requires t.start <= t.end <= |doc| && (t.kind == StringToken ==> t.start + 2 <= t.end)
    requires t.kind != EndOfStream ==> t.start < t.end
    requires t.kind !in {ArraySeparator, ObjectEnd, ArrayEnd} && ReadToken(doc, t.start) == t
    requires ScalarOutcome(cfg, doc, t, cur).Read?
    ensures var r := ScalarOutcome(cfg, doc, t, cur);
            !IsContainer(r.value) && !IsUnwritten(r.value) && r.value.start == t.start < r.value.limit == r.pos == t.end
  {
    hide DecodeString, Accumulate, ReadString, ReadNumber, ReadComment, SkipSpaces;
  }

  lemma {:induction false} ChildSliced(cfg: Config, doc: Text, depth: nat, p: nat, v: Value, k: Key, until: Kind)
    requires depth > 0 && p <= |doc| && IsContainer(v) && k.Name? == v.payload.Object?
    requires v.start < p && Filled(cfg, doc, v, p - 1) && ReadChild(cfg, doc, depth, p, v, k, until).Read?
    ensures var r := ReadChild(cfg, doc, depth, p, v, k, until);
            r.value.start == v.start && IsContainer(r.value) && Filled(cfg, doc, r.value, r.pos)
    decreases |doc| - p, 1
  {
    hide ReadValue, Filled, Sliced;
    ValueSliced(cfg, doc, depth + 1, p, SlotOf(v, k));
    var w := ReadValue(cfg, doc, depth + 1, p, SlotOf(v, k));
    FillOne(cfg, doc, v, p, k, w.value, w.pos);
  }

  /** The state of a container between two rounds of its loop, or when it is read. */
  ghost predicate RoundFilled(cfg: Config, doc: Text, r: Round, start: int) {
    match r
    case Stop(o) =>
      o.Read? ==> o.value.start == start && IsContainer(o.value) && Filled(cfg, doc, o.value, o.pos - 1)
    case Continue(v, q, _) => v.start == start && start < q && IsContainer(v) && Filled(cfg, doc, v, q - 1)
  }

  lemma RoundAfterChild(cfg: Config, doc: Text, v: Value, p: nat, name: Text, s: SeparatorResult)
    requires IsContainer(v) && Filled(cfg, doc, v, p) && v.start < p && (!s.BadSeparator? ==> p < s.pos)
    ensures RoundFilled(cfg, doc, AfterChild(v, name, s), v.start)
  {
    hide Filled;
    if !s.BadSeparator? {
      FilledFurther(cfg, doc, v, p, s.pos - 1);
    }
  }

  lemma {:induction false} MemberRoundSliced(cfg: Config, doc: Text, depth: nat, p: nat, obj: Value, name: Text)
    requires depth > 0 && p <= |doc| && obj.payload.Object?
    requires obj.start < p && Filled(cfg, doc, obj, p - 1)
    ensures RoundFilled(cfg, doc, MemberRound(cfg, doc, depth, p, obj, name), obj.start)
    decreases |doc| - p, 3
  {
    hide ReadName, ReadChild, AfterMember, AfterChild, Filled;
    var next := ReadName(doc, p, name);
    if next.NoMember? {
      FilledFurther(cfg, doc, obj, p - 1, next.pos - 1);
    } else if next.Named? {
      FilledFurther(cfg, doc, obj, p - 1, next.pos - 1);
      var child := ReadChild(cfg, doc, depth, next.pos, obj, Name(next.name), ObjectEnd);
      if child.Read? {
        ChildSliced(cfg, doc, depth, next.pos, obj, Name(next.name), ObjectEnd);
        RoundAfterChild(cfg, doc, child.value, child.pos, next.name, AfterMember(doc, child.pos));
      }
    }
  }

  lemma {:induction false} MembersSliced(cfg: Config, doc: Text, depth: nat, p: nat, obj: Value, name: Text)
    requires depth > 0 && p <= |doc| && obj.payload.Object?
    requires obj.start < p && Filled(cfg, doc, obj, p - 1) && ReadMembers(cfg, doc, depth, p, obj, name).Read?
    ensures var r := ReadMembers(cfg, doc, depth, p, obj, name);
            r.value.start == obj.start && IsContainer(r.value) && Filled(cfg, doc, r.value, r.pos - 1)
    decreases |doc| - p, 4
  {
    hide MemberRound, Filled;
    MemberRoundSliced(cfg, doc, depth, p, obj, name);
    var round := MemberRound(cfg, doc, depth, p, obj, name);
    if round.Continue? {
      MembersSliced(cfg, doc, depth, round.pos, round.value, round.name);
    }
  }

  lemma {:induction false} ElementsSliced(cfg: Config, doc: Text, depth: nat, p: nat, arr: Value, index: nat)
    requires depth > 0 && p <= |doc| && arr.payload.Array?
    requires arr.start < p && Filled(cfg, doc, arr, p - 1) && ReadElements(cfg, doc, depth, p, arr, index).Read?
    ensures var r := ReadElements(cfg, doc, depth, p, arr, index);
            r.value.start == arr.start && IsContainer(r.value) && Filled(cfg, doc, r.value, r.pos - 1)
    decreases |doc| - p, 3
  {
    hide ReadChild, AfterElement, AfterChild, Filled;
    var child := ReadChild(cfg, doc, depth, p, arr, Index(index), ArrayEnd);
    var round := ElementRound(cfg, doc, depth, p, arr, index);
    if child.Read? {
      ChildSliced(cfg, doc, depth, p, arr, Index(index), ArrayEnd);
      RoundAfterChild(cfg, doc, child.value, child.pos, [], AfterElement(doc, child.pos));
    }
    if round.Continue? {
      ElementsSliced(cfg, doc, depth, round.pos, round.value, index + 1);
    }
  }

  lemma {:induction false} ArraySliced(cfg: Config, doc: Text, depth: nat, p: nat, arr: Value)
    requires depth > 0 && p <= |doc| && arr.payload.Array?
    requires arr.start < p && Filled(cfg, doc, arr, p - 1) && Parsing.ReadArray(cfg, doc, depth, p, arr).Read?
    ensures var r := Parsing.ReadArray(cfg, doc, depth, p, arr);
            r.value.start == arr.start && IsContainer(r.value) && Filled(cfg, doc, r.value, r.pos - 1)
    decreases |doc| - p, 4
  {
    hide SkipSpaces, ReadElements, Filled;
    var s := SkipSpaces(doc, p);
    FilledFurther(cfg, doc, arr, p - 1, s - 1);
    if s < |doc| && doc[s] == RBRACKET {
      FilledFurther(cfg, doc, arr, p - 1, s);
    } else {
      ElementsSliced(cfg, doc, depth, s, arr, 0);
    }
  }

  /** The slice law, for every document and configuration. */
  lemma SliceLaw(cfg: Config, doc: Text, root0: Value)
    requires Parse(cfg, doc, root0).Parsed? && Parse(cfg, doc, root0).ok
    ensures Sliced(cfg, doc, Parse(cfg, doc, root0).root)
  {
    hide ReadValue, Sliced;
    ValueSliced(cfg, doc, 1, 0, root0);
  }

  /** So a node's slice parses to an equal value, whatever the value that receives it was. */
  lemma SliceParsesEqual(cfg: Config, doc: Text, v: Value, root: Value)
    requires Sliced(cfg, doc, v) && !IsUnwritten(v)
    ensures 0 <= v.start < v.limit <= |doc|
    ensures var r := Parse(cfg, doc[v.start..v.limit], root);
            r.Parsed? && Equal(r.root, v) && (r.ok <==> !cfg.strictRoot || IsContainer(v))
  {
    hide Parse, Filled, Equal;
    MovedEqual(v, v.start);
    assert Alone(cfg, doc, v);
  }

  // ---- two nulls that were not written ----

  /** `[,]` */
  const TWO_PLACES: Text := [LBRACKET, COMMA, RBRACKET]

  lemma TwoPlacesTokens()
    ensures ReadToken(TWO_PLACES, 0) == Token(ArrayBegin, 0, 1)
    ensures ReadToken(TWO_PLACES, 1) == Token(ArraySeparator, 1, 2)
    ensures ReadToken(TWO_PLACES, 2) == Token(ArrayEnd, 2, 3)
    ensures SkipSpaces(TWO_PLACES, 1) == 1
  {
  }

  lemma TwoPlacesRead(cfg: Config, cur: Value)
    requires cfg.allowDropped && 2 <= cfg.stackLimit
    ensures ReadValue(cfg, TWO_PLACES, 2, 1, cur) == Read(Value(Null, 0, 1), 1)
    ensures ReadValue(cfg, TWO_PLACES, 2, 2, cur) == Read(Value(Null, 1, 2), 2)
  {
    hide ReadToken;
    TwoPlacesTokens();
    NextIsRead(cfg, TWO_PLACES, 1);
    NextIsRead(cfg, TWO_PLACES, 2);
  }

  lemma TwoPlacesArray(cfg: Config, arr: Value, first: Value, both: Value)
    requires cfg.allowDropped && 2 <= cfg.stackLimit && arr.payload == Array([])
    requires first == WithEntry(arr, Index(0), Value(Null, 0, 1))
    requires both == WithEntry(first, Index(1), Value(Null, 1, 2))
    requires SlotOf(first, Index(1)) == NULL_VALUE
    ensures Parsing.ReadArray(cfg, TWO_PLACES, 1, 1, arr) == Read(both, 3)
  {
    hide ReadToken, SkipSpaces, ReadValue, WithEntry;
    var doc := TWO_PLACES;
    TwoPlacesTokens();
    TwoPlacesRead(cfg, NULL_VALUE);
    assert ReadChild(cfg, doc, 1, 1, arr, Index(0), ArrayEnd) == Read(first, 1);
    assert ElementRound(cfg, doc, 1, 1, arr, 0) == Continue(first, 2, []);
    assert ReadChild(cfg, doc, 1, 2, first, Index(1), ArrayEnd) == Read(both, 2);
    assert ElementRound(cfg, doc, 1, 2, first, 1) == Stop(Read(both, 3));
    assert ReadElements(cfg, doc, 1, 2, first, 1) == Read(both, 3);
  }

  lemma TwoPlacesStored(limit: int)
    ensures var e, f := Entry(Index(0), Value(Null, 0, 1)), Entry(Index(1), Value(Null, 1, 2));
            var first := Value(Array([e]), 0, limit);
            && WithEntry(Value(Array([]), 0, limit), Index(0), e.value) == first
            && WithEntry(first, Index(1), f.value) == Value(Array([e, f]), 0, limit)
            && SlotOf(first, Index(1)) == NULL_VALUE
  {
    var e, f := Entry(Index(0), Value(Null, 0, 1)), Entry(Index(1), Value(Null, 1, 2));
    PutLast([], e.value);
    PutLast([e], f.value);
    assert [] + [e] == [e] && [e] + [f] == [e, f];
  }

  /** Of the two nulls in `[,]` the first records the bracket, which does not parse alone, the second the comma,
      which does. */
  lemma TwoPlaces(cfg: Config, root: Value)
    requires cfg.allowDropped && 2 <= cfg.stackLimit
    ensures Parse(cfg, TWO_PLACES, root) ==
            var nulls := [Entry(Index(0), Value(Null, 0, 1)), Entry(Index(1), Value(Null, 1, 2))];
            Parsed(true, Value(Array(nulls), 0, 3), [])
    ensures !FindsNull(cfg, TWO_PLACES[0..1], root) && FindsNull(cfg, TWO_PLACES[1..2], root)
  {
    hide ReadToken, SkipSpaces, FindsNull, Parsing.ReadArray, WithEntry, Slot;
    var doc, arr := TWO_PLACES, Value(Array([]), 0, root.limit);
    var first := Value(Array([Entry(Index(0), Value(Null, 0, 1))]), 0, root.limit);
    var both := Value(Array([Entry(Index(0), Value(Null, 0, 1)), Entry(Index(1), Value(Null, 1, 2))]), 0, root.limit);
    TwoPlacesTokens();
    NextIsRead(cfg, doc, 0);
    TwoPlacesStored(root.limit);
    TwoPlacesArray(cfg, arr, first, both);
    assert doc[0..1] == [LBRACKET] && doc[1..2] == [COMMA];
    OneByteDocument(cfg, LBRACKET, root);
    OneByteDocument(cfg, COMMA, root);
  }
}
