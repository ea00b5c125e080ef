/** What parsing accepts is canonical: writing it and parsing again changes nothing. */
module Reparsing {
  import opened Bytes
  import opened Values
  import opened OrderedMap
  import opened Lexer
  import opened Decoding
  import opened Parsing
  import opened Spelling
  import opened RoundTrip
  import opened RoundTripTheorems
  import FastWriting
  import StyledWriting

  /** A value as the reader builds it, with no more than `room` containers around any element. */
  predicate Tidy(v: Value, room: int) {
    Valid(v) && IsCompact(v) && Height(false, v) <= room
  }

  /** The elements of a container under construction. */
  predicate TidyElements(v: Value, room: int)
    requires IsContainer(v)
  {
    var es := v.payload.entries;
    && Sorted(es) && SameKind(es, v.payload.Object?) && (v.payload.Array? ==> Contiguous(es))
    && forall i | 0 <= i < |es| :: Tidy(es[i].value, room - 1)
  }

  lemma {:induction false} LowList(v: Value, i: nat, room: int)
    requires IsContainer(v) && i <= |v.payload.entries| && 0 <= room
    requires forall j | 0 <= j < |v.payload.entries| :: Height(false, v.payload.entries[j].value) <= room - 1
    ensures ListHeight(false, v, i) <= room
    decreases |v.payload.entries| - i
  {
    if i < |v.payload.entries| {
      LowList(v, i + 1, room);
    }
  }

  lemma TidyWhole(v: Value, room: int, limit: int)
    requires IsContainer(v) && TidyElements(v, room) && 0 <= room
    ensures Tidy(v.(limit := limit), room)
  {
    hide Sorted, SameKind, Contiguous;
    LowList(v.(limit := limit), 0, room);
  }

  /** An element put under a new key, or over an older element of the same name. */
  lemma TidyPut(v: Value, k: Key, child: Value, room: int)
    requires IsContainer(v) && TidyElements(v, room) && Tidy(child, room - 1) && k.Name? == v.payload.Object?
    requires v.payload.Array? ==> k == Index(|v.payload.entries|)
    ensures var r := WithEntry(v, k, child);
            TidyElements(r, room) && (v.payload.Array? ==> |r.payload.entries| == |v.payload.entries| + 1)
  {
    hide Tidy, KeyLess;
    PutSorted(v.payload.entries, k, child, v.payload.Object?);
    if v.payload.Array? {
      PutLast(v.payload.entries, child);
    }
  }

  // ---- every value read is tidy ----

  lemma ScalarTidy(cfg: Config, doc: Text, t: Token, cur: Value, room: int)
    requires t.start <= t.end <= |doc| && (t.kind == StringToken ==> t.start + 2 <= t.end) && 0 <= room
    requires t.kind != EndOfStream ==> t.start < t.end
    requires ScalarOutcome(cfg, doc, t, cur).Read?
    ensures Tidy(ScalarOutcome(cfg, doc, t, cur).value, room)
  {
    hide DecodeString, Accumulate;
  }

  lemma {:induction false} ValueTidy(cfg: Config, doc: Text, depth: nat, p: nat, cur: Value)
    requires p <= |doc| && ReadValue(cfg, doc, depth, p, cur).Read?
    ensures Tidy(ReadValue(cfg, doc, depth, p, cur).value, cfg.stackLimit - depth)
    decreases |doc| - p, 0
  {
    hide NextToken, ReadMembers, ReadElements, SkipSpaces, ScalarOutcome, Tidy;
    var t, room := NextToken(cfg, doc, p), cfg.stackLimit - depth;
    if t.kind == ObjectBegin {
      var obj := Value(Object([]), t.start, cur.limit);
      MembersTidy(cfg, doc, depth, t.end, obj, []);
      var o := ReadMembers(cfg, doc, depth, t.end, obj, []);
      TidyWhole(o.value, room, o.pos);
    } else if t.kind == ArrayBegin {
      var s, arr := SkipSpaces(doc, t.end), Value(Array([]), t.start, cur.limit);
      if s < |doc| && doc[s] == RBRACKET {
        TidyWhole(arr, room, s + 1);
      } else {
        ElementsTidy(cfg, doc, depth, s, arr, 0);
        var o := ReadElements(cfg, doc, depth, s, arr, 0);
        TidyWhole(o.value, room, o.pos);
      }
    } else {
      ScalarTidy(cfg, doc, t, cur, room);
    }
  }

  lemma {:induction false} ChildTidy(cfg: Config, doc: Text, depth: nat, p: nat, v: Value, k: Key, until: Kind)
    requires p <= |doc| && IsContainer(v) && k.Name? == v.payload.Object?
    requires v.payload.Array? ==> k == Index(|v.payload.entries|)
    requires TidyElements(v, cfg.stackLimit - depth) && ReadChild(cfg, doc, depth, p, v, k, until).Read?
    ensures var r := ReadChild(cfg, doc, depth, p, v, k, until);
            && IsContainer(r.value) && TidyElements(r.value, cfg.stackLimit - depth)
            && (v.payload.Array? ==> |r.value.payload.entries| == |v.payload.entries| + 1)
    decreases |doc| - p, 1
  {
    hide ReadValue, TidyElements, Tidy;
    ValueTidy(cfg, doc, depth + 1, p, SlotOf(v, k));
    TidyPut(v, k, ReadValue(cfg, doc, depth + 1, p, SlotOf(v, k)).value, cfg.stackLimit - depth);
  }

  lemma {:induction false} MembersTidy(cfg: Config, doc: Text, depth: nat, p: nat, obj: Value, name: Text)
    requires p <= |doc| && obj.payload.Object? && TidyElements(obj, cfg.stackLimit - depth)
    requires ReadMembers(cfg, doc, depth, p, obj, name).Read?
    ensures var r := ReadMembers(cfg, doc, depth, p, obj, name);
            IsContainer(r.value) && TidyElements(r.value, cfg.stackLimit - depth)
    decreases |doc| - p, 4
  {
    hide ReadName, ReadChild, AfterMember, TidyElements;
    var round, next := MemberRound(cfg, doc, depth, p, obj, name), ReadName(doc, p, name);
    if next.Named? {
      assert round == MemberValue(cfg, doc, depth, next.pos, obj, next.name);
      if ReadChild(cfg, doc, depth, next.pos, obj, Name(next.name), ObjectEnd).Read? {
        ChildTidy(cfg, doc, depth, next.pos, obj, Name(next.name), ObjectEnd);
      }
    }
    if round.Continue? {
      MembersTidy(cfg, doc, depth, round.pos, round.value, round.name);
    }
  }

  lemma {:induction false} ElementsTidy(cfg: Config, doc: Text, depth: nat, p: nat, arr: Value, index: nat)
    requires p <= |doc| && arr.payload.Array? && TidyElements(arr, cfg.stackLimit - depth)
    requires index == |arr.payload.entries| && ReadElements(cfg, doc, depth, p, arr, index).Read?
    ensures var r := ReadElements(cfg, doc, depth, p, arr, index);
            IsContainer(r.value) && TidyElements(r.value, cfg.stackLimit - depth)
    decreases |doc| - p, 3
  {
    hide ReadChild, AfterElement, TidyElements;
    var round := ElementRound(cfg, doc, depth, p, arr, index);
    if ReadChild(cfg, doc, depth, p, arr, Index(index), ArrayEnd).Read? {
      ChildTidy(cfg, doc, depth, p, arr, Index(index), ArrayEnd);
    }
    if round.Continue? {
      ElementsTidy(cfg, doc, depth, round.pos, round.value, index + 1);
    }
  }

  // ---- parsing, writing and parsing again ----

  /** Nothing the writers leave out makes a value deeper. */
  lemma {:induction false} DenseNoDeeper(v: Value)
    ensures Height(false, Dense(v)) <= Height(false, v)
    decreases v, 1
  {
    hide LowerBound;
    if IsContainer(v) {
      var es, d := v.payload.entries, Dense(v);
      forall i | 0 <= i < |es| ensures Height(false, Dense(es[i].value)) + 1 <= Height(false, v) {
        DenseNoDeeper(es[i].value);
        HeightAbove(v, 0, i);
      }
      if es == [] {
        assert d.payload.entries == [];
      }
      forall i | 0 <= i < |d.payload.entries|
        ensures Height(false, d.payload.entries[i].value) <= Height(false, v) - 1
      {
        HeightAbove(v, 0, 0);
      }
      LowList(d, 0, Height(false, v));
    }
  }

  lemma {:induction false} HeightAbove(v: Value, i: nat, j: nat)
    requires IsContainer(v) && i <= j < |v.payload.entries|
    ensures 1 + Height(false, v.payload.entries[j].value) <= ListHeight(false, v, i)
    decreases j - i
  {
    if i < j {
      HeightAbove(v, i + 1, j);
    }
  }

  /** Whatever was accepted, written by either writer and parsed again, is accepted again; it is the same value exactly
      if no array in it has 2^32 elements or more. */
  lemma ReparseIsIdentity(cfg: Config, doc: Text, root0: Value, root1: Value, o: FastWriting.Options,
                          s: StyledWriting.Style)
    requires Parse(cfg, doc, root0).Parsed? && Parse(cfg, doc, root0).ok && RealFree(Parse(cfg, doc, root0).root)
    requires !o.dropNull && !s.dropNull && StyledWriting.IsPlain(s)
    ensures var v := Parse(cfg, doc, root0).root;
            var fast := Parse(cfg, FastWriting.Written(o, v), root1);
            var styled := Parse(cfg, StyledWriting.Written(s, v), root1);
            && fast.Parsed? && fast.ok && (Equal(fast.root, v) <==> SizesFit(v))
            && styled.Parsed? && styled.ok && (Equal(styled.root, v) <==> SizesFit(v))
  {
    hide ReadValue, FastWriting.Written, StyledWriting.Written, Valid, Equal, Height, Dense, IsCompact, Faithful;
    ValueTidy(cfg, doc, 1, 0, root0);
    var v := Parse(cfg, doc, root0).root;
    DenseNoDeeper(v);
    FaithfulExactly(v);
    IdentityExactly(false, v);
    FastRoundTrip(cfg, o, v, root1);
    StyledRoundTrip(cfg, s, v, root1);
    EqualReplaces(Parse(cfg, FastWriting.Written(o, v), root1).root, Reread(false, Dense(v)), v);
    EqualReplaces(Parse(cfg, StyledWriting.Written(s, v), root1).root, Reread(false, Dense(v)), v);
  }
}
