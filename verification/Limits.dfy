/** The stack limit: what it changes about a parse, and which documents can reach it. */
module Limits {
  import opened Bytes
  import opened Values
  import opened Lexer
  import opened Parsing

  function Raised(cfg: Config, limit: nat): Config {
    cfg.(stackLimit := limit)
  }

  lemma TokenUnlimited(cfg: Config, limit: nat, doc: Text, p: nat)
    requires p <= |doc|
    ensures NextToken(Raised(cfg, limit), doc, p) == NextToken(cfg, doc, p)
  {
  }

  // ---- a run that does not throw does not depend on the limit ----

  lemma {:induction false} ValueUnlimited(cfg: Config, limit: nat, doc: Text, depth: nat, p: nat, cur: Value)
    requires p <= |doc| && cfg.stackLimit <= limit && !ReadValue(cfg, doc, depth, p, cur).Threw?
    ensures ReadValue(Raised(cfg, limit), doc, depth, p, cur) == ReadValue(cfg, doc, depth, p, cur)
    decreases |doc| - p, 0
  {
    hide NextToken, ReadMembers, ReadElements, SkipSpaces;
    TokenUnlimited(cfg, limit, doc, p);
    var t := NextToken(cfg, doc, p);
    if t.kind == ObjectBegin {
      MembersUnlimited(cfg, limit, doc, depth, t.end, Value(Object([]), t.start, cur.limit), []);
    } else if t.kind == ArrayBegin {
      var s := SkipSpaces(doc, t.end);
      if !(s < |doc| && doc[s] == RBRACKET) {
        ElementsUnlimited(cfg, limit, doc, depth, s, Value(Array([]), t.start, cur.limit), 0);
      }
    } else {
      ScalarUnlimited(cfg, limit, doc, t, cur);
    }
  }

  lemma ScalarUnlimited(cfg: Config, limit: nat, doc: Text, t: Token, cur: Value)
    requires t.start <= t.end <= |doc| && (t.kind == StringToken ==> t.start + 2 <= t.end)
    requires t.kind != EndOfStream ==> t.start < t.end
    ensures ScalarOutcome(Raised(cfg, limit), doc, t, cur) == ScalarOutcome(cfg, doc, t, cur)
  {
  }

  lemma {:induction false} ChildUnlimited(cfg: Config, limit: nat, doc: Text, depth: nat, p: nat, v: Value, k: Key,
                                          until: Kind)
    requires p <= |doc| && IsContainer(v) && cfg.stackLimit <= limit
    requires !ReadChild(cfg, doc, depth, p, v, k, until).Threw?
    ensures ReadChild(Raised(cfg, limit), doc, depth, p, v, k, until) == ReadChild(cfg, doc, depth, p, v, k, until)
    decreases |doc| - p, 1
  {
    hide ReadValue, Recover, WithEntry;
    ValueUnlimited(cfg, limit, doc, depth + 1, p, SlotOf(v, k));
  }

  lemma {:induction false} MembersUnlimited(cfg: Config, limit: nat, doc: Text, depth: nat, p: nat, obj: Value,
                                            name: Text)
    requires p <= |doc| && obj.payload.Object? && cfg.stackLimit <= limit
    requires !ReadMembers(cfg, doc, depth, p, obj, name).Threw?
    ensures ReadMembers(Raised(cfg, limit), doc, depth, p, obj, name) == ReadMembers(cfg, doc, depth, p, obj, name)
    decreases |doc| - p, 4
  {
    hide ReadName, ReadChild, AfterMember;
    var round, next := MemberRound(cfg, doc, depth, p, obj, name), ReadName(doc, p, name);
    if next.Named? {
      assert round == MemberValue(cfg, doc, depth, next.pos, obj, next.name);
      ChildUnlimited(cfg, limit, doc, depth, next.pos, obj, Name(next.name), ObjectEnd);
      assert MemberValue(Raised(cfg, limit), doc, depth, next.pos, obj, next.name) == round;
    }
    assert MemberRound(Raised(cfg, limit), doc, depth, p, obj, name) == round;
    if round.Continue? {
      MembersUnlimited(cfg, limit, doc, depth, round.pos, round.value, round.name);
    }
  }

  lemma {:induction false} ElementsUnlimited(cfg: Config, limit: nat, doc: Text, depth: nat, p: nat, arr: Value,
                                             index: nat)
    requires p <= |doc| && arr.payload.Array? && cfg.stackLimit <= limit
    requires !ReadElements(cfg, doc, depth, p, arr, index).Threw?
    ensures ReadElements(Raised(cfg, limit), doc, depth, p, arr, index) == ReadElements(cfg, doc, depth, p, arr, index)
    decreases |doc| - p, 3
  {
    hide ReadChild, AfterElement;
    var round := ElementRound(cfg, doc, depth, p, arr, index);
    ChildUnlimited(cfg, limit, doc, depth, p, arr, Index(index), ArrayEnd);
    assert ElementRound(Raised(cfg, limit), doc, depth, p, arr, index) == round;
    if round.Continue? {
      ElementsUnlimited(cfg, limit, doc, depth, round.pos, round.value, index + 1);
    }
  }

  // ---- how deep a document can go ----

  predicate Opens(b: Byte) {
    b == LBRACKET || b == LBRACE
  }

  /** The number of opening brackets and braces from `p` on, wherever they stand. */
  function Openings(doc: Text, p: nat): nat
    requires p <= |doc|
    decreases |doc| - p
  {
    if p == |doc| then 0 else (if Opens(doc[p]) then 1 else 0) + Openings(doc, p + 1)
  }

  lemma {:induction false} FewerOpenings(doc: Text, p: nat, q: nat)
    requires p <= q <= |doc|
    ensures Openings(doc, q) <= Openings(doc, p)
    decreases q - p
  {
    if p < q {
      FewerOpenings(doc, p + 1, q);
    }
  }

  lemma OpeningConsumed(cfg: Config, doc: Text, p: nat)
    requires p <= |doc| && NextToken(cfg, doc, p).kind in {ObjectBegin, ArrayBegin}
    ensures Openings(doc, NextToken(cfg, doc, p).end) < Openings(doc, p)
  {
    var t := NextToken(cfg, doc, p);
    TokenOpens(doc, t);
    FewerOpenings(doc, p, t.start);
  }

  lemma TokenOpens(doc: Text, t: Token)
    requires t.start <= |doc| && ReadToken(doc, t.start) == t && t.kind in {ObjectBegin, ArrayBegin}
    ensures t.end == t.start + 1 <= |doc| && Opens(doc[t.start])
  {
  }

  lemma {:induction false} ValueFits(cfg: Config, doc: Text, depth: nat, p: nat, cur: Value)
    requires p <= |doc| && depth + Openings(doc, p) <= cfg.stackLimit
    ensures !ReadValue(cfg, doc, depth, p, cur).Threw?
    decreases |doc| - p, 0
  {
    hide NextToken, ReadMembers, ReadElements, SkipSpaces, Openings, ScalarOutcome;
    var t := NextToken(cfg, doc, p);
    if t.kind == ObjectBegin {
      OpeningConsumed(cfg, doc, p);
      MembersFit(cfg, doc, depth, t.end, Value(Object([]), t.start, cur.limit), []);
    } else if t.kind == ArrayBegin {
      OpeningConsumed(cfg, doc, p);
      var s := SkipSpaces(doc, t.end);
      FewerOpenings(doc, t.end, s);
      if !(s < |doc| && doc[s] == RBRACKET) {
        ElementsFit(cfg, doc, depth, s, Value(Array([]), t.start, cur.limit), 0);
      }
    } else {
      ScalarReturns(cfg, doc, t, cur);
    }
  }

  lemma ScalarReturns(cfg: Config, doc: Text, t: Token, cur: Value)
    requires t.start <= t.end <= |doc| && (t.kind == StringToken ==> t.start + 2 <= t.end)
    requires t.kind != EndOfStream ==> t.start < t.end
    ensures !ScalarOutcome(cfg, doc, t, cur).Threw?
  {
  }

  lemma {:induction false} ChildFits(cfg: Config, doc: Text, depth: nat, p: nat, v: Value, k: Key, until: Kind)
    requires p <= |doc| && IsContainer(v) && depth + 1 + Openings(doc, p) <= cfg.stackLimit
    ensures !ReadChild(cfg, doc, depth, p, v, k, until).Threw?
    decreases |doc| - p, 1
  {
    hide ReadValue, Recover, WithEntry, Openings;
    ValueFits(cfg, doc, depth + 1, p, SlotOf(v, k));
  }

  lemma {:induction false} MembersFit(cfg: Config, doc: Text, depth: nat, p: nat, obj: Value, name: Text)
    requires p <= |doc| && obj.payload.Object? && depth + 1 + Openings(doc, p) <= cfg.stackLimit
    ensures !ReadMembers(cfg, doc, depth, p, obj, name).Threw?
    decreases |doc| - p, 4
  {
    hide ReadName, ReadChild, AfterMember, Openings;
    var round, next := MemberRound(cfg, doc, depth, p, obj, name), ReadName(doc, p, name);
    if next.Named? {
      FewerOpenings(doc, p, next.pos);
      ChildFits(cfg, doc, depth, next.pos, obj, Name(next.name), ObjectEnd);
      assert round == MemberValue(cfg, doc, depth, next.pos, obj, next.name);
    }
    if round.Continue? {
      FewerOpenings(doc, p, round.pos);
      MembersFit(cfg, doc, depth, round.pos, round.value, round.name);
    }
  }

  lemma {:induction false} ElementsFit(cfg: Config, doc: Text, depth: nat, p: nat, arr: Value, index: nat)
    requires p <= |doc| && arr.payload.Array? && depth + 1 + Openings(doc, p) <= cfg.stackLimit
    ensures !ReadElements(cfg, doc, depth, p, arr, index).Threw?
    decreases |doc| - p, 3
  {
    hide ReadChild, AfterElement, Openings;
    ChildFits(cfg, doc, depth, p, arr, Index(index), ArrayEnd);
    var round := ElementRound(cfg, doc, depth, p, arr, index);
    if round.Continue? {
      FewerOpenings(doc, p, round.pos);
      ElementsFit(cfg, doc, depth, round.pos, round.value, index + 1);
    }
  }

  // ---- the limit ----

  /** Raising the limit changes nothing about a parse that did not throw. */
  lemma LimitOnlyThrows(cfg: Config, limit: nat, doc: Text, root: Value)
    requires cfg.stackLimit <= limit && Parse(cfg, doc, root) != Aborted
    ensures Parse(Raised(cfg, limit), doc, root) == Parse(cfg, doc, root)
  {
    hide ReadValue;
    ValueUnlimited(cfg, limit, doc, 1, 0, root);
  }

  /** The most containers open, of those opened from here on, at any entry of readValue. */
  function MostOpen(cfg: Config, doc: Text, depth: nat, p: nat, cur: Value): nat
    requires p <= |doc|
    decreases |doc| - p, 0
  {
    var t := NextToken(cfg, doc, p);
    if t.kind == ObjectBegin then MostOpenMembers(cfg, doc, depth, t.end, Value(Object([]), t.start, cur.limit), [])
    else if t.kind == ArrayBegin then
      var s := SkipSpaces(doc, t.end);
      if s < |doc| && doc[s] == RBRACKET then 0
      else MostOpenElements(cfg, doc, depth, s, Value(Array([]), t.start, cur.limit), 0)
    else 0
  }

  function Max(m: nat, n: nat): nat {
    if m < n then n else m
  }

  /** The same inside an object, which counts as open while its members are read. */
  function MostOpenMembers(cfg: Config, doc: Text, depth: nat, p: nat, obj: Value, name: Text): nat
    requires p <= |doc| && obj.payload.Object?
    decreases |doc| - p, 4
  {
    var next := ReadName(doc, p, name);
    if !next.Named? then 0
    else
      var here := 1 + MostOpen(cfg, doc, depth + 1, next.pos, SlotOf(obj, Name(next.name)));
      match MemberRound(cfg, doc, depth, p, obj, name)
      case Stop(_) => here
      case Continue(obj', q, n) => Max(here, MostOpenMembers(cfg, doc, depth, q, obj', n))
  }

  function MostOpenElements(cfg: Config, doc: Text, depth: nat, p: nat, arr: Value, index: nat): nat
    requires p <= |doc| && arr.payload.Array?
    decreases |doc| - p, 3
  {
    var here := 1 + MostOpen(cfg, doc, depth + 1, p, SlotOf(arr, Index(index)));
    match ElementRound(cfg, doc, depth, p, arr, index)
    case Stop(_) => here
    case Continue(arr', q, _) => Max(here, MostOpenElements(cfg, doc, depth, q, arr', index + 1))
  }

  lemma {:induction false} ValueDepth(cfg: Config, limit: nat, doc: Text, depth: nat, p: nat, cur: Value)
    requires p <= |doc| && limit <= cfg.stackLimit && !ReadValue(cfg, doc, depth, p, cur).Threw?
    ensures ReadValue(Raised(cfg, limit), doc, depth, p, cur).Threw? <==>
            depth + MostOpen(cfg, doc, depth, p, cur) > limit
    decreases |doc| - p, 0
  {
    hide NextToken, ReadMembers, ReadElements, MostOpenMembers, MostOpenElements, SkipSpaces, ScalarOutcome;
    TokenUnlimited(cfg, limit, doc, p);
    var t := NextToken(cfg, doc, p);
    if depth <= limit {
      if t.kind == ObjectBegin {
        MembersDepth(cfg, limit, doc, depth, t.end, Value(Object([]), t.start, cur.limit), []);
      } else if t.kind == ArrayBegin {
        var s := SkipSpaces(doc, t.end);
        if !(s < |doc| && doc[s] == RBRACKET) {
          ElementsDepth(cfg, limit, doc, depth, s, Value(Array([]), t.start, cur.limit), 0);
        }
      } else {
        ScalarReturns(Raised(cfg, limit), doc, t, cur);
      }
    }
  }

  /** A child throws under the lower limit, or is the same child. */
  lemma {:induction false} ChildDepth(cfg: Config, limit: nat, doc: Text, depth: nat, p: nat, v: Value, k: Key,
                                      until: Kind)
    requires p <= |doc| && IsContainer(v) && limit <= cfg.stackLimit
    requires !ReadChild(cfg, doc, depth, p, v, k, until).Threw?
    ensures var low := ReadChild(Raised(cfg, limit), doc, depth, p, v, k, until);
            && (low.Threw? <==> depth + 1 + MostOpen(cfg, doc, depth + 1, p, SlotOf(v, k)) > limit)
            && (!low.Threw? ==> low == ReadChild(cfg, doc, depth, p, v, k, until))
    decreases |doc| - p, 1
  {
    hide ReadValue, Recover, WithEntry, MostOpen;
    ValueDepth(cfg, limit, doc, depth + 1, p, SlotOf(v, k));
    if !ReadChild(Raised(cfg, limit), doc, depth, p, v, k, until).Threw? {
      ChildUnlimited(Raised(cfg, limit), cfg.stackLimit, doc, depth, p, v, k, until);
      assert Raised(Raised(cfg, limit), cfg.stackLimit) == cfg;
    }
  }

  lemma {:induction false} MembersDepth(cfg: Config, limit: nat, doc: Text, depth: nat, p: nat, obj: Value, name: Text)
    requires p <= |doc| && obj.payload.Object? && depth <= limit <= cfg.stackLimit
    requires !ReadMembers(cfg, doc, depth, p, obj, name).Threw?
    ensures ReadMembers(Raised(cfg, limit), doc, depth, p, obj, name).Threw? <==>
            depth + MostOpenMembers(cfg, doc, depth, p, obj, name) > limit
    decreases |doc| - p, 4
  {
    hide ReadName, ReadChild, AfterMember, MostOpen;
    var low := Raised(cfg, limit);
    var round, next := MemberRound(cfg, doc, depth, p, obj, name), ReadName(doc, p, name);
    if next.Named? {
      assert round == MemberValue(cfg, doc, depth, next.pos, obj, next.name);
      ChildDepth(cfg, limit, doc, depth, next.pos, obj, Name(next.name), ObjectEnd);
      assert MemberRound(low, doc, depth, p, obj, name) == MemberValue(low, doc, depth, next.pos, obj, next.name);
      if round.Continue? {
        MembersDepth(cfg, limit, doc, depth, round.pos, round.value, round.name);
      }
    } else {
      assert MemberRound(low, doc, depth, p, obj, name) == round;
    }
  }

  lemma {:induction false} ElementsDepth(cfg: Config, limit: nat, doc: Text, depth: nat, p: nat, arr: Value, index: nat)
    requires p <= |doc| && arr.payload.Array? && depth <= limit <= cfg.stackLimit
    requires !ReadElements(cfg, doc, depth, p, arr, index).Threw?
    ensures ReadElements(Raised(cfg, limit), doc, depth, p, arr, index).Threw? <==>
            depth + MostOpenElements(cfg, doc, depth, p, arr, index) > limit
    decreases |doc| - p, 3
  {
    hide ReadChild, AfterElement, MostOpen;
    var round := ElementRound(cfg, doc, depth, p, arr, index);
    ChildDepth(cfg, limit, doc, depth, p, arr, Index(index), ArrayEnd);
    assert ElementRound(Raised(cfg, limit), doc, depth, p, arr, index).Continue? ==>
        ElementRound(Raised(cfg, limit), doc, depth, p, arr, index) == round;
    if round.Continue? {
      ElementsDepth(cfg, limit, doc, depth, round.pos, round.value, index + 1);
    }
  }

  /** Parsing can throw only if the document has as many opening brackets as the limit. */
  lemma ThrowsOnlyDeep(cfg: Config, doc: Text, root: Value)
    requires Parse(cfg, doc, root) == Aborted
    ensures cfg.stackLimit <= Openings(doc, 0)
  {
    hide ReadValue, Openings;
    if Openings(doc, 0) < cfg.stackLimit {
      ValueFits(cfg, doc, 1, 0, root);
    }
  }

  /** One more than the most containers open at any entry of readValue, in a run that no limit stops. */
  function DepthOf(cfg: Config, doc: Text, root: Value): nat {
    1 + MostOpen(Raised(cfg, Openings(doc, 0) + 1), doc, 1, 0, root)
  }

  /** Each document has one depth: with that limit or a higher one parsing answers always the same, below it throws. */
  lemma DepthExactly(cfg: Config, doc: Text, root: Value, limit: nat)
    ensures Parse(Raised(cfg, limit), doc, root) == Aborted <==> limit < DepthOf(cfg, doc, root)
    ensures DepthOf(cfg, doc, root) <= limit ==>
              Parse(Raised(cfg, limit), doc, root) == Parse(Raised(cfg, DepthOf(cfg, doc, root)), doc, root)
    ensures DepthOf(cfg, doc, root) <= Openings(doc, 0) + 1
  {
    hide Parse, Openings, MostOpen, DepthOf;
    var depth := DepthOf(cfg, doc, root);
    ThrowsBelow(cfg, doc, root, depth);
    ThrowsBelow(cfg, doc, root, limit);
    if depth <= limit {
      LimitOnlyThrows(Raised(cfg, depth), limit, doc, root);
    }
  }

  lemma ThrowsBelow(cfg: Config, doc: Text, root: Value, limit: nat)
    ensures Parse(Raised(cfg, limit), doc, root) == Aborted <==> limit < DepthOf(cfg, doc, root)
    ensures DepthOf(cfg, doc, root) <= Openings(doc, 0) + 1
  {
    hide ReadValue, Openings, MostOpen;
    var high := Raised(cfg, Openings(doc, 0) + 1);
    if Parse(high, doc, root) == Aborted {
      ThrowsOnlyDeep(high, doc, root);
    }
    var n := if limit < high.stackLimit then limit else high.stackLimit;
    ValueDepth(high, n, doc, 1, 0, root);
    ValueDepth(high, high.stackLimit, doc, 1, 0, root);
    if limit > n {
      ValueUnlimited(high, limit, doc, 1, 0, root);
    }
  }

  /** The bound is tight: a document of opening brackets only goes one deeper than their number. */
  lemma {:induction false} OnlyOpenings(cfg: Config, doc: Text, depth: nat, p: nat, cur: Value)
    requires p <= |doc| && forall i | p <= i < |doc| :: doc[i] == LBRACKET
    ensures ReadValue(cfg, doc, depth, p, cur).Threw? <==> depth + (|doc| - p) > cfg.stackLimit
    ensures !ReadValue(cfg, doc, depth, p, cur).Read?
    decreases |doc| - p
  {
    hide Recover, WithEntry, AfterElement, ReadString, ReadNumber, ReadComment, Match, Put;
    var t := NextToken(cfg, doc, p);
    if p < |doc| && depth <= cfg.stackLimit {
      assert t == Token(ArrayBegin, p, p + 1);
      var arr := Value(Array([]), p, cur.limit);
      OnlyOpenings(cfg, doc, depth + 1, p + 1, SlotOf(arr, Index(0)));
      var child := ReadChild(cfg, doc, depth, p + 1, arr, Index(0), ArrayEnd);
      assert ElementRound(cfg, doc, depth, p + 1, arr, 0) == Stop(child);
      assert SkipSpaces(doc, p + 1) == p + 1;
      assert Parsing.ReadArray(cfg, doc, depth, p + 1, arr) == child;
    }
  }
}
