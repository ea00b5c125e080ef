/** Reading any document that spells a value gives that value back. */
module RoundTrip {
  import opened Bytes
  import opened Values
  import opened Lexer
  import opened Parsing
  import opened Numerals
  import opened Escaping
  import opened Spelling

  predicate IsLoneNull(v: Value) {
    v.payload.Array? && |v.payload.entries| == 1 && v.payload.entries[0].value.payload.Null?
  }

  /** The number of containers around the innermost element that comes back. */
  function Height(drop: bool, v: Value): nat
    decreases v
  {
    if IsContainer(v) && !(drop && IsLoneNull(v)) then ListHeight(drop, v, 0) else 0
  }

  function ListHeight(drop: bool, v: Value, i: nat): nat
    requires IsContainer(v) && i <= |v.payload.entries|
    decreases v, |v.payload.entries| - i
  {
    if i == |v.payload.entries| then 0
    else
      var here, rest := 1 + Height(drop, v.payload.entries[i].value), ListHeight(drop, v, i + 1);
      if here > rest then here else rest
  }

  /** What comes back for a dense value: integers of canonical type, and without null placeholders
      an empty array for an array of one null. */
  function Reread(drop: bool, v: Value): (r: Value)
    ensures r.payload.Array? == v.payload.Array? && IsContainer(r) == IsContainer(v)
    decreases v
  {
    match v.payload
    case Int(i) => v.(payload := Canonical(i))
    case UInt(u) => v.(payload := Canonical(u))
    case Array(es) =>
      if drop && IsLoneNull(v) then v.(payload := Array([]))
      else v.(payload := Array(seq(|es|, i requires 0 <= i < |es| => Entry(es[i].key, Reread(drop, es[i].value)))))
    case Object(es) =>
      v.(payload := Object(seq(|es|, i requires 0 <= i < |es| => Entry(es[i].key, Reread(drop, es[i].value)))))
    case _ => v
  }

  predicate Closes(ws: seq<Word>) {
    ws != [] && ws[0].kind in {ArraySeparator, ObjectEnd, ArrayEnd}
  }

  /** `o` read `v` back with `depth` nodes on the stack, and `rest` is spelled after it, up to `q`;
      or it threw because `v` is too deep. */
  predicate ReadsBack(cfg: Config, drop: bool, doc: Text, depth: nat, v: Value, rest: seq<Word>, q: nat, o: Outcome) {
    if depth + Height(drop, v) > cfg.stackLimit then o.Threw?
    else o.Read? && Equal(o.value, Reread(drop, v)) && Spells(doc, o.pos, rest, q)
  }

  /** The words from element `i` of a container on, and those from the separator before it on. */
  function FromEntry(drop: bool, v: Value, i: nat, rest: seq<Word>): seq<Word>
    requires IsContainer(v) && i < |v.payload.entries|
  {
    var e := v.payload.entries[i];
    KeyWords(e.key) + (Words(drop, e.value) + FromSeparator(drop, v, i + 1, rest))
  }

  function FromSeparator(drop: bool, v: Value, i: nat, rest: seq<Word>): seq<Word>
    requires IsContainer(v) && i <= |v.payload.entries|
  {
    FromComma(ElementWords(drop, v), EndWord(v), i, rest)
  }

  /** The words after a container's opening bracket. */
  function FromList(drop: bool, v: Value, rest: seq<Word>): seq<Word>
    requires IsContainer(v)
  {
    if v.payload.entries == [] then FromSeparator(drop, v, 0, rest) else FromEntry(drop, v, 0, rest)
  }

  lemma FromEntryWhole(drop: bool, v: Value, i: nat, rest: seq<Word>)
    requires IsContainer(v) && i < |v.payload.entries|
    ensures FromEntry(drop, v, i, rest) == FromItem(ElementWords(drop, v), EndWord(v), i, rest)
  {
    var e := v.payload.entries[i];
    Associate(KeyWords(e.key), Words(drop, e.value), FromSeparator(drop, v, i + 1, rest));
  }

  lemma FromSeparatorUnfolds(drop: bool, v: Value, i: nat, rest: seq<Word>)
    requires IsContainer(v) && i <= |v.payload.entries|
    ensures FromSeparator(drop, v, i, rest) ==
            if i == |v.payload.entries| then [EndWord(v)] + rest else [SEPARATOR] + FromEntry(drop, v, i, rest)
    ensures Closes(FromSeparator(drop, v, i, rest))
  {
    hide FromEntry, FromComma;
    FromCommaUnfolds(ElementWords(drop, v), EndWord(v), i, rest);
    if i < |v.payload.entries| {
      FromEntryWhole(drop, v, i, rest);
    }
  }

  lemma ContainerUnfolds(drop: bool, v: Value, rest: seq<Word>)
    requires IsContainer(v)
    ensures Words(drop, v) + rest == [BeginWord(v)] + FromList(drop, v, rest)
  {
    hide FromEntry, FromComma;
    ListUnfolds(BeginWord(v), ElementWords(drop, v), EndWord(v), rest);
    if v.payload.entries == [] {
      FromSeparatorUnfolds(drop, v, 0, rest);
    } else {
      FromEntryWhole(drop, v, 0, rest);
    }
  }

  /** `c` holds what came back for the first `i` elements of `v`. */
  predicate BuiltUp(drop: bool, c: Value, v: Value, i: nat)
    requires IsContainer(v) && i <= |v.payload.entries|
  {
    && IsContainer(c) && c.payload.Array? == v.payload.Array?
    && |c.payload.entries| == i
    && forall j | 0 <= j < i ::
         && c.payload.entries[j].key == v.payload.entries[j].key
         && Equal(c.payload.entries[j].value, Reread(drop, v.payload.entries[j].value))
  }

  lemma BuildOn(drop: bool, c: Value, v: Value, i: nat, w: Value)
    requires IsDense(v) && IsContainer(v) && i < |v.payload.entries| && BuiltUp(drop, c, v, i)
    requires Equal(w, Reread(drop, v.payload.entries[i].value))
    ensures BuiltUp(drop, WithEntry(c, v.payload.entries[i].key, w), v, i + 1)
  {
    var k := v.payload.entries[i].key;
    assert forall j | 0 <= j < i :: KeyLess(c.payload.entries[j].key, k);
    assert LowerBound(c.payload.entries, k) == i;
  }

  lemma BuiltWhole(drop: bool, c: Value, v: Value)
    requires IsContainer(v) && BuiltUp(drop, c, v, |v.payload.entries|) && !(drop && IsLoneNull(v))
    ensures Equal(c, Reread(drop, v))
  {
  }

  // ---- one round of the parser's loops ----

  lemma ElementStep(cfg: Config, doc: Text, depth: nat, p: nat, arr: Value, i: nat)
    requires p <= |doc| && arr.payload.Array?
    ensures var child := ReadValue(cfg, doc, depth + 1, p, SlotOf(arr, Index(i)));
            && (child.Threw? ==> ReadElements(cfg, doc, depth, p, arr, i).Threw?)
            && (child.Read? ==>
                  var t, arr' := ReadToken(doc, child.pos), WithEntry(arr, Index(i), child.value);
                  && (t.kind == ArrayEnd ==> ReadElements(cfg, doc, depth, p, arr, i) == Read(arr', t.end))
                  && (t.kind == ArraySeparator ==>
                        ReadElements(cfg, doc, depth, p, arr, i) == ReadElements(cfg, doc, depth, t.end, arr', i + 1)))
  {
    hide ReadToken, Recover, ReadValue, WithEntry;
    var child := ReadChild(cfg, doc, depth, p, arr, Index(i), ArrayEnd);
    assert ElementRound(cfg, doc, depth, p, arr, i) ==
           if child.Read? then AfterChild(child.value, [], AfterElement(doc, child.pos)) else Stop(child);
  }

  lemma MemberStep(cfg: Config, doc: Text, depth: nat, p: nat, obj: Value, previous: Text, name: Text, m: nat)
    requires p <= |doc| && obj.payload.Object? && ReadName(doc, p, previous) == Named(name, m)
    ensures var child := ReadValue(cfg, doc, depth + 1, m, SlotOf(obj, Name(name)));
            && (child.Threw? ==> ReadMembers(cfg, doc, depth, p, obj, previous).Threw?)
            && (child.Read? ==>
                  var t, obj' := ReadToken(doc, child.pos), WithEntry(obj, Name(name), child.value);
                  && (t.kind == ObjectEnd ==> ReadMembers(cfg, doc, depth, p, obj, previous) == Read(obj', t.end))
                  && (t.kind == ArraySeparator ==>
                        ReadMembers(cfg, doc, depth, p, obj, previous) ==
                        ReadMembers(cfg, doc, depth, t.end, obj', name)))
  {
    hide ReadName, ReadToken, Recover, ReadValue, WithEntry;
    var child := ReadChild(cfg, doc, depth, m, obj, Name(name), ObjectEnd);
    assert MemberRound(cfg, doc, depth, p, obj, previous) == MemberValue(cfg, doc, depth, m, obj, name);
    assert MemberValue(cfg, doc, depth, m, obj, name) ==
           if child.Read? then AfterChild(child.value, name, AfterMember(doc, child.pos)) else Stop(child);
  }

  // ---- reading back ----

  /** What a container's loop makes of elements `i` on. */
  predicate ListReadsBack(cfg: Config, drop: bool, doc: Text, depth: nat, v: Value, i: nat, rest: seq<Word>, q: nat,
                          o: Outcome)
    requires IsContainer(v) && i <= |v.payload.entries|
  {
    if depth + ListHeight(drop, v, i) > cfg.stackLimit then o.Threw?
    else o.Read? && BuiltUp(drop, o.value, v, |v.payload.entries|) && Spells(doc, o.pos, rest, q)
  }

  /** The token of a scalar decodes to it. */
  lemma ScalarDecodes(cfg: Config, doc: Text, t: Token, cur: Value, v: Value)
    requires IsDense(v) && !IsContainer(v) && t.start < t.end <= |doc|
    requires Words(false, v) == [Word(t.kind, doc[t.start..t.end])]
    ensures Words(false, v)[0].kind == StringToken ==> t.start + 2 <= t.end
    ensures ScalarOutcome(cfg, doc, t, cur) == Read(Scalar(Reread(false, v).payload, t), t.end)
  {
    match v.payload {
      case Null =>
      case Boolean(_) =>
      case Int(i) => PrintThenDecode(i);
      case UInt(u) => PrintThenDecode(u);
      case String(s) => DecodeQuoted(s);
    }
  }

  lemma ScalarReadsBack(cfg: Config, drop: bool, doc: Text, depth: nat, p: nat, cur: Value,
                        v: Value, rest: seq<Word>, q: nat)
    requires IsDense(v) && !IsContainer(v) && !(drop && v.payload.Null?) && depth <= cfg.stackLimit
    requires Spells(doc, p, Words(drop, v) + rest, q)
    ensures ReadsBack(cfg, drop, doc, depth, v, rest, q, ReadValue(cfg, doc, depth, p, cur))
  {
    hide Spells, ReadToken, ScalarOutcome, IsDense, Quoted, IntText, Decimal;
    var w := Words(drop, v)[0];
    assert Words(drop, v) == Words(false, v) == [w];
    SpellsFirst(doc, p, w, rest, q);
    var t := ReadToken(doc, p);
    NextIsRead(cfg, doc, p);
    ScalarDecodes(cfg, doc, t, cur, v);
    assert ReadValue(cfg, doc, depth, p, cur) == ScalarOutcome(cfg, doc, t, cur);
  }

  /** A null that was not written is read without moving past the token that closes its place. */
  lemma DroppedNullReadsBack(cfg: Config, doc: Text, depth: nat, p: nat, cur: Value,
                             v: Value, rest: seq<Word>, q: nat)
    requires cfg.allowDropped && v.payload.Null? && depth <= cfg.stackLimit
    requires Spells(doc, p, rest, q) && Closes(rest)
    ensures ReadsBack(cfg, true, doc, depth, v, rest, q, ReadValue(cfg, doc, depth, p, cur))
  {
    hide ReadString, ReadNumber, ReadComment, Match;
    var t := ReadToken(doc, p);
    NextIsRead(cfg, doc, p);
    ReadTokenFromStart(doc, p);
    SpellsFromToken(doc, p, t.start, rest, q);
    assert ReadValue(cfg, doc, depth, p, cur) == Read(Value(Null, t.end - 2, t.end - 1), t.start);
  }

  lemma {:induction false} ValueReadsBack(cfg: Config, drop: bool, doc: Text, depth: nat, p: nat, cur: Value,
                                          v: Value, rest: seq<Word>, q: nat)
    requires IsDense(v) && Spells(doc, p, Words(drop, v) + rest, q)
    requires drop ==> cfg.allowDropped
    requires drop && v.payload.Null? ==> Closes(rest)
    ensures ReadsBack(cfg, drop, doc, depth, v, rest, q, ReadValue(cfg, doc, depth, p, cur))
    decreases v, 2
  {
    hide Spells, ReadToken, ReadMembers, ReadElements, ScalarOutcome, FromList, Equal;
    if depth > cfg.stackLimit {
    } else if drop && v.payload.Null? {
      assert Words(drop, v) + rest == rest;
      DroppedNullReadsBack(cfg, doc, depth, p, cur, v, rest, q);
    } else if !IsContainer(v) {
      ScalarReadsBack(cfg, drop, doc, depth, p, cur, v, rest, q);
    } else {
      ContainerUnfolds(drop, v, rest);
      var empty := if v.payload.Array? then Array([]) else Object([]);
      SpellsFirst(doc, p, BeginWord(v), FromList(drop, v, rest), q);
      var t := ReadToken(doc, p);
      NextIsRead(cfg, doc, p);
      ListReadsBackWhole(cfg, drop, doc, depth, t.end, Value(empty, t.start, cur.limit), v, rest, q);
    }
  }

  /** readArray or readObject, after the opening bracket. */
  function ReadList(cfg: Config, doc: Text, depth: nat, p: nat, c: Value): Outcome
    requires p <= |doc| && IsContainer(c)
  {
    if c.payload.Array? then Parsing.ReadArray(cfg, doc, depth, p, c) else ReadMembers(cfg, doc, depth, p, c, [])
  }

  lemma {:induction false} ListReadsBackWhole(cfg: Config, drop: bool, doc: Text, depth: nat, p: nat, c: Value,
                                              v: Value, rest: seq<Word>, q: nat)
    requires IsDense(v) && IsContainer(v) && (drop ==> cfg.allowDropped) && depth <= cfg.stackLimit
    requires IsContainer(c) && c.payload.Array? == v.payload.Array? && c.payload.entries == []
    requires Spells(doc, p, FromList(drop, v, rest), q)
    ensures ReadsBack(cfg, drop, doc, depth, v, rest, q, Limited(ReadList(cfg, doc, depth, p, c)))
    decreases v, 1
  {
    if v.payload.entries == [] || (drop && IsLoneNull(v)) {
      EmptyListReadsBack(cfg, drop, doc, depth, p, c, v, rest, q);
    } else {
      if v.payload.Array? {
        NoBracketFirst(drop, v, rest);
        BracketAhead(doc, p);
        var s := SkipSpaces(doc, p);
        SpellsFromToken(doc, p, s, FromEntry(drop, v, 0, rest), q);
        ElementsReadBack(cfg, drop, doc, depth, s, c, v, 0, rest, q);
        assert ReadList(cfg, doc, depth, p, c) == ReadElements(cfg, doc, depth, s, c, 0);
      } else {
        MembersReadBack(cfg, drop, doc, depth, p, c, [], v, 0, rest, q);
        assert ReadList(cfg, doc, depth, p, c) == ReadMembers(cfg, doc, depth, p, c, []);
      }
      WholeReadsBack(cfg, drop, doc, depth, v, rest, q, ReadList(cfg, doc, depth, p, c));
    }
  }

  lemma WholeReadsBack(cfg: Config, drop: bool, doc: Text, depth: nat, v: Value, rest: seq<Word>, q: nat, o: Outcome)
    requires IsContainer(v) && !(drop && IsLoneNull(v))
    requires ListReadsBack(cfg, drop, doc, depth, v, 0, rest, q, o)
    ensures ReadsBack(cfg, drop, doc, depth, v, rest, q, Limited(o))
  {
    if o.Read? {
      BuiltWhole(drop, o.value.(limit := o.pos), v);
    }
  }

  lemma EmptyListReadsBack(cfg: Config, drop: bool, doc: Text, depth: nat, p: nat, c: Value,
                           v: Value, rest: seq<Word>, q: nat)
    requires IsDense(v) && IsContainer(v) && depth <= cfg.stackLimit
    requires v.payload.entries == [] || (drop && IsLoneNull(v))
    requires IsContainer(c) && c.payload.Array? == v.payload.Array? && c.payload.entries == []
    requires Spells(doc, p, FromList(drop, v, rest), q)
    ensures ReadsBack(cfg, drop, doc, depth, v, rest, q, Limited(ReadList(cfg, doc, depth, p, c)))
  {
    hide Spells, ReadToken, ReadMembers, FromEntry, FromSeparator, IsDense;
    FromSeparatorUnfolds(drop, v, |v.payload.entries|, rest);
    if v.payload.entries != [] {
      LoneNullWords(drop, v, rest);
    }
    assert FromList(drop, v, rest) == [EndWord(v)] + rest;
    SpellsFirst(doc, p, EndWord(v), rest, q);
    EmptyListRead(cfg, doc, depth, p, c);
    assert ReadList(cfg, doc, depth, p, c) == Read(c, ReadToken(doc, p).end);
    assert Height(drop, v) == 0;
  }

  lemma LoneNullWords(drop: bool, v: Value, rest: seq<Word>)
    requires IsDense(v) && drop && IsLoneNull(v)
    ensures FromEntry(drop, v, 0, rest) == FromSeparator(drop, v, 1, rest)
  {
    hide FromSeparator;
  }

  /** A container closed at once is read as it is. */
  lemma EmptyListRead(cfg: Config, doc: Text, depth: nat, p: nat, c: Value)
    requires p <= |doc| && IsContainer(c)
    requires ReadToken(doc, p).kind == if c.payload.Array? then ArrayEnd else ObjectEnd
    ensures ReadList(cfg, doc, depth, p, c) == Read(c, ReadToken(doc, p).end)
  {
    hide Recover, ReadString, ReadNumber, ReadComment, Match;
    var t := ReadToken(doc, p);
    if c.payload.Object? {
      assert ReadName(doc, p, []) == NoMember(t.end);
      assert MemberRound(cfg, doc, depth, p, c, []) == Stop(Read(c, t.end));
    } else {
      assert doc[SkipSpaces(doc, p)] == RBRACKET;
    }
  }

  /** An array that has something to read does not start with a closing bracket. */
  lemma NoBracketFirst(drop: bool, v: Value, rest: seq<Word>)
    requires IsDense(v) && v.payload.Array? && v.payload.entries != [] && !(drop && IsLoneNull(v))
    ensures var ws := FromEntry(drop, v, 0, rest); ws != [] && ws[0].kind != ArrayEnd
  {
  }

  /** From one element and the ones after it to all of them. */
  lemma Combine(cfg: Config, drop: bool, doc: Text, depth: nat, v: Value, i: nat, rest: seq<Word>, q: nat,
                child: Outcome, o: Outcome)
    requires IsContainer(v) && i < |v.payload.entries|
    requires ReadsBack(cfg, drop, doc, depth + 1, v.payload.entries[i].value,
                       FromSeparator(drop, v, i + 1, rest), q, child)
    requires child.Threw? ==> o.Threw?
    requires child.Read? ==> ListReadsBack(cfg, drop, doc, depth, v, i + 1, rest, q, o)
    ensures ListReadsBack(cfg, drop, doc, depth, v, i, rest, q, o)
  {
  }

  lemma {:induction false} ElementsReadBack(cfg: Config, drop: bool, doc: Text, depth: nat, p: nat, arr: Value,
                                            v: Value, i: nat, rest: seq<Word>, q: nat)
    requires IsDense(v) && v.payload.Array? && (drop ==> cfg.allowDropped)
    requires i < |v.payload.entries| && BuiltUp(drop, arr, v, i) && depth <= cfg.stackLimit
    requires Spells(doc, p, FromEntry(drop, v, i, rest), q)
    ensures ListReadsBack(cfg, drop, doc, depth, v, i, rest, q, ReadElements(cfg, doc, depth, p, arr, i))
    decreases v, 0, |v.payload.entries| - i
  {
    var e := v.payload.entries[i];
    var after := FromSeparator(drop, v, i + 1, rest);
    FromSeparatorUnfolds(drop, v, i + 1, rest);
    assert FromEntry(drop, v, i, rest) == Words(drop, e.value) + after;
    ValueReadsBack(cfg, drop, doc, depth + 1, p, SlotOf(arr, Index(i)), e.value, after, q);
    var child := ReadValue(cfg, doc, depth + 1, p, SlotOf(arr, Index(i)));
    ElementStep(cfg, doc, depth, p, arr, i);
    if child.Read? {
      BuildOn(drop, arr, v, i, child.value);
      var t := ReadToken(doc, child.pos);
      if i + 1 < |v.payload.entries| {
        SpellsFirst(doc, child.pos, SEPARATOR, FromEntry(drop, v, i + 1, rest), q);
        ElementsReadBack(cfg, drop, doc, depth, t.end, WithEntry(arr, Index(i), child.value), v, i + 1, rest, q);
      } else {
        SpellsFirst(doc, child.pos, ARRAY_END, rest, q);
      }
    }
    Combine(cfg, drop, doc, depth, v, i, rest, q, child, ReadElements(cfg, doc, depth, p, arr, i));
  }

  /** A container that ends is all there. */
  lemma EndReadsBack(cfg: Config, drop: bool, doc: Text, depth: nat, v: Value, rest: seq<Word>, q: nat, c: Value,
                     p: nat)
    requires IsContainer(v) && BuiltUp(drop, c, v, |v.payload.entries|) && Spells(doc, p, rest, q)
    requires depth <= cfg.stackLimit
    ensures ListReadsBack(cfg, drop, doc, depth, v, |v.payload.entries|, rest, q, Read(c, p))
  {
    hide BuiltUp, Spells;
  }

  lemma {:induction false} MembersReadBack(cfg: Config, drop: bool, doc: Text, depth: nat, p: nat, obj: Value,
                                           previous: Text, v: Value, i: nat, rest: seq<Word>, q: nat)
    requires IsDense(v) && v.payload.Object? && (drop ==> cfg.allowDropped)
    requires i < |v.payload.entries| && BuiltUp(drop, obj, v, i) && depth <= cfg.stackLimit
    requires Spells(doc, p, FromEntry(drop, v, i, rest), q)
    ensures ListReadsBack(cfg, drop, doc, depth, v, i, rest, q, ReadMembers(cfg, doc, depth, p, obj, previous))
    decreases v, 0, |v.payload.entries| - i
  {
    hide Spells, ReadToken, ReadMembers, ReadValue, ReadName, WithEntry, FromSeparator, Words, ListReadsBack, Equal;
    var e := v.payload.entries[i];
    var name := e.key.name;
    var after := FromSeparator(drop, v, i + 1, rest);
    FromSeparatorUnfolds(drop, v, i + 1, rest);
    var m := NameReadsBack(doc, p, previous, name, Words(drop, e.value) + after, q);
    ValueReadsBack(cfg, drop, doc, depth + 1, m, SlotOf(obj, e.key), e.value, after, q);
    var child := ReadValue(cfg, doc, depth + 1, m, SlotOf(obj, e.key));
    MemberStep(cfg, doc, depth, p, obj, previous, name, m);
    if child.Read? {
      BuildOn(drop, obj, v, i, child.value);
      var t := ReadToken(doc, child.pos);
      if i + 1 < |v.payload.entries| {
        SpellsFirst(doc, child.pos, SEPARATOR, FromEntry(drop, v, i + 1, rest), q);
        MembersReadBack(cfg, drop, doc, depth, t.end, WithEntry(obj, e.key, child.value), name, v, i + 1, rest, q);
      } else {
        SpellsFirst(doc, child.pos, OBJECT_END, rest, q);
        EndReadsBack(cfg, drop, doc, depth, v, rest, q, WithEntry(obj, e.key, child.value), t.end);
      }
    }
    Combine(cfg, drop, doc, depth, v, i, rest, q, child, ReadMembers(cfg, doc, depth, p, obj, previous));
  }

  lemma NameReadsBack(doc: Text, p: nat, previous: Text, s: Text, rest: seq<Word>, q: nat) returns (m: nat)
    requires Spells(doc, p, KeyWords(Name(s)) + rest, q)
    ensures ReadName(doc, p, previous) == Named(s, m) && Spells(doc, m, rest, q)
  {
    var t := ReadToken(doc, p);
    assert KeyWords(Name(s)) + rest == [Word(StringToken, Quoted(s))] + ([NAME_SEPARATOR] + rest);
    SpellsFirst(doc, p, Word(StringToken, Quoted(s)), [NAME_SEPARATOR] + rest, q);
    SpellsFirst(doc, t.end, NAME_SEPARATOR, rest, q);
    DecodeQuoted(s);
    var colon := ReadToken(doc, t.end);
    m := colon.end;
  }
}
