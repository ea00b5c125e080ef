/** What may stand between two members, and before the closing brace: whole documents, by their tokens. */
module Separators {
  import opened Bytes
  import opened Values
  import opened Lexer
  import opened Decoding
  import opened Parsing
  import opened Numerals
  import opened Spelling
  import opened Grammar
  import opened Acceptance
  import opened Leniencies

  /** What readObject makes of the members so far and of what follows the last of them. */
  function Onward(cfg: Config, doc: Text, depth: nat, obj: Value, name: Text, s: SeparatorResult): Outcome
    requires obj.payload.Object? && s.pos <= |doc|
  {
    match s
    case Last(q) => Read(obj, q)
    case BadSeparator(q, e) => Failed(obj, q, e)
    case More(q) => ReadMembers(cfg, doc, depth, q, obj, name)
  }

  lemma MemberOnward(cfg: Config, doc: Text, depth: nat, p: nat, obj: Value, previous: Text, name: Text, m: nat)
    requires p <= |doc| && obj.payload.Object? && ReadName(doc, p, previous) == Named(name, m)
    requires ReadValue(cfg, doc, depth + 1, m, SlotOf(obj, Name(name))).Read?
    ensures var child := ReadValue(cfg, doc, depth + 1, m, SlotOf(obj, Name(name)));
            ReadMembers(cfg, doc, depth, p, obj, previous) ==
            Onward(cfg, doc, depth, WithEntry(obj, Name(name), child.value), name, AfterMember(doc, child.pos))
  {
    hide ReadValue, ReadName, AfterMember, Recover;
    var child := ReadChild(cfg, doc, depth, m, obj, Name(name), ObjectEnd);
    assert MemberRound(cfg, doc, depth, p, obj, previous) == MemberValue(cfg, doc, depth, m, obj, name);
    assert MemberValue(cfg, doc, depth, m, obj, name) == AfterChild(child.value, name, AfterMember(doc, child.pos));
  }

  /** The first `n` members, separated by commas, with `w` after the last of them. */
  function MembersThen(j: Syntax, n: nat, i: nat, w: Word, rest: seq<Word>): seq<Word>
    requires j.List? && i < n <= |j.items|
  {
    FromItem(ItemWords(j)[..n], w, i, rest)
  }

  lemma MembersThenUnfold(j: Syntax, n: nat, i: nat, w: Word, rest: seq<Word>)
    requires j.List? && !j.isArray && i < n <= |j.items|
    ensures var after := if i + 1 < n then [SEPARATOR] + MembersThen(j, n, i + 1, w, rest) else [w] + rest;
            MembersThen(j, n, i, w, rest) ==
            [Word(StringToken, j.items[i].name)] + ([NAME_SEPARATOR] + (SyntaxWords(j.items[i].value) + after))
  {
    hide FromComma;
    var parts, name, value := ItemWords(j)[..n], Word(StringToken, j.items[i].name), SyntaxWords(j.items[i].value);
    var after := FromComma(parts, w, i + 1, rest);
    FromCommaUnfolds(parts, w, i + 1, rest);
    assert NameWords(false, j.items[i]) == [name] + [NAME_SEPARATOR];
    Associate([name] + [NAME_SEPARATOR], value, after);
    Associate([name], [NAME_SEPARATOR], value + after);
  }

  /** All of the first `n` members are accepted, from the `i`th on. */
  predicate TakenUpTo(cfg: Config, j: Syntax, depth: nat, i: nat, n: nat)
    requires j.List? && n <= |j.items|
  {
    forall k | i <= k < n :: NoLoneHigh(j.items[k].name) && Accepts(cfg, j.items[k].value, depth + 1)
  }

  /** One member, with `after` spelled behind its value. */
  lemma OneMember(cfg: Config, doc: Text, depth: nat, p: nat, obj: Value, previous: Text, j: Syntax, i: nat,
                  after: seq<Word>, q: nat)
    returns (r: nat, whole: Value)
    requires WellFormed(j) && j.List? && !j.isArray && i < |j.items| && Holds(obj, j, i) && p <= |doc|
    requires obj.payload.Object?
    requires Spells(doc, p, [Word(StringToken, j.items[i].name)] +
                            ([NAME_SEPARATOR] + (SyntaxWords(j.items[i].value) + after)), q)
    ensures if NoLoneHigh(j.items[i].name) && Accepts(cfg, j.items[i].value, depth + 1) then
              && p < r <= |doc| && Spells(doc, r, after, q) && Holds(whole, j, i + 1) && whole.payload.Object?
              && ReadMembers(cfg, doc, depth, p, obj, previous) ==
                 Onward(cfg, doc, depth, whole, StringOf(j.items[i].name), AfterMember(doc, r))
            else !ReadMembers(cfg, doc, depth, p, obj, previous).Read?
  {
    hide Spells, ReadToken, ReadValue, ReadMembers, ReadName, Accepts, Meaning, Equal, Holds, StringOf, NoLoneHigh,
        SyntaxWords, WithEntry, Recover, AfterMember, Onward;
    var name, value := j.items[i].name, j.items[i].value;
    assert WellFormedItem(false, j.items[i]) && WellFormed(value);
    r, whole := p, obj;
    var m := NameAnswers(doc, p, previous, name, SyntaxWords(value) + after, q);
    if !NoLoneHigh(name) {
      NameStops(cfg, doc, depth, p, obj, previous);
    } else {
      var key := Name(StringOf(name));
      SyntaxAnswers(cfg, doc, depth + 1, m, SlotOf(obj, key), value, after, q);
      var child := ReadValue(cfg, doc, depth + 1, m, SlotOf(obj, key));
      if !child.Read? {
        MemberStops(cfg, doc, depth, p, obj, previous, StringOf(name), m);
      } else {
        HoldsOneMore(obj, j, i, child.value);
        MemberOnward(cfg, doc, depth, p, obj, previous, StringOf(name), m);
        r, whole := child.pos, WithEntry(obj, key, child.value);
        HoldsContainer(whole, j, i + 1);
      }
    }
  }

  /** The members are read as far as the last of them, and there what follows decides. */
  lemma {:induction false} ReadUpTo(cfg: Config, doc: Text, depth: nat, p: nat, obj: Value, previous: Text,
                                    j: Syntax, n: nat, i: nat, w: Word, rest: seq<Word>, q: nat)
    returns (r: nat, whole: Value)
    requires WellFormed(j) && j.List? && !j.isArray && i < n <= |j.items| && Holds(obj, j, i) && p <= |doc|
    requires Spells(doc, p, MembersThen(j, n, i, w, rest), q)
    ensures if TakenUpTo(cfg, j, depth, i, n) then
              && r <= |doc| && Spells(doc, r, [w] + rest, q) && Holds(whole, j, n)
              && ReadMembers(cfg, doc, depth, p, obj, previous) ==
                 Onward(cfg, doc, depth, whole, StringOf(j.items[n - 1].name), AfterMember(doc, r))
            else !ReadMembers(cfg, doc, depth, p, obj, previous).Read?
    decreases n - i
  {
    hide Spells, ReadToken, ReadMembers, Accepts, Holds, MembersThen, StringOf, NoLoneHigh, SyntaxWords, AfterMember,
        WellFormed;
    var after := if i + 1 < n then [SEPARATOR] + MembersThen(j, n, i + 1, w, rest) else [w] + rest;
    MembersThenUnfold(j, n, i, w, rest);
    HoldsContainer(obj, j, i);
    r, whole := OneMember(cfg, doc, depth, p, obj, previous, j, i, after, q);
    if NoLoneHigh(j.items[i].name) && Accepts(cfg, j.items[i].value, depth + 1) && i + 1 < n {
      SpellsFirst(doc, r, SEPARATOR, MembersThen(j, n, i + 1, w, rest), q);
      CommaGoesOn(doc, r);
      r, whole := ReadUpTo(cfg, doc, depth, ReadToken(doc, r).end, whole, StringOf(j.items[i].name), j, n, i + 1, w,
                           rest, q);
    }
  }

  lemma CommaGoesOn(doc: Text, p: nat)
    requires p <= |doc| && ReadToken(doc, p).kind == ArraySeparator
    ensures AfterMember(doc, p) == More(ReadToken(doc, p).end)
  {
    hide ReadToken, Recover;
  }

  predicate AllComments(ws: seq<Word>) {
    forall i | 0 <= i < |ws| :: ws[i].kind == Comment
  }

  lemma {:induction false} CommentsSkipped(doc: Text, p: nat, comments: seq<Word>, w: Word, rest: seq<Word>, q: nat)
    requires AllComments(comments) && w.kind != Comment && Spells(doc, p, comments + ([w] + rest), q)
    ensures p <= |doc| && SkipComments(doc, p).kind == w.kind && Spells(doc, SkipComments(doc, p).end, rest, q)
    ensures ReadToken(doc, p).kind == Comment <==> comments != []
    decreases |comments|
  {
    hide ReadToken, Spells;
    if comments == [] {
      assert comments + ([w] + rest) == [w] + rest;
      SpellsFirst(doc, p, w, rest, q);
    } else {
      assert comments + ([w] + rest) == [comments[0]] + (comments[1..] + ([w] + rest));
      SpellsFirst(doc, p, comments[0], comments[1..] + ([w] + rest), q);
      CommentsSkipped(doc, ReadToken(doc, p).end, comments[1..], w, rest, q);
    }
  }

  /** A comma, or after a comment any token but a closing brace. */
  lemma SeparatorTaken(doc: Text, p: nat, comments: seq<Word>, w: Word, rest: seq<Word>, q: nat)
    requires AllComments(comments) && w.kind !in {Comment, ObjectEnd} && Spells(doc, p, comments + ([w] + rest), q)
    ensures p <= |doc|
    ensures var s := AfterMember(doc, p);
            if comments != [] || w.kind == ArraySeparator then s.More? && Spells(doc, s.pos, rest, q)
            else s.BadSeparator?
  {
    hide ReadToken, Spells, Recover;
    CommentsSkipped(doc, p, comments, w, rest, q);
  }

  /** A document that opens an object is what readObject makes of it. */
  lemma ObjectRoot(cfg: Config, doc: Text, rest: seq<Word>, q: nat, root0: Value)
    requires Spells(doc, 0, [OBJECT_BEGIN] + rest, q)
    ensures var t := ReadToken(doc, 0);
            && Spells(doc, t.end, rest, q)
            && ReadValue(cfg, doc, 1, 0, root0) ==
               if 1 > cfg.stackLimit then Threw
               else Limited(ReadMembers(cfg, doc, 1, t.end, Value(Object([]), t.start, root0.limit), []))
  {
    hide ReadToken, Spells, ReadMembers;
    SpellsFirst(doc, 0, OBJECT_BEGIN, rest, q);
    NextIsRead(cfg, doc, 0);
  }

  /** Parsing gives the object, or it fails. */
  predicate Gives(cfg: Config, doc: Text, root0: Value, j: Syntax, accepted: bool) {
    var r := Parse(cfg, doc, root0);
    (r.Parsed? && r.ok <==> accepted) && (accepted ==> Equal(r.root, Meaning(j)))
  }

  lemma RootGives(cfg: Config, doc: Text, root0: Value, j: Syntax, o: Outcome, accepted: bool)
    requires j.List? && !j.isArray && ReadValue(cfg, doc, 1, 0, root0) == Limited(o)
    requires if accepted then o.Read? && Holds(o.value, j, |j.items|) else !o.Read?
    ensures Gives(cfg, doc, root0, j, accepted)
  {
    hide Holds, Meaning, Equal, ReadValue;
    if accepted {
      HoldsContainer(o.value, j, |j.items|);
      HoldsAll(o.value, j, o.pos);
    }
  }

  /** Comments and a token `w` between two members of an object: it is accepted exactly if its members are, and either
      there is a comment or `w` is a comma. */
  lemma CommaMissingExactly(cfg: Config, doc: Text, j: Syntax, n: nat, comments: seq<Word>, w: Word, q: nat,
                            root0: Value)
    requires WellFormed(j) && j.List? && !j.isArray && 0 < n < |j.items|
    requires AllComments(comments) && w.kind !in {Comment, ObjectEnd}
    requires var between := comments + [w];
             var rest := FromItem(ItemWords(j), OBJECT_END, n, []);
             Spells(doc, 0, [OBJECT_BEGIN] + MembersThen(j, n, 0, between[0], between[1..] + rest), q)
    ensures Gives(cfg, doc, root0, j, Accepts(cfg, j, 1) && (comments != [] || w.kind == ArraySeparator))
  {
    hide ReadToken, Spells, ReadMembers, ReadValue, Recover, Meaning, Equal, Holds, MembersThen, ItemWords, FromItem,
        Accepts, NoLoneHigh, StringOf, Gives;
    var between, rest := comments + [w], FromItem(ItemWords(j), OBJECT_END, n, []);
    ObjectRoot(cfg, doc, MembersThen(j, n, 0, between[0], between[1..] + rest), q, root0);
    AcceptsAre(cfg, j, n);
    if 1 <= cfg.stackLimit {
      var t := ReadToken(doc, 0);
      var obj := Value(Object([]), t.start, root0.limit);
      NothingHeld(obj, j);
      var r, whole := ReadUpTo(cfg, doc, 1, t.end, obj, [], j, n, 0, between[0], between[1..] + rest, q);
      var o := ReadMembers(cfg, doc, 1, t.end, obj, []);
      if TakenUpTo(cfg, j, 1, 0, n) {
        assert [between[0]] + (between[1..] + rest) == comments + ([w] + rest);
        SeparatorTaken(doc, r, comments, w, rest, q);
        HoldsContainer(whole, j, n);
        var s := AfterMember(doc, r);
        if s.More? {
          MembersAnswer(cfg, doc, 1, s.pos, whole, StringOf(j.items[n - 1].name), j, n, [], q);
        }
      }
      RootGives(cfg, doc, root0, j, o, Accepts(cfg, j, 1) && (comments != [] || w.kind == ArraySeparator));
    } else {
      RefusedAtOnce(cfg, doc, root0, j);
    }
  }

  lemma AcceptsAre(cfg: Config, j: Syntax, n: nat)
    requires j.List? && !j.isArray && n <= |j.items|
    ensures Accepts(cfg, j, 1) <==> 1 <= cfg.stackLimit && TakenUpTo(cfg, j, 1, 0, n) && ItemsAccepted(cfg, j, 1, n)
  {
    hide NoLoneHigh;
  }

  lemma NothingHeld(c: Value, j: Syntax)
    requires j.List? && !j.isArray && c.payload == Object([])
    ensures Holds(c, j, 0)
  {
  }

  lemma RefusedAtOnce(cfg: Config, doc: Text, root0: Value, j: Syntax)
    requires ReadValue(cfg, doc, 1, 0, root0).Threw?
    ensures Gives(cfg, doc, root0, j, false)
  {
    hide ReadValue;
  }

  lemma BraceLeft(doc: Text, p: nat, q: nat)
    requires Spells(doc, p, [OBJECT_END], q)
    ensures p <= |doc| && SkipComments(doc, p).kind == ObjectEnd
  {
    hide ReadToken, Spells;
    assert [OBJECT_END] + [] == [OBJECT_END];
    SpellsFirst(doc, p, OBJECT_END, [], q);
  }

  /** A comma after the last member: the object is accepted exactly if its members are and the name of the last one is
      empty. */
  lemma TrailingCommaExactly(cfg: Config, doc: Text, j: Syntax, q: nat, root0: Value)
    requires WellFormed(j) && j.List? && !j.isArray && j.items != []
    requires Spells(doc, 0, [OBJECT_BEGIN] + MembersThen(j, |j.items|, 0, SEPARATOR, [OBJECT_END]), q)
    ensures Gives(cfg, doc, root0, j, Accepts(cfg, j, 1) && StringOf(j.items[|j.items| - 1].name) == [])
  {
    hide ReadToken, Spells, ReadMembers, ReadValue, Recover, Meaning, Equal, Holds, MembersThen, Accepts, NoLoneHigh,
        StringOf, Gives;
    var n := |j.items|;
    var last := StringOf(j.items[n - 1].name);
    ObjectRoot(cfg, doc, MembersThen(j, n, 0, SEPARATOR, [OBJECT_END]), q, root0);
    AcceptsAre(cfg, j, n);
    if 1 <= cfg.stackLimit {
      var t := ReadToken(doc, 0);
      var obj := Value(Object([]), t.start, root0.limit);
      NothingHeld(obj, j);
      var r, whole := ReadUpTo(cfg, doc, 1, t.end, obj, [], j, n, 0, SEPARATOR, [OBJECT_END], q);
      var o := ReadMembers(cfg, doc, 1, t.end, obj, []);
      if TakenUpTo(cfg, j, 1, 0, n) {
        SpellsFirst(doc, r, SEPARATOR, [OBJECT_END], q);
        CommaGoesOn(doc, r);
        HoldsContainer(whole, j, n);
        var p := AfterMember(doc, r).pos;
        BraceLeft(doc, p, q);
        BraceForName(cfg, doc, 1, p, whole, last);
      }
      RootGives(cfg, doc, root0, j, o, Accepts(cfg, j, 1) && last == []);
    } else {
      RefusedAtOnce(cfg, doc, root0, j);
    }
  }

  // ---- two such documents ----

  /** `{"":1,}` */
  const TRAILING_COMMA: Text := [LBRACE, QUOTE, QUOTE, COLON, 0x31, COMMA, RBRACE]

  /** `{"a":1/**/:"b":2}` in bytes. */
  const COLON_FOR_COMMA: Text :=
    [LBRACE, QUOTE, 0x61, QUOTE, COLON, 0x31, SLASH, STAR, STAR, SLASH, COLON, QUOTE, 0x62, QUOTE, COLON, 0x32, RBRACE]

  /** A member whose value is one digit. */
  lemma DigitMember(cfg: Config, doc: Text, p: nat, obj: Value, previous: Text, name: Text, m: nat, d: nat)
    requires p <= |doc| && obj.payload.Object? && ReadName(doc, p, previous) == Named(name, m) && 2 <= cfg.stackLimit
    requires m < |doc| && d < 10 && doc[m] == ZERO + d && ReadToken(doc, m) == Token(NumberToken, m, m + 1)
    ensures ReadMembers(cfg, doc, 1, p, obj, previous) ==
            Onward(cfg, doc, 1, WithEntry(obj, Name(name), Value(Int(d), m, m + 1)), name, AfterMember(doc, m + 1))
  {
    hide ReadToken, ReadValue, ReadName, ReadMembers, AfterMember;
    DigitAt(cfg, doc, 2, m, d, SlotOf(obj, Name(name)));
    MemberOnward(cfg, doc, 1, p, obj, previous, name, m);
  }

  lemma DigitAt(cfg: Config, doc: Text, depth: nat, p: nat, d: nat, cur: Value)
    requires p < |doc| && d < 10 && doc[p] == ZERO + d
    requires ReadToken(doc, p) == Token(NumberToken, p, p + 1) && depth <= cfg.stackLimit
    ensures ReadValue(cfg, doc, depth, p, cur) == Read(Value(Int(d), p, p + 1), p + 1)
  {
    hide ReadToken;
    NextIsRead(cfg, doc, p);
    assert Lexeme(doc, Token(NumberToken, p, p + 1)) == [ZERO + d];
    DecodeIntegerExact([ZERO + d]);
    assert Denoted([ZERO + d], 0, 0) == d;
  }

  lemma NameAt(doc: Text, p: nat, t: Token, m: nat, previous: Text, name: Text)
    requires p <= |doc| && ReadToken(doc, p) == t && t.kind == StringToken
    requires DecodeString(Lexeme(doc, t)) == Bytes(name)
    requires ReadToken(doc, t.end).kind == MemberSeparator && ReadToken(doc, t.end).end == m
    ensures ReadName(doc, p, previous) == Named(name, m)
  {
  }

  lemma TrailingTokens()
    ensures var doc := TRAILING_COMMA;
            && ReadToken(doc, 0) == Token(ObjectBegin, 0, 1) && ReadToken(doc, 1) == Token(StringToken, 1, 3)
            && ReadToken(doc, 3) == Token(MemberSeparator, 3, 4) && ReadToken(doc, 4) == Token(NumberToken, 4, 5)
            && ReadToken(doc, 5) == Token(ArraySeparator, 5, 6) && ReadToken(doc, 6) == Token(ObjectEnd, 6, 7)
            && DecodeString(Lexeme(doc, Token(StringToken, 1, 3))) == Bytes([])
  {
  }

  lemma TrailingCommaAccepted(cfg: Config, root: Value)
    requires 2 <= cfg.stackLimit
    ensures Parse(cfg, TRAILING_COMMA, root) ==
            Parsed(true, Value(Object([Entry(Name([]), Value(Int(1), 4, 5))]), 0, 7), [])
  {
    hide ReadToken, DecodeString, Recover, ReadMembers, ReadName;
    var doc, obj := TRAILING_COMMA, Value(Object([]), 0, root.limit);
    var whole := Value(Object([Entry(Name([]), Value(Int(1), 4, 5))]), 0, root.limit);
    TrailingTokens();
    NameAt(doc, 1, Token(StringToken, 1, 3), 4, [], []);
    DigitMember(cfg, doc, 1, obj, [], [], 4, 1);
    PutAfter([], Name([]), Value(Int(1), 4, 5));
    CommaGoesOn(doc, 5);
    BraceForName(cfg, doc, 1, 6, whole, []);
    assert ReadMembers(cfg, doc, 1, 1, obj, []) == Read(whole, 7);
    NextIsRead(cfg, doc, 0);
  }

  lemma ColonNames()
    ensures Lexeme(COLON_FOR_COMMA, Token(StringToken, 1, 4)) == [QUOTE, 0x61, QUOTE]
    ensures Lexeme(COLON_FOR_COMMA, Token(StringToken, 11, 14)) == [QUOTE, 0x62, QUOTE]
  {
  }

  lemma OneByteName(c: Byte)
    requires c != QUOTE && c != BACKSLASH
    ensures DecodeString([QUOTE, c, QUOTE]) == Bytes([c])
  {
    var t: Text := [QUOTE, c, QUOTE];
    assert DecodeChars(t, 2, 2) == Bytes([]);
  }

  lemma ColonStrings()
    ensures ReadToken(COLON_FOR_COMMA, 1) == Token(StringToken, 1, 4)
    ensures ReadToken(COLON_FOR_COMMA, 11) == Token(StringToken, 11, 14)
  {
    var doc := COLON_FOR_COMMA;
    assert ReadString(doc, 3) == Scan(true, 4);
    assert ReadString(doc, 13) == Scan(true, 14);
  }

  lemma ColonComment()
    ensures ReadToken(COLON_FOR_COMMA, 6) == Token(Comment, 6, 10)
  {
  }

  lemma ColonDigits()
    ensures ReadToken(COLON_FOR_COMMA, 5) == Token(NumberToken, 5, 6)
    ensures ReadToken(COLON_FOR_COMMA, 15) == Token(NumberToken, 15, 16)
  {
    hide ReadString, ReadComment, Match;
    assert ScanDigits(COLON_FOR_COMMA, 6) == 6;
    assert ScanDigits(COLON_FOR_COMMA, 16) == 16;
  }

  lemma ColonTokens()
    ensures var doc := COLON_FOR_COMMA;
            && ReadToken(doc, 0) == Token(ObjectBegin, 0, 1) && ReadToken(doc, 4) == Token(MemberSeparator, 4, 5)
            && ReadToken(doc, 10) == Token(MemberSeparator, 10, 11)
            && ReadToken(doc, 14) == Token(MemberSeparator, 14, 15) && ReadToken(doc, 16) == Token(ObjectEnd, 16, 17)
  {
    hide ReadString, ReadComment, Match, ReadNumber;
  }

  lemma SecondMember(cfg: Config, first: Value, both: Value)
    requires first.payload.Object? && 2 <= cfg.stackLimit
    requires var b: Text := [0x62]; both == WithEntry(first, Name(b), Value(Int(2), 15, 16))
    ensures ReadMembers(cfg, COLON_FOR_COMMA, 1, 11, first, [0x61]) == Read(both, 17)
  {
    hide ReadToken, DecodeString, Recover, ReadMembers, ReadName, WithEntry;
    var doc := COLON_FOR_COMMA;
    ColonTokens();
    ColonDigits();
    ColonStrings();
    ColonNames();
    OneByteName(0x62);
    NameAt(doc, 11, Token(StringToken, 11, 14), 15, [0x61], [0x62]);
    DigitMember(cfg, doc, 11, first, [0x61], [0x62], 15, 2);
    assert AfterMember(doc, 16) == Last(17);
  }

  lemma ColonForCommaAccepted(cfg: Config, root: Value)
    requires 2 <= cfg.stackLimit
    ensures var a, b: Text := [0x61], [0x62];
            var both := [Entry(Name(a), Value(Int(1), 5, 6)), Entry(Name(b), Value(Int(2), 15, 16))];
            Parse(cfg, COLON_FOR_COMMA, root) == Parsed(true, Value(Object(both), 0, 17), [])
  {
    hide ReadToken, DecodeString, Recover, ReadMembers, ReadName, WithEntry;
    var doc := COLON_FOR_COMMA;
    var a, b: Text := [0x61], [0x62];
    var obj := Value(Object([]), 0, root.limit);
    var first := Value(Object([Entry(Name(a), Value(Int(1), 5, 6))]), 0, root.limit);
    var both := Value(Object([Entry(Name(a), Value(Int(1), 5, 6)), Entry(Name(b), Value(Int(2), 15, 16))]), 0,
                      root.limit);
    ColonTokens();
    ColonDigits();
    ColonStrings();
    ColonComment();
    ColonNames();
    OneByteName(0x61);
    NameAt(doc, 1, Token(StringToken, 1, 4), 5, [], a);
    DigitMember(cfg, doc, 1, obj, [], a, 5, 1);
    FirstPut(root.limit);
    assert SkipComments(doc, 10) == ReadToken(doc, 10);
    assert AfterMember(doc, 6) == More(11);
    SecondMember(cfg, first, both);
    assert ReadMembers(cfg, doc, 1, 1, obj, []) == Read(both, 17);
    NextIsRead(cfg, doc, 0);
  }

  /** The two members, stored one after the other. */
  lemma FirstPut(limit: int)
    ensures var a, b: Text := [0x61], [0x62];
            var e, f := Entry(Name(a), Value(Int(1), 5, 6)), Entry(Name(b), Value(Int(2), 15, 16));
            && WithEntry(Value(Object([]), 0, limit), e.key, e.value) == Value(Object([e]), 0, limit)
            && WithEntry(Value(Object([e]), 0, limit), f.key, f.value) == Value(Object([e, f]), 0, limit)
  {
    var a, b: Text := [0x61], [0x62];
    var e, f := Entry(Name(a), Value(Int(1), 5, 6)), Entry(Name(b), Value(Int(2), 15, 16));
    PutAfter([], e.key, e.value);
    PutAfter([e], f.key, f.value);
  }

  lemma PutAfter(es: seq<Entry>, k: Key, v: Value)
    requires |es| <= 1 && forall i | 0 <= i < |es| :: KeyLess(es[i].key, k)
    ensures Put(es, k, v) == if es == [] then [Entry(k, v)] else [es[0], Entry(k, v)]
  {
    if es != [] {
      assert LowerBound(es, k) == 1 + LowerBound([], k);
    }
  }
}
