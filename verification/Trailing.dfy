/** Parsing stops after the root: what follows it in the document makes no difference. */
module Trailing {
  import opened Bytes
  import opened Values
  import opened Lexer
  import opened Decoding
  import opened Parsing
  import opened Rendering
  import opened Locality
  import opened Slices
  import opened SliceLaw

  /** The two documents are the same up to `n`. */
  predicate Agree(d: Text, e: Text, n: nat) {
    n <= |d| && n <= |e| && d[..n] == e[..n]
  }

  lemma AgreeAt(d: Text, e: Text, n: nat, i: nat)
    requires Agree(d, e, n) && i < n
    ensures d[i] == e[i]
  {
    assert d[i] == d[..n][i] && e[i] == e[..n][i];
  }

  lemma AgreeSlice(d: Text, e: Text, n: nat, a: nat, b: nat)
    requires Agree(d, e, n) && a <= b <= n
    ensures d[a..b] == e[a..b]
  {
    assert d[a..b] == d[..n][a..b] && e[a..b] == e[..n][a..b];
  }

  // ---- scanning ----

  lemma {:induction false} SpacesAgree(d: Text, e: Text, n: nat, p: nat)
    requires Agree(d, e, n) && p <= |d| && SkipSpaces(d, p) < n
    ensures SkipSpaces(e, p) == SkipSpaces(d, p)
    decreases n - p
  {
    AgreeAt(d, e, n, p);
    if IsSpace(d[p]) {
      SpacesAgree(d, e, n, p + 1);
    }
  }

  /** A number that reaches the end of the common part must not go on there. */
  predicate NumberStops(e: Text, q: nat, n: nat) {
    q < n || (q == n && EndsNumber(e, n))
  }

  lemma {:induction false} DigitsAgree(d: Text, e: Text, n: nat, p: nat)
    requires Agree(d, e, n) && p <= |d| && NumberStops(e, ScanDigits(d, p), n)
    ensures ScanDigits(e, p) == ScanDigits(d, p)
    decreases n - p
  {
    if p < n {
      AgreeAt(d, e, n, p);
      if IsDigit(d[p]) {
        DigitsAgree(d, e, n, p + 1);
      }
    }
  }

  lemma FractionAgrees(d: Text, e: Text, n: nat, p: nat)
    requires Agree(d, e, n) && p <= |d| && NumberStops(e, ScanFraction(d, p), n)
    ensures ScanFraction(e, p) == ScanFraction(d, p)
  {
    if p < n {
      AgreeAt(d, e, n, p);
      if d[p] == DOT {
        DigitsAgree(d, e, n, p + 1);
      }
    }
  }

  lemma ExponentAgrees(d: Text, e: Text, n: nat, p: nat)
    requires Agree(d, e, n) && p <= |d| && NumberStops(e, ScanExponent(d, p), n)
    requires p + 1 == n && IsExponentMark(d[p]) ==> n < |e| ==> !IsSign(e[n])
    ensures ScanExponent(e, p) == ScanExponent(d, p)
  {
    if p < n {
      AgreeAt(d, e, n, p);
      if IsExponentMark(d[p]) {
        if p + 1 < n {
          AgreeAt(d, e, n, p + 1);
        }
        DigitsAgree(d, e, n, if p + 1 < |d| && IsSign(d[p + 1]) then p + 2 else p + 1);
      }
    }
  }

  /** After an exponent mark at the very end a sign would go on. */
  predicate MarkStops(d: Text, e: Text, n: nat)
    requires n <= |d|
  {
    n > 0 && IsExponentMark(d[n - 1]) && n < |e| ==> !IsSign(e[n])
  }

  lemma NumberAgrees(d: Text, e: Text, n: nat, p: nat)
    requires Agree(d, e, n) && p <= |d| && NumberStops(e, ReadNumber(d, p), n) && MarkStops(d, e, n)
    ensures ReadNumber(e, p) == ReadNumber(d, p)
  {
    hide ScanDigits, ScanFraction, ScanExponent;
    var a := ScanDigits(d, p);
    var b := ScanFraction(d, a);
    assert a <= b <= ScanExponent(d, b) == ReadNumber(d, p);
    DigitsAgree(d, e, n, p);
    FractionAgrees(d, e, n, a);
    ExponentAgrees(d, e, n, b);
  }

  lemma {:induction false} StringAgrees(d: Text, e: Text, n: nat, p: nat)
    requires Agree(d, e, n) && p <= |d| && ReadString(d, p).ok && ReadString(d, p).pos <= n
    ensures ReadString(e, p) == ReadString(d, p)
    decreases n - p
  {
    AgreeAt(d, e, n, p);
    if d[p] == BACKSLASH {
      StringAgrees(d, e, n, if p + 1 < |d| then p + 2 else p + 1);
    } else if d[p] != QUOTE {
      StringAgrees(d, e, n, p + 1);
    }
  }

  lemma {:induction false} CStyleAgrees(d: Text, e: Text, n: nat, p: nat)
    requires Agree(d, e, n) && p <= |d| && ReadCStyleComment(d, p).pos < n
    ensures ReadCStyleComment(e, p) == ReadCStyleComment(d, p)
    decreases n - p
  {
    AgreeAt(d, e, n, p);
    if p + 1 < n {
      AgreeAt(d, e, n, p + 1);
      if !(d[p] == STAR && d[p + 1] == SLASH) {
        CStyleAgrees(d, e, n, p + 1);
      }
    }
  }

  lemma {:induction false} CppStyleAgrees(d: Text, e: Text, n: nat, p: nat)
    requires Agree(d, e, n) && p <= |d| && ReadCppStyleComment(d, p) < n
    ensures ReadCppStyleComment(e, p) == ReadCppStyleComment(d, p)
    decreases n - p
  {
    AgreeAt(d, e, n, p);
    if p + 1 < n {
      AgreeAt(d, e, n, p + 1);
    }
    if d[p] != LF && d[p] != CR {
      CppStyleAgrees(d, e, n, p + 1);
    }
  }

  lemma CommentAgrees(d: Text, e: Text, n: nat, p: nat)
    requires Agree(d, e, n) && p <= |d| && ReadComment(d, p).pos < n
    ensures ReadComment(e, p) == ReadComment(d, p)
  {
    AgreeAt(d, e, n, p);
    if d[p] == STAR {
      CStyleAgrees(d, e, n, p + 1);
    } else if d[p] == SLASH {
      CppStyleAgrees(d, e, n, p + 1);
    }
  }

  predicate IsCloser(b: Byte) {
    b == RBRACKET || b == RBRACE
  }

  /** The common part ends with a closing bracket. */
  predicate EndsClosed(d: Text, n: nat) {
    0 < n <= |d| && IsCloser(d[n - 1])
  }

  /** A literal has no closing bracket, so it is not completed past one. */
  lemma MatchAgrees(d: Text, e: Text, n: nat, p: nat, pattern: Text)
    requires Agree(d, e, n) && p < n && Match(d, p, pattern).pos <= n
    requires !Match(d, p, pattern).ok ==> EndsClosed(d, n)
    requires forall i | 0 <= i < |pattern| :: !IsCloser(pattern[i])
    ensures Match(e, p, pattern) == Match(d, p, pattern)
  {
    if p + |pattern| <= n {
      AgreeSlice(d, e, n, p, p + |pattern|);
    } else {
      AgreeAt(d, e, n, n - 1);
      NotTextAt(e, p, pattern, n - 1 - p);
    }
  }

  lemma NotTextAt(e: Text, p: nat, t: Text, i: nat)
    requires i < |t| && p + i < |e| && e[p + i] != t[i]
    ensures !TextAt(e, p, t)
  {
    if p + |t| <= |e| {
      assert e[p..p + |t|][i] == e[p + i];
    }
  }

  /** The token ends inside the common part, or is the closing bracket that ends it. */
  predicate TokenIn(t: Token, n: nat) {
    t.end < n || (t.kind in {ObjectEnd, ArrayEnd} && t.end <= n)
  }

  predicate IsLiteralStart(c: Byte) {
    c == 0x74 || c == 0x66 || c == 0x6E
  }

  lemma LiteralAgrees(d: Text, e: Text, n: nat, s: nat)
    requires Agree(d, e, n) && s + 1 < n && IsLiteralStart(d[s]) && TokenAt(d, s).end <= n
    requires TokenAt(d, s).kind == ErrorToken ==> EndsClosed(d, n)
    ensures TokenAt(e, s) == TokenAt(d, s)
  {
    hide Match;
    AgreeAt(d, e, n, s);
    var rest := if d[s] == 0x74 then TRUE_TEXT[1..] else if d[s] == 0x66 then FALSE_TEXT[1..] else NULL_TEXT[1..];
    MatchAgrees(d, e, n, s + 1, rest);
  }

  lemma TokenAgrees(d: Text, e: Text, n: nat, s: nat)
    requires Agree(d, e, n) && s < n && EndsClosed(d, n) && TokenIn(TokenAt(d, s), n)
    ensures TokenAt(e, s) == TokenAt(d, s)
  {
    hide ReadString, ReadComment, ReadNumber, Match;
    AgreeAt(d, e, n, s);
    if d[s] == QUOTE {
      StringClosed(d, s + 1, n);
      StringAgrees(d, e, n, s + 1);
    } else if d[s] == SLASH {
      CommentAgrees(d, e, n, s + 1);
    } else if IsDigit(d[s]) || d[s] == MINUS {
      NumberAgrees(d, e, n, s + 1);
    } else if IsLiteralStart(d[s]) {
      LiteralAgrees(d, e, n, s);
    }
  }

  /** A string that does not close goes to the end of the document. */
  lemma StringClosed(d: Text, p: nat, n: nat)
    requires p <= |d| && n <= |d| && ReadString(d, p).pos < n
    ensures ReadString(d, p).ok
  {
    hide ReadString;
  }

  lemma ReadTokenAgrees(d: Text, e: Text, n: nat, p: nat)
    requires Agree(d, e, n) && p <= |d| && EndsClosed(d, n) && TokenIn(ReadToken(d, p), n)
    ensures ReadToken(e, p) == ReadToken(d, p)
  {
    hide SkipSpaces, TokenAt;
    var s := SkipSpaces(d, p);
    SpacesAgree(d, e, n, p);
    TokenAgrees(d, e, n, s);
  }

  lemma {:induction false} SkipCommentsAgrees(d: Text, e: Text, n: nat, p: nat)
    requires Agree(d, e, n) && p <= |d| && EndsClosed(d, n) && TokenIn(SkipComments(d, p), n)
    ensures SkipComments(e, p) == SkipComments(d, p)
    ensures TokenIn(ReadToken(d, p), n)
    decreases |d| - p
  {
    hide ReadToken;
    var t := ReadToken(d, p);
    if t.kind == Comment {
      CommentBefore(d, p);
      ReadTokenAgrees(d, e, n, p);
      SkipCommentsAgrees(d, e, n, t.end);
    } else {
      ReadTokenAgrees(d, e, n, p);
    }
  }

  lemma CommentBefore(d: Text, p: nat)
    requires p <= |d| && ReadToken(d, p).kind == Comment
    ensures ReadToken(d, p).end <= SkipComments(d, p).start
    ensures SkipComments(d, p).kind in {ObjectEnd, ArrayEnd} ==> ReadToken(d, p).end < SkipComments(d, p).end
  {
    hide ReadToken;
    var t, u := ReadToken(d, p), SkipComments(d, ReadToken(d, p).end);
    assert u.kind in {ObjectEnd, ArrayEnd} ==> u.start < u.end by { ClosingToken(d, u); }
  }

  lemma ClosingToken(d: Text, t: Token)
    requires t.start <= |d| && ReadToken(d, t.start) == t
    ensures t.kind in {ObjectEnd, ArrayEnd} ==> t.start < t.end
  {
  }

  lemma NextTokenAgrees(cfg: Config, d: Text, e: Text, n: nat, p: nat)
    requires Agree(d, e, n) && p <= |d| && EndsClosed(d, n) && TokenIn(NextToken(cfg, d, p), n)
    ensures NextToken(cfg, e, p) == NextToken(cfg, d, p)
  {
    hide ReadToken, SkipComments;
    if cfg.allowComments {
      SkipCommentsAgrees(d, e, n, p);
    } else {
      ReadTokenAgrees(d, e, n, p);
    }
  }

  // ---- parsing ----

  lemma ReadNameAgrees(d: Text, e: Text, n: nat, p: nat, previous: Text)
    requires Agree(d, e, n) && p <= |d| && EndsClosed(d, n) && !ReadName(d, p, previous).BadName?
    requires ReadName(d, p, previous).pos <= n && (ReadName(d, p, previous).Named? ==> ReadName(d, p, previous).pos < n)
    ensures Parsing.ReadName(e, p, previous) == ReadName(d, p, previous)
  {
    hide ReadToken, SkipComments, DecodeString, Recover;
    var t := SkipComments(d, p);
    SkipCommentsAgrees(d, e, n, p);
    if t.kind == StringToken {
      ReadTokenAgrees(d, e, n, t.end);
      AgreeSlice(d, e, n, t.start, t.end);
    }
  }

  /** The place after a separator that was accepted. */
  predicate SeparatorIn(s: SeparatorResult, n: nat) {
    !s.BadSeparator? && s.pos <= n && (s.More? ==> s.pos < n)
  }

  lemma AfterMemberAgrees(d: Text, e: Text, n: nat, p: nat)
    requires Agree(d, e, n) && p <= |d| && EndsClosed(d, n) && SeparatorIn(AfterMember(d, p), n)
    ensures AfterMember(e, p) == AfterMember(d, p) && TokenIn(SkipComments(d, p), n)
  {
    hide ReadToken, SkipComments, Recover;
    SkipCommentsAgrees(d, e, n, p);
    ReadTokenAgrees(d, e, n, p);
  }

  lemma AfterElementAgrees(d: Text, e: Text, n: nat, p: nat)
    requires Agree(d, e, n) && p <= |d| && EndsClosed(d, n) && SeparatorIn(AfterElement(d, p), n)
    ensures AfterElement(e, p) == AfterElement(d, p) && TokenIn(SkipComments(d, p), n)
  {
    hide ReadToken, SkipComments, Recover;
    SkipCommentsAgrees(d, e, n, p);
  }

  lemma ScalarAgrees(cfg: Config, d: Text, e: Text, n: nat, t: Token, cur: Value)
    requires Agree(d, e, n) && t.start <= t.end <= n && (t.kind == StringToken ==> t.start + 2 <= t.end)
    requires t.kind != EndOfStream ==> t.start < t.end
    ensures ScalarOutcome(cfg, e, t, cur) == ScalarOutcome(cfg, d, t, cur)
  {
    hide DecodeString, DecodeInteger;
    AgreeSlice(d, e, n, t.start, t.end);
  }

  lemma {:induction false} ValueAgrees(cfg: Config, d: Text, e: Text, n: nat, depth: nat, p: nat, cur: Value)
    requires Agree(d, e, n) && p <= |d| && EndsClosed(d, n) && TokenIn(NextToken(cfg, d, p), n)
    requires ReadValue(cfg, d, depth, p, cur).Read? && ReadValue(cfg, d, depth, p, cur).pos <= n
    ensures p <= |e| && ReadValue(cfg, e, depth, p, cur) == ReadValue(cfg, d, depth, p, cur)
    decreases |d| - p, 0
  {
    hide NextToken, ScalarOutcome, ReadMembers, ReadElements, SkipSpaces;
    var t := NextToken(cfg, d, p);
    NextTokenAgrees(cfg, d, e, n, p);
    if t.kind == ObjectBegin {
      MembersAgree(cfg, d, e, n, depth, t.end, Value(Object([]), t.start, cur.limit), []);
    } else if t.kind == ArrayBegin {
      var s, arr := SkipSpaces(d, t.end), Value(Array([]), t.start, cur.limit);
      ArraySpaces(cfg, d, depth, t.end, arr, n);
      SpacesAgree(d, e, n, t.end);
      AgreeAt(d, e, n, s);
      if d[s] != RBRACKET {
        ElementsAgree(cfg, d, e, n, depth, s, arr, 0);
      }
    } else {
      ScalarAgrees(cfg, d, e, n, t, cur);
    }
  }

  /** An array goes on after the white space that follows its bracket. */
  lemma ArraySpaces(cfg: Config, d: Text, depth: nat, p: nat, arr: Value, n: nat)
    requires p <= |d| && arr.payload.Array? && Parsing.ReadArray(cfg, d, depth, p, arr).Read?
    requires Parsing.ReadArray(cfg, d, depth, p, arr).pos <= n
    ensures SkipSpaces(d, p) < n
  {
    hide SkipSpaces, ReadElements;
    var s := SkipSpaces(d, p);
    if !(s < |d| && d[s] == RBRACKET) {
      ElementsGoOn(cfg, d, depth, s, arr, 0);
    }
  }

  lemma {:induction false} ElementsGoOn(cfg: Config, d: Text, depth: nat, p: nat, arr: Value, index: nat)
    requires p <= |d| && arr.payload.Array? && ReadElements(cfg, d, depth, p, arr, index).Read?
    ensures p < ReadElements(cfg, d, depth, p, arr, index).pos
    decreases |d| - p
  {
    hide ReadChild, AfterElement;
    var round := ElementRound(cfg, d, depth, p, arr, index);
    if round.Continue? {
      ElementsGoOn(cfg, d, depth, round.pos, round.value, index + 1);
    }
  }

  lemma {:induction false} ChildAgrees(cfg: Config, d: Text, e: Text, n: nat, depth: nat, p: nat, v: Value, k: Key,
                                       until: Kind)
    requires Agree(d, e, n) && p <= |d| && IsContainer(v) && EndsClosed(d, n) && TokenIn(NextToken(cfg, d, p), n)
    requires ReadChild(cfg, d, depth, p, v, k, until).Read? && ReadChild(cfg, d, depth, p, v, k, until).pos <= n
    ensures p <= |e| && ReadChild(cfg, e, depth, p, v, k, until) == ReadChild(cfg, d, depth, p, v, k, until)
    decreases |d| - p, 1
  {
    hide ReadValue, Recover, WithEntry, NextToken;
    ValueAgrees(cfg, d, e, n, depth + 1, p, SlotOf(v, k));
  }

  /** The first token of an element is in the common part if the separator after the element is. */
  lemma ChildTokenIn(cfg: Config, d: Text, depth: nat, p: nat, v: Value, k: Key, until: Kind, n: nat)
    requires p <= |d| && IsContainer(v) && ReadChild(cfg, d, depth, p, v, k, until).Read?
    requires TokenIn(SkipComments(d, ReadChild(cfg, d, depth, p, v, k, until).pos), n)
    ensures TokenIn(NextToken(cfg, d, p), n)
    ensures ReadChild(cfg, d, depth, p, v, k, until).pos <= n
  {
    hide ReadValue, NextToken, ReadToken;
    TokenBeforeSeparator(cfg, d, depth + 1, p, SlotOf(v, k));
    var q := ReadChild(cfg, d, depth, p, v, k, until).pos;
    var u := SkipComments(d, q);
    assert u.kind in {ObjectEnd, ArrayEnd} ==> u.start < u.end by { ClosingToken(d, u); }
  }

  predicate RoundIn(o: Round, n: nat) {
    if o.Stop? then o.result.Read? && o.result.pos <= n else o.pos < n
  }

  lemma {:induction false} MemberValueAgrees(cfg: Config, d: Text, e: Text, n: nat, depth: nat, p: nat, v: Value,
                                             name: Text)
    requires Agree(d, e, n) && p <= |d| && v.payload.Object? && EndsClosed(d, n)
    requires RoundIn(MemberValue(cfg, d, depth, p, v, name), n)
    ensures p <= |e| && MemberValue(cfg, e, depth, p, v, name) == MemberValue(cfg, d, depth, p, v, name)
    decreases |d| - p, 2
  {
    hide ReadChild, AfterMember, SkipComments, NextToken;
    var child := ReadChild(cfg, d, depth, p, v, Name(name), ObjectEnd);
    AfterMemberAgrees(d, e, n, child.pos);
    ChildTokenIn(cfg, d, depth, p, v, Name(name), ObjectEnd, n);
    ChildAgrees(cfg, d, e, n, depth, p, v, Name(name), ObjectEnd);
  }

  lemma {:induction false} MemberRoundAgrees(cfg: Config, d: Text, e: Text, n: nat, depth: nat, p: nat, v: Value,
                                             name: Text)
    requires Agree(d, e, n) && p <= |d| && v.payload.Object? && EndsClosed(d, n)
    requires RoundIn(MemberRound(cfg, d, depth, p, v, name), n)
    ensures p <= |e| && MemberRound(cfg, e, depth, p, v, name) == MemberRound(cfg, d, depth, p, v, name)
    decreases |d| - p, 3
  {
    hide ReadName, MemberValue;
    var next := ReadName(d, p, name);
    if next.Named? {
      assert MemberRound(cfg, d, depth, p, v, name) == MemberValue(cfg, d, depth, next.pos, v, next.name);
      MemberGoesOn(cfg, d, depth, next.pos, v, next.name);
    }
    ReadNameAgrees(d, e, n, p, name);
    if next.Named? {
      MemberValueAgrees(cfg, d, e, n, depth, next.pos, v, next.name);
    }
  }

  lemma MemberGoesOn(cfg: Config, d: Text, depth: nat, p: nat, v: Value, name: Text)
    requires p <= |d| && v.payload.Object?
    ensures var o := MemberValue(cfg, d, depth, p, v, name);
            if o.Continue? then p < o.pos else o.result.Read? ==> p < o.result.pos
  {
    hide ReadChild, AfterMember;
  }

  lemma {:induction false} MembersGoOn(cfg: Config, d: Text, depth: nat, p: nat, obj: Value, name: Text)
    requires p <= |d| && obj.payload.Object? && ReadMembers(cfg, d, depth, p, obj, name).Read?
    ensures p < ReadMembers(cfg, d, depth, p, obj, name).pos
    decreases |d| - p
  {
    hide ReadName, MemberValue;
    var round, next := MemberRound(cfg, d, depth, p, obj, name), ReadName(d, p, name);
    if next.Named? {
      assert round == MemberValue(cfg, d, depth, next.pos, obj, next.name);
      MemberGoesOn(cfg, d, depth, next.pos, obj, next.name);
    }
    if round.Continue? {
      MembersGoOn(cfg, d, depth, round.pos, round.value, round.name);
    }
  }

  lemma {:induction false} MembersAgree(cfg: Config, d: Text, e: Text, n: nat, depth: nat, p: nat, v: Value, name: Text)
    requires Agree(d, e, n) && p <= |d| && v.payload.Object? && EndsClosed(d, n)
    requires ReadMembers(cfg, d, depth, p, v, name).Read? && ReadMembers(cfg, d, depth, p, v, name).pos <= n
    ensures p <= |e| && ReadMembers(cfg, e, depth, p, v, name) == ReadMembers(cfg, d, depth, p, v, name)
    decreases |d| - p, 4
  {
    hide MemberRound;
    var round := MemberRound(cfg, d, depth, p, v, name);
    if round.Continue? {
      MembersGoOn(cfg, d, depth, round.pos, round.value, round.name);
    }
    MemberRoundAgrees(cfg, d, e, n, depth, p, v, name);
    if round.Continue? {
      MembersAgree(cfg, d, e, n, depth, round.pos, round.value, round.name);
    }
  }

  lemma {:induction false} ElementRoundAgrees(cfg: Config, d: Text, e: Text, n: nat, depth: nat, p: nat, v: Value,
                                              index: nat)
    requires Agree(d, e, n) && p <= |d| && v.payload.Array? && EndsClosed(d, n)
    requires RoundIn(ElementRound(cfg, d, depth, p, v, index), n)
    ensures p <= |e| && ElementRound(cfg, e, depth, p, v, index) == ElementRound(cfg, d, depth, p, v, index)
    decreases |d| - p, 2
  {
    hide ReadChild, AfterElement, SkipComments, NextToken;
    var child := ReadChild(cfg, d, depth, p, v, Index(index), ArrayEnd);
    AfterElementAgrees(d, e, n, child.pos);
    ChildTokenIn(cfg, d, depth, p, v, Index(index), ArrayEnd, n);
    ChildAgrees(cfg, d, e, n, depth, p, v, Index(index), ArrayEnd);
  }

  lemma {:induction false} ElementsAgree(cfg: Config, d: Text, e: Text, n: nat, depth: nat, p: nat, v: Value,
                                         index: nat)
    requires Agree(d, e, n) && p <= |d| && v.payload.Array? && EndsClosed(d, n)
    requires ReadElements(cfg, d, depth, p, v, index).Read? && ReadElements(cfg, d, depth, p, v, index).pos <= n
    ensures p <= |e| && ReadElements(cfg, e, depth, p, v, index) == ReadElements(cfg, d, depth, p, v, index)
    decreases |d| - p, 3
  {
    hide ElementRound;
    var round := ElementRound(cfg, d, depth, p, v, index);
    if round.Continue? {
      ElementsGoOn(cfg, d, depth, round.pos, round.value, index + 1);
    }
    ElementRoundAgrees(cfg, d, e, n, depth, p, v, index);
    if round.Continue? {
      ElementsAgree(cfg, d, e, n, depth, round.pos, round.value, index + 1);
    }
  }

  // ---- a container ends with its bracket ----

  lemma {:induction false} MembersEndClosed(cfg: Config, d: Text, depth: nat, p: nat, obj: Value, name: Text)
    requires p <= |d| && obj.payload.Object? && ReadMembers(cfg, d, depth, p, obj, name).Read?
    ensures EndsClosed(d, ReadMembers(cfg, d, depth, p, obj, name).pos)
    decreases |d| - p
  {
    hide ReadName, ReadChild, AfterMember;
    var round, next := MemberRound(cfg, d, depth, p, obj, name), ReadName(d, p, name);
    if next.NoMember? {
      NameClosed(d, p, name);
    } else if next.Named? {
      var child := ReadChild(cfg, d, depth, next.pos, obj, Name(next.name), ObjectEnd);
      assert round == MemberValue(cfg, d, depth, next.pos, obj, next.name);
      if child.Read? {
        SeparatorClosed(d, child.pos);
      }
    }
    if round.Continue? {
      MembersEndClosed(cfg, d, depth, round.pos, round.value, round.name);
    }
  }

  lemma CloserToken(d: Text, t: Token)
    requires t.start <= |d| && ReadToken(d, t.start) == t && t.kind in {ObjectEnd, ArrayEnd}
    ensures EndsClosed(d, t.end)
  {
  }

  lemma NameClosed(d: Text, p: nat, previous: Text)
    requires p <= |d| && ReadName(d, p, previous).NoMember?
    ensures EndsClosed(d, ReadName(d, p, previous).pos)
  {
    hide ReadToken, Recover, DecodeString;
    CloserToken(d, SkipComments(d, p));
  }

  lemma SeparatorClosed(d: Text, p: nat)
    requires p <= |d|
    ensures AfterMember(d, p).Last? ==> EndsClosed(d, AfterMember(d, p).pos)
    ensures AfterElement(d, p).Last? ==> EndsClosed(d, AfterElement(d, p).pos)
  {
    hide ReadToken, Recover;
    if SkipComments(d, p).kind in {ObjectEnd, ArrayEnd} {
      CloserToken(d, SkipComments(d, p));
    }
  }

  lemma {:induction false} ElementsEndClosed(cfg: Config, d: Text, depth: nat, p: nat, arr: Value, index: nat)
    requires p <= |d| && arr.payload.Array? && ReadElements(cfg, d, depth, p, arr, index).Read?
    ensures EndsClosed(d, ReadElements(cfg, d, depth, p, arr, index).pos)
    decreases |d| - p
  {
    hide ReadChild, AfterElement;
    var round := ElementRound(cfg, d, depth, p, arr, index);
    var child := ReadChild(cfg, d, depth, p, arr, Index(index), ArrayEnd);
    if child.Read? {
      SeparatorClosed(d, child.pos);
    }
    if round.Continue? {
      ElementsEndClosed(cfg, d, depth, round.pos, round.value, index + 1);
    }
  }

  // ---- a scalar root ----

  /** Comments before a token that ends with the common part. */
  lemma {:induction false} CommentsAgree(d: Text, e: Text, n: nat, p: nat)
    requires Agree(d, e, n) && p <= |d| && SkipComments(d, p).start < n
    requires ReadToken(e, SkipComments(d, p).start) == SkipComments(d, p)
    ensures SkipComments(e, p) == SkipComments(d, p)
    decreases |d| - p
  {
    hide TokenAt, SkipSpaces;
    var t := ReadToken(d, p);
    if t.kind == Comment {
      CommentBefore(d, p);
      CommentTokenAgrees(d, e, n, p);
      CommentsAgree(d, e, n, t.end);
    } else {
      BlankAgrees(d, e, n, p);
    }
  }

  lemma CommentTokenAgrees(d: Text, e: Text, n: nat, p: nat)
    requires Agree(d, e, n) && p <= |d| && ReadToken(d, p).kind == Comment && ReadToken(d, p).end < n
    ensures ReadToken(e, p) == ReadToken(d, p)
  {
    hide ReadString, ReadNumber, ReadComment, Match;
    var s := SkipSpaces(d, p);
    SpacesAgree(d, e, n, p);
    AgreeAt(d, e, n, s);
    CommentAgrees(d, e, n, s + 1);
  }

  /** The token after white space is the one read there. */
  lemma BlankAgrees(d: Text, e: Text, n: nat, p: nat)
    requires Agree(d, e, n) && p <= |d| && ReadToken(d, p).start < n
    ensures p <= |e| && ReadToken(e, p) == ReadToken(e, ReadToken(d, p).start)
  {
    hide TokenAt;
    SpacesAgree(d, e, n, p);
    SkipSpacesStops(e, p);
  }

  lemma ScalarTokenAgrees(d: Text, e: Text, n: nat, s: nat)
    requires Agree(d, e, n) && s < n && ReadToken(d, s) == Token(ReadToken(d, s).kind, s, n)
    requires ReadToken(d, s).kind in {StringToken, NumberToken, TrueToken, FalseToken, NullToken}
    requires ReadToken(d, s).kind == NumberToken ==> EndsNumber(e, n) && MarkStops(d, e, n)
    ensures ReadToken(e, s) == ReadToken(d, s)
  {
    hide ReadString, ReadNumber, ReadComment, Match;
    AgreeAt(d, e, n, s);
    if d[s] == QUOTE {
      StringAgrees(d, e, n, s + 1);
    } else if IsDigit(d[s]) || d[s] == MINUS {
      NumberAgrees(d, e, n, s + 1);
    } else if s + 1 < n && IsLiteralStart(d[s]) {
      LiteralAgrees(d, e, n, s);
    } else {
      LiteralLong(d, s, n);
    }
  }

  lemma LiteralLong(d: Text, s: nat, n: nat)
    requires s < |d| && ReadToken(d, s) == Token(ReadToken(d, s).kind, s, n)
    requires ReadToken(d, s).kind in {TrueToken, FalseToken, NullToken}
    ensures s + 1 < n && IsLiteralStart(d[s])
  {
    hide ReadString, ReadNumber, ReadComment;
  }

  predicate IsScalarKind(k: Kind) {
    k in {StringToken, NumberToken, TrueToken, FalseToken, NullToken}
  }

  lemma ScalarRootAgrees(cfg: Config, d: Text, e: Text, root0: Value, root1: Value)
    requires IsScalarKind(NextToken(cfg, d, 0).kind) && ReadValue(cfg, d, 1, 0, root0).Read?
    requires var t := NextToken(cfg, d, 0);
             && Agree(d, e, t.end)
             && (t.kind == NumberToken ==> EndsNumber(e, t.end) && MarkStops(d, e, t.end))
    ensures ReadValue(cfg, e, 1, 0, root1) == ReadValue(cfg, d, 1, 0, root0)
  {
    hide ReadToken, ScalarOutcome, SkipComments;
    var t := NextToken(cfg, d, 0);
    var n := t.end;
    ScalarTokenAgrees(d, e, n, t.start);
    if cfg.allowComments {
      CommentsAgree(d, e, n, 0);
    } else {
      BlankAgrees(d, e, n, 0);
    }
    assert NextToken(cfg, e, 0) == t;
    ScalarAgrees(cfg, d, e, n, t, root0);
    ScalarIgnores(cfg, e, t, root0, root1);
  }

  /** What is read does not depend on what receives it. */
  lemma ScalarIgnores(cfg: Config, e: Text, t: Token, a: Value, b: Value)
    requires t.start <= t.end <= |e| && (t.kind == StringToken ==> t.start + 2 <= t.end)
    requires t.kind != EndOfStream ==> t.start < t.end
    requires ScalarOutcome(cfg, e, t, a).Read?
    ensures ScalarOutcome(cfg, e, t, b) == ScalarOutcome(cfg, e, t, a)
  {
    hide DecodeString, DecodeInteger;
  }

  lemma ReceiverIgnored(cfg: Config, e: Text, a: Value, b: Value)
    requires ReadValue(cfg, e, 1, 0, a).Read?
    ensures ReadValue(cfg, e, 1, 0, b) == ReadValue(cfg, e, 1, 0, a)
  {
    hide ReadValue, NextToken, Moved;
    assert e[0..|e|] == e;
    ValueIn(cfg, e, e, 0, |e|, 1, 1, 0, a, b);
    MovedNowhere(ReadValue(cfg, e, 1, 0, a).value);
  }

  lemma {:induction false} MovedNowhere(v: Value)
    ensures Moved(v, 0) == v
  {
    if IsContainer(v) {
      var es := v.payload.entries;
      forall i | 0 <= i < |es| ensures Moved(es[i].value, 0) == es[i].value {
        MovedNowhere(es[i].value);
      }
      assert MovedEntries(v, 0) == es;
    }
  }

  lemma ContainerRootAgrees(cfg: Config, d: Text, e: Text, root0: Value, root1: Value)
    requires ReadValue(cfg, d, 1, 0, root0).Read? && NextToken(cfg, d, 0).kind in {ObjectBegin, ArrayBegin}
    requires Agree(d, e, ReadValue(cfg, d, 1, 0, root0).pos)
    ensures ReadValue(cfg, e, 1, 0, root1) == ReadValue(cfg, d, 1, 0, root0)
  {
    hide NextToken, ScalarOutcome, ReadMembers, ReadElements, SkipSpaces;
    var t, n := NextToken(cfg, d, 0), ReadValue(cfg, d, 1, 0, root0).pos;
    if t.kind == ObjectBegin {
      var obj := Value(Object([]), t.start, root0.limit);
      MembersEndClosed(cfg, d, 1, t.end, obj, []);
      MembersGoOn(cfg, d, 1, t.end, obj, []);
    } else {
      var arr := Value(Array([]), t.start, root0.limit);
      ArrayEndsClosed(cfg, d, 1, t.end, arr);
    }
    ValueAgrees(cfg, d, e, n, 1, 0, root0);
    ReceiverIgnored(cfg, e, root0, root1);
  }

  lemma ArrayEndsClosed(cfg: Config, d: Text, depth: nat, p: nat, arr: Value)
    requires p <= |d| && arr.payload.Array? && Parsing.ReadArray(cfg, d, depth, p, arr).Read?
    ensures var q := Parsing.ReadArray(cfg, d, depth, p, arr).pos; p < q && EndsClosed(d, q)
  {
    hide SkipSpaces, ReadElements;
    var s := SkipSpaces(d, p);
    if !(s < |d| && d[s] == RBRACKET) {
      ElementsGoOn(cfg, d, depth, s, arr, 0);
      ElementsEndClosed(cfg, d, depth, s, arr, 0);
    }
  }

  predicate IsNumeric(v: Value) {
    v.payload.Int? || v.payload.UInt? || v.payload.Real?
  }

  /** The rest does not make a final number longer: a sign does so only after an exponent mark. */
  predicate Separates(doc: Text, v: Value, rest: Text)
    requires 0 < v.limit <= |doc|
  {
    IsNumeric(v) && rest != [] ==>
      !ExtendsNumber(rest[0]) && (IsSign(rest[0]) ==> !IsExponentMark(doc[v.limit - 1]))
  }

  lemma RootKind(cfg: Config, doc: Text, root0: Value)
    requires ReadValue(cfg, doc, 1, 0, root0).Read? && !IsUnwritten(ReadValue(cfg, doc, 1, 0, root0).value)
    ensures var t, o := NextToken(cfg, doc, 0), ReadValue(cfg, doc, 1, 0, root0);
            && (t.kind in {ObjectBegin, ArrayBegin} ||
                (IsScalarKind(t.kind) && o.pos == t.end && (t.kind == NumberToken ==> IsNumeric(o.value))))
            && o.value.limit == o.pos > 0
  {
    hide NextToken, ReadMembers, ReadArray;
    var t := NextToken(cfg, doc, 0);
    if t.kind !in {ObjectBegin, ArrayBegin} {
      ScalarKinds(cfg, doc, t, root0);
    }
    ValueSliced(cfg, doc, 1, 0, root0);
  }

  lemma ScalarKinds(cfg: Config, doc: Text, t: Token, cur: Value)
    requires t.start <= t.end <= |doc| && (t.kind == StringToken ==> t.start + 2 <= t.end)
    requires t.kind != EndOfStream ==> t.start < t.end
    requires t.kind !in {ObjectBegin, ArrayBegin}
    requires ScalarOutcome(cfg, doc, t, cur).Read? && !IsUnwritten(ScalarOutcome(cfg, doc, t, cur).value)
    ensures IsScalarKind(t.kind) && ScalarOutcome(cfg, doc, t, cur).pos == t.end
    ensures t.kind == NumberToken ==> IsNumeric(ScalarOutcome(cfg, doc, t, cur).value)
  {
    hide DecodeString, Accumulate;
  }

  /** What follows the root makes no difference: cut off after the root and continued with any rest that does not make
      a final number longer, the document parses to the very same root. */
  lemma RestIgnored(cfg: Config, doc: Text, root0: Value, rest: Text, root1: Value)
    requires Parse(cfg, doc, root0).Parsed? && Parse(cfg, doc, root0).ok && !IsUnwritten(Parse(cfg, doc, root0).root)
    ensures 0 < Parse(cfg, doc, root0).root.limit <= |doc|
    ensures var v := Parse(cfg, doc, root0).root;
            Separates(doc, v, rest) ==> Parse(cfg, doc[..v.limit] + rest, root1) == Parse(cfg, doc, root0)
  {
    hide ReadValue, NextToken;
    RootKind(cfg, doc, root0);
    var v, t := Parse(cfg, doc, root0).root, NextToken(cfg, doc, 0);
    var e := doc[..v.limit] + rest;
    assert Agree(doc, e, v.limit);
    if Separates(doc, v, rest) {
      assert v.limit < |e| ==> e[v.limit] == rest[0];
      if t.kind in {ObjectBegin, ArrayBegin} {
        ContainerRootAgrees(cfg, doc, e, root0, root1);
      } else {
        ScalarRootAgrees(cfg, doc, e, root0, root1);
      }
    }
  }
}
