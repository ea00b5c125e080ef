/** Scanning and parsing look at nothing outside the text they consume: a slice reads as it did in place. */
module Locality {
  import opened Bytes
  import opened Values
  import opened OrderedMap
  import opened Lexer
  import opened Decoding
  import opened Parsing

  /** `w` is the part of `doc` from `s` to `n`. */
  predicate Window(doc: Text, w: Text, s: nat, n: nat) {
    s <= n <= |doc| && w == doc[s..n]
  }

  function Back(t: Token, s: nat): Token
    requires s <= t.start && s <= t.end
  {
    Token(t.kind, t.start - s, t.end - s)
  }

  lemma SliceOfSlice(doc: Text, s: nat, n: nat, a: nat, b: nat)
    requires s <= n <= |doc| && a <= b <= n - s
    ensures doc[s..n][a..b] == doc[s + a..s + b]
  {
    forall k | 0 <= k < b - a ensures doc[s..n][a..b][k] == doc[s + a..s + b][k] {
    }
    assert |doc[s..n][a..b]| == |doc[s + a..s + b]|;
    assert doc[s..n][a..b] == doc[s + a..s + b];
  }

  // ---- scanning ----

  lemma {:induction false} SkipSpacesIn(doc: Text, w: Text, s: nat, n: nat, p: nat)
    requires Window(doc, w, s, n) && s <= p <= n && SkipSpaces(doc, p) <= n
    ensures SkipSpaces(w, p - s) == SkipSpaces(doc, p) - s
    decreases n - p
  {
    if p < n && IsSpace(doc[p]) {
      SkipSpacesIn(doc, w, s, n, p + 1);
    }
  }

  lemma {:induction false} ScanDigitsIn(doc: Text, w: Text, s: nat, n: nat, p: nat)
    requires Window(doc, w, s, n) && s <= p <= n && ScanDigits(doc, p) <= n
    ensures ScanDigits(w, p - s) == ScanDigits(doc, p) - s
    decreases n - p
  {
    if p < n && IsDigit(doc[p]) {
      ScanDigitsIn(doc, w, s, n, p + 1);
    }
  }

  lemma ScanFractionIn(doc: Text, w: Text, s: nat, n: nat, p: nat)
    requires Window(doc, w, s, n) && s <= p <= n && ScanFraction(doc, p) <= n
    ensures ScanFraction(w, p - s) == ScanFraction(doc, p) - s
  {
    if p < n && doc[p] == DOT {
      ScanDigitsIn(doc, w, s, n, p + 1);
    }
  }

  lemma ScanExponentIn(doc: Text, w: Text, s: nat, n: nat, p: nat)
    requires Window(doc, w, s, n) && s <= p <= n && ScanExponent(doc, p) <= n
    ensures ScanExponent(w, p - s) == ScanExponent(doc, p) - s
  {
    if p < n && IsExponentMark(doc[p]) {
      ScanDigitsIn(doc, w, s, n, if p + 1 < |doc| && IsSign(doc[p + 1]) then p + 2 else p + 1);
    }
  }

  lemma ReadNumberIn(doc: Text, w: Text, s: nat, n: nat, p: nat)
    requires Window(doc, w, s, n) && s <= p <= n && ReadNumber(doc, p) <= n
    ensures ReadNumber(w, p - s) == ReadNumber(doc, p) - s
  {
    var a := ScanDigits(doc, p);
    var b := ScanFraction(doc, a);
    assert a <= b <= ScanExponent(doc, b) == ReadNumber(doc, p);
    ScanDigitsIn(doc, w, s, n, p);
    ScanFractionIn(doc, w, s, n, a);
    ScanExponentIn(doc, w, s, n, b);
  }

  lemma {:induction false} ReadStringIn(doc: Text, w: Text, s: nat, n: nat, p: nat)
    requires Window(doc, w, s, n) && s <= p <= n && ReadString(doc, p).pos <= n
    ensures var r := ReadString(doc, p); ReadString(w, p - s) == Scan(r.ok, r.pos - s)
    decreases n - p
  {
    if p < n {
      if doc[p] == BACKSLASH {
        ReadStringIn(doc, w, s, n, if p + 1 < |doc| then p + 2 else p + 1);
      } else if doc[p] != QUOTE {
        ReadStringIn(doc, w, s, n, p + 1);
      }
    }
  }

  lemma {:induction false} CStyleIn(doc: Text, w: Text, s: nat, n: nat, p: nat)
    requires Window(doc, w, s, n) && s <= p <= n && ReadCStyleComment(doc, p).pos <= n
    ensures var r := ReadCStyleComment(doc, p); ReadCStyleComment(w, p - s) == Scan(r.ok, r.pos - s)
    decreases n - p
  {
    if p + 1 < n && !(doc[p] == STAR && doc[p + 1] == SLASH) {
      CStyleIn(doc, w, s, n, p + 1);
    }
  }

  lemma {:induction false} CppStyleIn(doc: Text, w: Text, s: nat, n: nat, p: nat)
    requires Window(doc, w, s, n) && s <= p <= n && ReadCppStyleComment(doc, p) <= n
    ensures ReadCppStyleComment(w, p - s) == ReadCppStyleComment(doc, p) - s
    decreases n - p
  {
    if p < n && doc[p] != LF && doc[p] != CR {
      CppStyleIn(doc, w, s, n, p + 1);
    }
  }

  lemma ReadCommentIn(doc: Text, w: Text, s: nat, n: nat, p: nat)
    requires Window(doc, w, s, n) && s <= p <= n && ReadComment(doc, p).pos <= n
    ensures var r := ReadComment(doc, p); ReadComment(w, p - s) == Scan(r.ok, r.pos - s)
  {
    if p < n && doc[p] == STAR {
      CStyleIn(doc, w, s, n, p + 1);
    } else if p < n && doc[p] == SLASH {
      CppStyleIn(doc, w, s, n, p + 1);
    }
  }

  lemma MatchIn(doc: Text, w: Text, s: nat, n: nat, p: nat, pattern: Text)
    requires Window(doc, w, s, n) && s <= p <= n && Match(doc, p, pattern).pos <= n
    ensures var r := Match(doc, p, pattern); Match(w, p - s, pattern) == Scan(r.ok, r.pos - s)
  {
    if p + |pattern| <= n {
      SliceOfSlice(doc, s, n, p - s, p - s + |pattern|);
    }
  }

  /** Tokens that start with one of these bytes are scanned further. */
  predicate IsScanned(c: Byte) {
    c == QUOTE || c == SLASH || IsDigit(c) || c == MINUS || c == 0x74 || c == 0x66 || c == 0x6E
  }

  lemma ScannedTokenIn(doc: Text, w: Text, s: nat, n: nat, p: nat)
    requires Window(doc, w, s, n) && s <= p < n && IsScanned(doc[p]) && TokenAt(doc, p).end <= n
    ensures TokenAt(w, p - s) == Back(TokenAt(doc, p), s)
  {
    hide ReadString, ReadNumber, ReadComment, Match;
    var c := doc[p];
    assert c == w[p - s];
    if c == QUOTE {
      ReadStringIn(doc, w, s, n, p + 1);
    } else if c == SLASH {
      ReadCommentIn(doc, w, s, n, p + 1);
    } else if c == 0x74 {
      MatchIn(doc, w, s, n, p + 1, TRUE_TEXT[1..]);
    } else if c == 0x66 {
      MatchIn(doc, w, s, n, p + 1, FALSE_TEXT[1..]);
    } else if c == 0x6E {
      MatchIn(doc, w, s, n, p + 1, NULL_TEXT[1..]);
    } else {
      ReadNumberIn(doc, w, s, n, p + 1);
    }
  }

  lemma PlainTokenIn(doc: Text, w: Text, s: nat, n: nat, p: nat)
    requires Window(doc, w, s, n) && s <= p < n && !IsScanned(doc[p])
    ensures TokenAt(w, p - s) == Back(TokenAt(doc, p), s)
  {
  }

  lemma ReadTokenIn(doc: Text, w: Text, s: nat, n: nat, p: nat)
    requires Window(doc, w, s, n) && s <= p <= n && ReadToken(doc, p).end <= n
    ensures ReadToken(w, p - s) == Back(ReadToken(doc, p), s)
  {
    var q := SkipSpaces(doc, p);
    SkipSpacesIn(doc, w, s, n, p);
    if q < |doc| {
      if IsScanned(doc[q]) {
        ScannedTokenIn(doc, w, s, n, q);
      } else {
        PlainTokenIn(doc, w, s, n, q);
      }
    }
  }

  lemma {:induction false} SkipCommentsIn(doc: Text, w: Text, s: nat, n: nat, p: nat)
    requires Window(doc, w, s, n) && s <= p <= n && SkipComments(doc, p).end <= n
    ensures ReadToken(doc, p).end <= SkipComments(doc, p).end
    ensures SkipComments(w, p - s) == Back(SkipComments(doc, p), s)
    decreases n - p
  {
    hide ReadToken;
    var t := ReadToken(doc, p);
    ReadTokenIn(doc, w, s, n, p);
    if t.kind == Comment {
      SkipCommentsIn(doc, w, s, n, t.end);
    }
  }

  lemma LexemeIn(doc: Text, w: Text, s: nat, n: nat, t: Token)
    requires Window(doc, w, s, n) && s <= t.start <= t.end <= n
    ensures Lexeme(w, Back(t, s)) == Lexeme(doc, t)
  {
    SliceOfSlice(doc, s, n, t.start - s, t.end - s);
  }

  // ---- parsing ----

  /** The value with all offsets moved back by `s`. */
  function Moved(v: Value, s: int): (r: Value)
    ensures r.payload.Array? == v.payload.Array? && IsContainer(r) == IsContainer(v)
    decreases v
  {
    var p := match v.payload
      case Array(es) => Array(MovedEntries(v, s))
      case Object(es) => Object(MovedEntries(v, s))
      case other => other;
    Value(p, v.start - s, v.limit - s)
  }

  function MovedEntries(v: Value, s: int): (r: seq<Entry>)
    requires IsContainer(v)
    ensures |r| == |v.payload.entries|
    decreases v, 0
  {
    var es := v.payload.entries;
    seq(|es|, i requires 0 <= i < |es| => Entry(es[i].key, Moved(es[i].value, s)))
  }

  /** Moving a value changes nothing that operator== sees. */
  lemma {:induction false} MovedEqual(v: Value, s: int)
    ensures Equal(Moved(v, s), v)
  {
    if IsContainer(v) {
      forall i | 0 <= i < |v.payload.entries|
        ensures Equal(Moved(v.payload.entries[i].value, s), v.payload.entries[i].value)
      {
        MovedEqual(v.payload.entries[i].value, s);
      }
    }
  }

  lemma {:induction false} SameKeysSameBound(es: seq<Entry>, fs: seq<Entry>, k: Key)
    requires |es| == |fs| && forall i | 0 <= i < |es| :: es[i].key == fs[i].key
    ensures LowerBound(es, k) == LowerBound(fs, k)
  {
  }

  lemma PutMoved(v: Value, s: int, k: Key, child: Value)
    requires IsContainer(v)
    ensures MovedEntries(WithEntry(v, k, child), s) == Put(MovedEntries(v, s), k, Moved(child, s))
  {
    hide Put, LowerBound, Moved;
    var es, fs, rs := v.payload.entries, MovedEntries(v, s), MovedEntries(WithEntry(v, k, child), s);
    SameKeysSameBound(es, fs, k);
    PutOrigins(es, k, child);
    PutOrigins(fs, k, Moved(child, s));
    forall i | 0 <= i < |rs| ensures rs[i] == Put(fs, k, Moved(child, s))[i] {
      assert Origin(es, k, i) == Origin(fs, k, i);
    }
  }

  /** A container under construction that stands for another one, moved; its offset limit is still open. */
  predicate StandsFor(c: Value, v: Value, s: int) {
    && IsContainer(v) && IsContainer(c) && c.payload.Array? == v.payload.Array?
    && c.payload.entries == MovedEntries(v, s) && c.start == v.start - s
  }

  lemma WithEntryStandsFor(c: Value, v: Value, s: int, k: Key, child: Value)
    requires StandsFor(c, v, s)
    ensures StandsFor(WithEntry(c, k, Moved(child, s)), WithEntry(v, k, child), s)
  {
    PutMoved(v, s, k, child);
  }

  /** A value read elsewhere is the same value, moved. */
  predicate ReadsMoved(o: Outcome, r: Outcome, s: nat) {
    o.Read? && s <= o.pos && r == Read(Moved(o.value, s), o.pos - s)
  }

  /** The same for a container whose offset limit is still open. */
  predicate ReadsOpen(o: Outcome, r: Outcome, s: nat) {
    o.Read? && r.Read? && s <= o.pos && r.pos == o.pos - s && StandsFor(r.value, o.value, s)
  }

  lemma ScalarIn(cfg: Config, doc: Text, w: Text, s: nat, n: nat, t: Token, cur: Value, cur2: Value)
    requires Window(doc, w, s, n) && s <= t.start < t.end <= n
    requires t.kind == StringToken ==> t.start + 2 <= t.end
    requires ScalarOutcome(cfg, doc, t, cur).Read?
    ensures ReadsMoved(ScalarOutcome(cfg, doc, t, cur), ScalarOutcome(cfg, w, Back(t, s), cur2), s)
  {
    LexemeIn(doc, w, s, n, t);
  }

  lemma NextTokenIn(cfg: Config, doc: Text, w: Text, s: nat, n: nat, p: nat)
    requires Window(doc, w, s, n) && s <= p <= n && NextToken(cfg, doc, p).end <= n
    ensures NextToken(cfg, w, p - s) == Back(NextToken(cfg, doc, p), s)
  {
    if cfg.allowComments {
      SkipCommentsIn(doc, w, s, n, p);
    } else {
      ReadTokenIn(doc, w, s, n, p);
    }
  }

  function BackName(r: NameResult, s: nat): NameResult
    requires s <= r.pos
  {
    r.(pos := r.pos - s)
  }

  lemma ReadNameIn(doc: Text, w: Text, s: nat, n: nat, p: nat, previous: Text)
    requires Window(doc, w, s, n) && s <= p <= n && !ReadName(doc, p, previous).BadName?
    requires ReadName(doc, p, previous).pos <= n
    ensures Parsing.ReadName(w, p - s, previous) == BackName(ReadName(doc, p, previous), s)
  {
    hide ReadToken, SkipComments, DecodeString, Recover, Lexeme;
    var t := SkipComments(doc, p);
    if t.kind == StringToken {
      var colon := ReadToken(doc, t.end);
      SkipCommentsIn(doc, w, s, n, p);
      LexemeIn(doc, w, s, n, t);
      ReadTokenIn(doc, w, s, n, t.end);
    } else {
      SkipCommentsIn(doc, w, s, n, p);
    }
  }

  function BackSeparator(r: SeparatorResult, s: nat): SeparatorResult
    requires s <= r.pos
  {
    r.(pos := r.pos - s)
  }

  lemma AfterMemberIn(doc: Text, w: Text, s: nat, n: nat, p: nat)
    requires Window(doc, w, s, n) && s <= p <= n && !AfterMember(doc, p).BadSeparator? && AfterMember(doc, p).pos <= n
    ensures AfterMember(w, p - s) == BackSeparator(AfterMember(doc, p), s)
  {
    hide ReadToken, SkipComments;
    SkipCommentsIn(doc, w, s, n, p);
    ReadTokenIn(doc, w, s, n, p);
  }

  lemma AfterElementIn(doc: Text, w: Text, s: nat, n: nat, p: nat)
    requires Window(doc, w, s, n) && s <= p <= n && !AfterElement(doc, p).BadSeparator? && AfterElement(doc, p).pos <= n
    ensures AfterElement(w, p - s) == BackSeparator(AfterElement(doc, p), s)
  {
    hide ReadToken, SkipComments;
    SkipCommentsIn(doc, w, s, n, p);
  }
}
