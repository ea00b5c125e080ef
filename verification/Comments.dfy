/** JSON texts with comments in them: which are accepted, and that the comments change nothing. */
module Comments {
  import opened Bytes
  import opened Values
  import opened Lexer
  import opened Decoding
  import opened Parsing
  import opened Spelling
  import opened Rendering
  import opened Grammar
  import opened RoundTrip
  import opened Acceptance
  import opened RelaxedGrammar
  import opened Separators

  // ---- the lexer passes over comments ----

  lemma {:induction false} CStyleTo(doc: Text, q: nat, e: nat)
    requires q + 2 <= e <= |doc| && doc[e - 2] == STAR && doc[e - 1] == SLASH
    requires forall k | q <= k < e - 2 :: !(doc[k] == STAR && doc[k + 1] == SLASH)
    ensures ReadCStyleComment(doc, q) == Scan(true, e)
    decreases e - q
  {
    if q + 2 < e {
      CStyleTo(doc, q + 1, e);
    }
  }

  lemma BlockRead(doc: Text, p: nat, c: Text)
    requires TextAt(doc, p, c) && IsBlockComment(c)
    ensures ReadToken(doc, p) == Token(Comment, p, p + |c|)
  {
    forall k | 0 <= k < |c| ensures doc[p + k] == c[k] {
      TextAtByte(doc, p, c, k);
    }
    forall k | p + 2 <= k < p + |c| - 2 ensures !(doc[k] == STAR && doc[k + 1] == SLASH) {
      assert doc[p + (k - p)] == c[k - p] && doc[p + (k + 1 - p)] == c[k + 1 - p];
    }
    assert doc[p + (|c| - 2)] == c[|c| - 2] && doc[p + (|c| - 1)] == c[|c| - 1];
    assert doc[p + 0] == c[0] && doc[p + 1] == c[1];
    CStyleTo(doc, p + 2, p + |c|);
    CommentAt(doc, p);
  }

  lemma CommentAt(doc: Text, p: nat)
    requires p + 1 < |doc| && doc[p] == SLASH && (doc[p + 1] == STAR || doc[p + 1] == SLASH)
    ensures doc[p + 1] == STAR ==> ReadToken(doc, p) == Accept(Comment, p, ReadCStyleComment(doc, p + 2))
    ensures doc[p + 1] == SLASH ==> ReadToken(doc, p) == Token(Comment, p, ReadCppStyleComment(doc, p + 2))
  {
    hide ReadCStyleComment, ReadCppStyleComment;
  }

  lemma {:induction false} CppStyleTo(doc: Text, q: nat, m: nat)
    requires q <= m < |doc| && (doc[m] == LF || doc[m] == CR)
    requires forall k | q <= k < m :: doc[k] != LF && doc[k] != CR
    ensures ReadCppStyleComment(doc, q) ==
            if doc[m] == CR && m + 1 < |doc| && doc[m + 1] == LF then m + 2 else m + 1
    decreases m - q
  {
    if q < m {
      CppStyleTo(doc, q + 1, m);
    }
  }

  lemma LineRead(doc: Text, p: nat, c: Text, m: nat)
    requires TextAt(doc, p, c) && LineCommentTo(c, m)
    ensures var t := ReadToken(doc, p);
            t.kind == Comment && t.start == p && (t.end == p + |c| || LineFeedAt(doc, p + |c|, t.end))
  {
    forall k | 0 <= k < |c| ensures doc[p + k] == c[k] {
      TextAtByte(doc, p, c, k);
    }
    assert c[m..][0] == c[m] && doc[p + m] == c[m];
    assert |c| == m + 2 ==> c[m..][1] == c[m + 1] && doc[p + (m + 1)] == c[m + 1];
    assert doc[p + 0] == c[0] && doc[p + 1] == c[1];
    forall k | p + 2 <= k < p + m ensures doc[k] != LF && doc[k] != CR {
      assert doc[p + (k - p)] == c[k - p];
    }
    CppStyleTo(doc, p + 2, p + m);
    CommentAt(doc, p);
  }

  /** The token of a comment takes the line feed after a carriage return with it. */
  predicate LineFeedAt(doc: Text, q: nat, end: nat) {
    q < |doc| && doc[q] == LF && end == q + 1
  }

  lemma CommentRead(doc: Text, p: nat, c: Text)
    requires TextAt(doc, p, c) && IsComment(c)
    ensures var t := ReadToken(doc, p);
            t.kind == Comment && t.start == p && (t.end == p + |c| || LineFeedAt(doc, p + |c|, t.end))
  {
    hide ReadToken, LineCommentTo, IsBlockComment;
    if IsBlockComment(c) {
      BlockRead(doc, p, c);
    } else {
      var m: nat :| LineCommentTo(c, m);
      LineRead(doc, p, c, m);
    }
  }

  lemma SpaceRead(doc: Text, p: nat)
    requires p < |doc| && IsSpace(doc[p])
    ensures ReadToken(doc, p) == ReadToken(doc, p + 1) && SkipComments(doc, p) == SkipComments(doc, p + 1)
  {
    hide TokenAt;
  }

  lemma SkipOne(doc: Text, p: nat)
    requires p <= |doc| && ReadToken(doc, p).kind == Comment
    ensures SkipComments(doc, p) == SkipComments(doc, ReadToken(doc, p).end)
  {
    hide ReadToken;
  }

  lemma BlankStarts(t: Text) returns (k: nat)
    requires t != [] && IsBlank(t)
    ensures 0 < k <= |t| && StartsBlank(t, k) && IsBlank(t[k..])
  {
    hide IsComment;
    k :| 0 < k <= |t| && StartsBlank(t, k) && IsBlank(t[k..]);
  }

  /** White space and comments are passed over, and the token read first tells whether there is a comment. */
  lemma {:induction false} BlankThrough(doc: Text, p: nat, t: Text)
    requires TextAt(doc, p, t) && IsBlank(t)
    ensures p + |t| <= |doc| && SkipComments(doc, p) == SkipComments(doc, p + |t|)
    ensures if AllSpaces(t) then ReadToken(doc, p) == ReadToken(doc, p + |t|) else ReadToken(doc, p).kind == Comment
    decreases |t|
  {
    hide ReadToken, SkipComments, IsBlank, IsComment, IsSpace, AllSpaces;
    if t != [] {
      var k := BlankStarts(t);
      assert t == t[..k] + t[k..];
      TextAtConcat(doc, p, t[..k], t[k..]);
      BlankThrough(doc, p + k, t[k..]);
      TextAtByte(doc, p, t, 0);
      if k == 1 && AllSpaces(t[..1]) {
        FirstIsSpace(t);
        SpaceRead(doc, p);
        SpacesSplit(t);
      } else {
        CommentRead(doc, p, t[..k]);
        SkipOne(doc, p);
        CommentNoSpace(t, k);
        if LineFeedAt(doc, p + k, ReadToken(doc, p).end) {
          LineFeedIsSpace();
          SpaceRead(doc, p + k);
        }
      }
    } else {
      NothingIsSpace();
    }
  }

  lemma FirstIsSpace(t: Text)
    requires t != [] && AllSpaces(t[..1])
    ensures IsSpace(t[0])
  {
    assert t[..1][0] == t[0];
  }

  lemma NothingIsSpace()
    ensures AllSpaces([])
  {
  }

  lemma SpacesSplit(t: Text)
    requires t != [] && IsSpace(t[0])
    ensures AllSpaces(t) <==> AllSpaces(t[1..])
  {
    forall i | 0 < i < |t| && AllSpaces(t[1..]) ensures IsSpace(t[i]) {
      assert t[i] == t[1..][i - 1];
    }
  }

  lemma CommentNoSpace(t: Text, k: nat)
    requires k <= |t| && IsComment(t[..k])
    ensures !AllSpaces(t)
  {
    assert t[0] == t[..k][0];
  }

  lemma LineFeedIsSpace()
    ensures IsSpace(LF)
  {
  }

  // ---- texts of RFC 8259 with comments ----

  /** Where the colon stands, if only white space is before it. */
  function ColonPlace(t: Text): (n: nat)
    ensures n <= |t| && (n < |t| ==> t[n] == COLON)
  {
    if t == [] || t[0] == COLON then 0 else 1 + ColonPlace(t[1..])
  }

  /** A colon after white space, and before white space and comments. */
  ghost predicate IsCommentedColon(t: Text) {
    var n := ColonPlace(t);
    n < |t| && AllSpaces(t[..n]) && IsBlank(t[n + 1..])
  }

  /** What stands directly before the value of an item. */
  function ValueLead(isArray: bool, e: Item): Text {
    if isArray then e.lead
    else if ColonPlace(e.colon) < |e.colon| then e.colon[ColonPlace(e.colon) + 1..] else []
  }

  ghost predicate WellCommentedItem(isArray: bool, e: Item) {
    && IsBlank(e.lead) && IsBlank(e.trail)
    && if isArray then e.name == [] && e.colon == [] else IsString(e.name) && IsCommentedColon(e.colon)
  }

  /** A text of the grammar with comments wherever white space may stand, but for an empty array and before a colon. */
  ghost predicate WellCommented(j: Syntax) {
    match j
    case NullLiteral => true
    case BooleanLiteral(_) => true
    case NumberLiteral(t) => IsNumber(t)
    case StringLiteral(t) => IsString(t)
    case List(isArray, blank, items) =>
      && (if isArray then AllSpaces(blank) else IsBlank(blank))
      && forall i | 0 <= i < |items| :: WellCommentedItem(isArray, items[i]) && WellCommented(items[i].value)
  }

  /** No comment stands before a value. */
  predicate NoneBeforeValues(j: Syntax) {
    j.List? ==>
      forall i | 0 <= i < |j.items| ::
        AllSpaces(ValueLead(j.isArray, j.items[i])) && NoneBeforeValues(j.items[i].value)
  }

  /** The reader's demands, one more of them: with comments not allowed there is none before a value. */
  predicate Takes(cfg: Config, lead: Text, j: Syntax, depth: nat) {
    Accepts(cfg, j, depth) && (cfg.allowComments || (AllSpaces(lead) && NoneBeforeValues(j)))
  }

  /** The same for the items of a list from the `i`th on. */
  predicate TakesItems(cfg: Config, j: Syntax, depth: nat, i: nat)
    requires j.List?
  {
    forall k | i <= k < |j.items| ::
      && (j.isArray || NoLoneHigh(j.items[k].name))
      && Takes(cfg, ValueLead(j.isArray, j.items[k]), j.items[k].value, depth + 1)
  }

  lemma TakesList(cfg: Config, lead: Text, j: Syntax, depth: nat)
    requires j.List? && depth <= cfg.stackLimit
    ensures Takes(cfg, lead, j, depth) <==> TakesItems(cfg, j, depth, 0) && (cfg.allowComments || AllSpaces(lead))
  {
    hide NoLoneHigh, ValueLead, AllSpaces;
  }

  // ---- one value ----

  /** `o` is what reading a text with `lead` before it and its end at `q` gives. */
  predicate Gotten(cfg: Config, depth: nat, lead: Text, j: Syntax, q: nat, o: Outcome) {
    if Takes(cfg, lead, j, depth) then o.Read? && Equal(o.value, Meaning(j)) && o.pos == q else !o.Read?
  }

  predicate ListGotten(cfg: Config, depth: nat, j: Syntax, i: nat, q: nat, o: Outcome)
    requires j.List?
  {
    if TakesItems(cfg, j, depth, i) then o.Read? && Holds(o.value, j, |j.items|) && o.pos == q else !o.Read?
  }

  /** The token of a scalar, or the opening bracket. */
  function FirstWordOf(j: Syntax): (w: Word) {
    match j
    case NullLiteral => Word(NullToken, NULL_TEXT)
    case BooleanLiteral(b) => if b then Word(TrueToken, TRUE_TEXT) else Word(FalseToken, FALSE_TEXT)
    case NumberLiteral(t) => Word(NumberToken, t)
    case StringLiteral(t) => Word(StringToken, t)
    case List(_, _, _) => BeginWord(Shell(j))
  }

  lemma LiteralToken(doc: Text, q: nat, w: Word)
    requires TextAt(doc, q, w.text) && (IsLiteral(w) || IsPunctuation(w))
    ensures ReadToken(doc, q) == Token(w.kind, q, q + |w.text|)
  {
    TextAtByte(doc, q, w.text, 0);
    assert w.text == w.text[..1] + w.text[1..];
    TextAtConcat(doc, q, w.text[..1], w.text[1..]);
  }

  lemma FirstTokenRead(doc: Text, q: nat, j: Syntax)
    requires TextAt(doc, q, FirstWordOf(j).text) && WellCommented(j)
    requires j.NumberLiteral? ==> EndsNumber(doc, q + |FirstWordOf(j).text|)
    ensures ReadToken(doc, q) == Token(FirstWordOf(j).kind, q, q + |FirstWordOf(j).text|)
  {
    hide ReadToken, IsNumber, IsString;
    match j {
      case NumberLiteral(t) => NumberIsToken(doc, q, t);
      case StringLiteral(t) => StringIsToken(doc, q, t);
      case _ => LiteralToken(doc, q, FirstWordOf(j));
    }
  }

  /** The token that readValue looks at. */
  lemma NextAfterLead(cfg: Config, doc: Text, p: nat, lead: Text)
    requires TextAt(doc, p, lead) && IsBlank(lead) && p + |lead| <= |doc| && ReadToken(doc, p + |lead|).kind != Comment
    ensures if cfg.allowComments || AllSpaces(lead) then NextToken(cfg, doc, p) == ReadToken(doc, p + |lead|)
            else NextToken(cfg, doc, p).kind == Comment
  {
    hide ReadToken, IsBlank, AllSpaces;
    BlankThrough(doc, p, lead);
  }

  lemma CommentRefused(cfg: Config, doc: Text, depth: nat, p: nat, cur: Value)
    requires p <= |doc| && NextToken(cfg, doc, p).kind == Comment
    ensures !ReadValue(cfg, doc, depth, p, cur).Read?
  {
    hide NextToken;
  }

  lemma ScalarGotten(cfg: Config, doc: Text, depth: nat, p: nat, cur: Value, lead: Text, j: Syntax)
    requires TextAt(doc, p, lead) && IsBlank(lead) && TextAt(doc, p + |lead|, SyntaxText(j)) && WellCommented(j)
    requires !j.List? && depth <= cfg.stackLimit
    requires j.NumberLiteral? ==> EndsNumber(doc, p + |lead| + |SyntaxText(j)|)
    ensures Gotten(cfg, depth, lead, j, p + |lead| + |SyntaxText(j)|, ReadValue(cfg, doc, depth, p, cur))
  {
    hide ReadToken, ScalarOutcome, Equal, Accepts, IsNumber, IsString, NextToken, IsBlank, AllSpaces;
    var q := p + |lead|;
    assert SyntaxText(j) == FirstWordOf(j).text;
    FirstTokenRead(doc, q, j);
    NextAfterLead(cfg, doc, p, lead);
    if cfg.allowComments || AllSpaces(lead) {
      var t := ReadToken(doc, q);
      assert SyntaxWords(j) == [Word(t.kind, doc[t.start..t.end])];
      assert WellFormed(j);
      assert ReadValue(cfg, doc, depth, p, cur) == ScalarOutcome(cfg, doc, t, cur);
      TextNotEmpty(j);
      TokenAnswers(cfg, doc, depth, t, cur, j);
    } else {
      CommentRefused(cfg, doc, depth, p, cur);
    }
  }

  lemma TextNotEmpty(j: Syntax)
    requires WellCommented(j) && !j.List?
    ensures SyntaxText(j) != [] && (j.StringLiteral? ==> |SyntaxText(j)| >= 2)
  {
    hide IsBody;
  }

  // ---- lists ----

  /** The text from item `i` to the closing bracket. */
  function FromItems(j: Syntax, i: nat): Text
    requires j.List? && i < |j.items|
  {
    FromPart([COMMA], ItemTexts(j), i) + EndWord(Shell(j)).text
  }

  /** What stands after item `i`: the closing bracket, or a comma and the other items. */
  function AfterItem(j: Syntax, i: nat): Text
    requires j.List? && i < |j.items|
  {
    if i + 1 == |j.items| then EndWord(Shell(j)).text else [COMMA] + FromItems(j, i + 1)
  }

  lemma FromItemsUnfold(j: Syntax, i: nat)
    requires j.List? && i < |j.items|
    ensures FromItems(j, i) == ItemText(j.items[i]) + AfterItem(j, i)
  {
    hide ItemText;
    var parts, end := ItemTexts(j), EndWord(Shell(j)).text;
    if i + 1 < |j.items| {
      Associate(parts[i], [COMMA] + parts[i + 1] + Separated([COMMA], parts, i + 2), end);
      Associate([COMMA], parts[i + 1], Separated([COMMA], parts, i + 2));
      Associate([COMMA], FromPart([COMMA], parts, i + 1), end);
    } else {
      assert parts[i] + [] == parts[i];
    }
  }

  lemma ListTextUnfolds(j: Syntax)
    requires j.List?
    ensures SyntaxText(j) ==
            BeginWord(Shell(j)).text +
            if j.items == [] then j.blank + EndWord(Shell(j)).text else FromItems(j, 0)
  {
    hide ItemText;
    Associate(BeginWord(Shell(j)).text, Inside(j), EndWord(Shell(j)).text);
  }

  /** A text in four parts, each in its place. */
  lemma FourParts(doc: Text, p: nat, a: Text, b: Text, c: Text, d: Text)
    requires TextAt(doc, p, a + b + (c + d))
    ensures TextAt(doc, p, a) && TextAt(doc, p + |a|, b)
    ensures TextAt(doc, p + |a| + |b|, c) && TextAt(doc, p + |a| + |b| + |c|, d)
  {
    hide TextAt;
    TextAtConcat(doc, p, a + b, c + d);
    TextAtConcat(doc, p, a, b);
    TextAtConcat(doc, p + |a + b|, c, d);
  }

  /** The parts of an item, and what comes after it. */
  lemma ItemParts(doc: Text, p: nat, j: Syntax, i: nat)
    requires j.List? && i < |j.items| && TextAt(doc, p, FromItems(j, i))
    ensures var e := j.items[i];
            var n := p + |e.lead| + |e.name + e.colon|;
            var r := n + |SyntaxText(e.value)| + |e.trail|;
            && TextAt(doc, p, e.lead) && TextAt(doc, p + |e.lead|, e.name + e.colon)
            && TextAt(doc, n, SyntaxText(e.value)) && TextAt(doc, n + |SyntaxText(e.value)|, e.trail)
            && TextAt(doc, r, AfterItem(j, i)) && p + |FromItems(j, i)| == r + |AfterItem(j, i)|
  {
    hide TextAt, AfterItem, FromItems;
    var e := j.items[i];
    FromItemsUnfold(j, i);
    TextAtConcat(doc, p, ItemText(e), AfterItem(j, i));
    FourParts(doc, p, e.lead, e.name + e.colon, SyntaxText(e.value), e.trail);
  }

  lemma BlankFirst(t: Text)
    requires t != [] && IsBlank(t)
    ensures !ExtendsNumber(t[0])
  {
    hide IsBlank;
    var k := BlankStarts(t);
    assert t[0] == t[..k][0];
  }

  /** No number goes on into what stands after an item's value. */
  lemma TrailEndsNumber(doc: Text, c: nat, trail: Text, j: Syntax, i: nat)
    requires j.List? && i < |j.items| && IsBlank(trail)
    requires TextAt(doc, c, trail) && TextAt(doc, c + |trail|, AfterItem(j, i))
    ensures EndsNumber(doc, c)
  {
    hide IsBlank, FromItems;
    if trail != [] {
      BlankFirst(trail);
      TextAtByte(doc, c, trail, 0);
    } else {
      TextAtByte(doc, c, AfterItem(j, i), 0);
    }
  }

  /** The token after an item: at the end the closing bracket, else a comma. */
  lemma AfterItemToken(doc: Text, r: nat, j: Syntax, i: nat)
    requires j.List? && i < |j.items| && TextAt(doc, r, AfterItem(j, i))
    ensures r < |doc| && ReadToken(doc, r).end == r + 1
    ensures ReadToken(doc, r).kind == if i + 1 == |j.items| then EndWord(Shell(j)).kind else ArraySeparator
    ensures i + 1 < |j.items| ==> TextAt(doc, r + 1, FromItems(j, i + 1))
  {
    hide ReadToken, FromItems;
    if i + 1 == |j.items| {
      LiteralToken(doc, r, EndWord(Shell(j)));
    } else {
      TextAtConcat(doc, r, [COMMA], FromItems(j, i + 1));
      LiteralToken(doc, r, SEPARATOR);
    }
  }

  lemma SkipsTo(doc: Text, c: nat, trail: Text)
    requires TextAt(doc, c, trail) && IsBlank(trail) && c + |trail| <= |doc|
    requires ReadToken(doc, c + |trail|).kind != Comment
    ensures SkipComments(doc, c) == ReadToken(doc, c + |trail|)
    ensures ReadToken(doc, c) == ReadToken(doc, c + |trail|) || ReadToken(doc, c).kind == Comment
  {
    hide ReadToken, IsBlank;
    BlankThrough(doc, c, trail);
  }

  lemma ElementSeparator(doc: Text, c: nat, trail: Text, j: Syntax, i: nat)
    requires j.List? && j.isArray && i < |j.items| && IsBlank(trail)
    requires TextAt(doc, c, trail) && TextAt(doc, c + |trail|, AfterItem(j, i))
    ensures var r := c + |trail| + 1; AfterElement(doc, c) == if i + 1 == |j.items| then Last(r) else More(r)
  {
    hide ReadToken, IsBlank, Recover, AfterItem, TextAt;
    AfterItemToken(doc, c + |trail|, j, i);
    SkipsTo(doc, c, trail);
  }

  lemma MemberSeparatorRead(doc: Text, c: nat, trail: Text, j: Syntax, i: nat)
    requires j.List? && !j.isArray && i < |j.items| && IsBlank(trail)
    requires TextAt(doc, c, trail) && TextAt(doc, c + |trail|, AfterItem(j, i))
    ensures var r := c + |trail| + 1; AfterMember(doc, c) == if i + 1 == |j.items| then Last(r) else More(r)
  {
    hide ReadToken, IsBlank, Recover, AfterItem, TextAt;
    AfterItemToken(doc, c + |trail|, j, i);
    SkipsTo(doc, c, trail);
  }

  /** What readArray makes of the elements so far and of what follows the last of them. */
  function OnwardElements(cfg: Config, doc: Text, depth: nat, arr: Value, i: nat, s: SeparatorResult): Outcome
    requires arr.payload.Array? && s.pos <= |doc|
  {
    match s
    case Last(q) => Read(arr, q)
    case BadSeparator(q, e) => Failed(arr, q, e)
    case More(q) => ReadElements(cfg, doc, depth, q, arr, i + 1)
  }

  lemma ElementOnward(cfg: Config, doc: Text, depth: nat, p: nat, arr: Value, i: nat)
    requires p <= |doc| && arr.payload.Array? && ReadValue(cfg, doc, depth + 1, p, SlotOf(arr, Index(i))).Read?
    ensures var child := ReadValue(cfg, doc, depth + 1, p, SlotOf(arr, Index(i)));
            ReadElements(cfg, doc, depth, p, arr, i) ==
            OnwardElements(cfg, doc, depth, WithEntry(arr, Index(i), child.value), i, AfterElement(doc, child.pos))
  {
    hide ReadValue, AfterElement, Recover;
    var child := ReadChild(cfg, doc, depth, p, arr, Index(i), ArrayEnd);
    assert ElementRound(cfg, doc, depth, p, arr, i) == AfterChild(child.value, [], AfterElement(doc, child.pos));
  }

  lemma OneItemMore(cfg: Config, j: Syntax, depth: nat, i: nat)
    requires j.List? && i < |j.items|
    ensures TakesItems(cfg, j, depth, i) <==>
            && (j.isArray || NoLoneHigh(j.items[i].name))
            && Takes(cfg, ValueLead(j.isArray, j.items[i]), j.items[i].value, depth + 1)
            && TakesItems(cfg, j, depth, i + 1)
  {
    hide Takes, NoLoneHigh, ValueLead;
  }

  lemma {:induction false} ElementsGotten(cfg: Config, doc: Text, depth: nat, p: nat, arr: Value, j: Syntax, i: nat)
    requires WellCommented(j) && j.List? && j.isArray && i < |j.items| && Holds(arr, j, i)
    requires TextAt(doc, p, FromItems(j, i)) && p <= |doc|
    requires arr.payload.Array?
    ensures ListGotten(cfg, depth, j, i, p + |FromItems(j, i)|, ReadElements(cfg, doc, depth, p, arr, i))
    decreases j, 0, |j.items| - i
  {
    hide ReadValue, ReadElements, AfterElement, FromItems, TextAt, IsBlank, Takes, TakesItems, Holds, Meaning, Equal,
        WithEntry, AfterItem, IsNumber, IsString, SyntaxText;
    var e := j.items[i];
    assert WellCommentedItem(true, e) && WellCommented(e.value) && e.name + e.colon == [];
    ItemParts(doc, p, j, i);
    var c := p + |e.lead| + |SyntaxText(e.value)|;
    TrailEndsNumber(doc, c, e.trail, j, i);
    ValueGotten(cfg, doc, depth + 1, p, SlotOf(arr, Index(i)), e.lead, e.value);
    OneItemMore(cfg, j, depth, i);
    var child := ReadValue(cfg, doc, depth + 1, p, SlotOf(arr, Index(i)));
    if child.Read? {
      HoldsOneMore(arr, j, i, child.value);
      HoldsContainer(WithEntry(arr, Index(i), child.value), j, i + 1);
      ElementOnward(cfg, doc, depth, p, arr, i);
      ElementSeparator(doc, c, e.trail, j, i);
      AfterItemToken(doc, c + |e.trail|, j, i);
      AfterItemLength(j, i);
      if i + 1 < |j.items| {
        ElementsGotten(cfg, doc, depth, c + |e.trail| + 1, WithEntry(arr, Index(i), child.value), j, i + 1);
      } else {
        NoItemsLeft(cfg, j, depth);
      }
    } else {
      ElementStops(cfg, doc, depth, p, arr, i);
    }
  }

  lemma AfterItemLength(j: Syntax, i: nat)
    requires j.List? && i < |j.items|
    ensures |AfterItem(j, i)| == if i + 1 == |j.items| then 1 else 1 + |FromItems(j, i + 1)|
  {
    hide FromItems;
  }

  lemma NoItemsLeft(cfg: Config, j: Syntax, depth: nat)
    requires j.List?
    ensures TakesItems(cfg, j, depth, |j.items|)
  {
  }

  /** The start of a member: its name, and where the text after its colon starts. */
  lemma NameGotten(doc: Text, p: nat, previous: Text, e: Item)
    requires TextAt(doc, p, e.lead) && TextAt(doc, p + |e.lead|, e.name + e.colon) && WellCommentedItem(false, e)
    ensures p <= |doc|
    ensures var m := p + |e.lead| + |e.name| + ColonPlace(e.colon) + 1;
            && m <= |doc| && TextAt(doc, m, ValueLead(false, e)) && IsBlank(ValueLead(false, e))
            && m + |ValueLead(false, e)| == p + |e.lead| + |e.name + e.colon|
            && if NoLoneHigh(e.name) then ReadName(doc, p, previous) == Named(StringOf(e.name), m)
               else ReadName(doc, p, previous).BadName?
  {
    hide ReadToken, SkipComments, IsString, NoLoneHigh, StringOf, IsBlank, ColonPlace, TextAt, AllSpaces, ValueLead,
        ReadName;
    var q := p + |e.lead|;
    TextAtConcat(doc, q, e.name, e.colon);
    StringIsToken(doc, q, e.name);
    InDocument(doc, p, e.lead);
    SkipsTo(doc, p, e.lead);
    ColonRead(doc, q + |e.name|, e.colon);
    ValueLeadIs(e);
    NameTokens(doc, p, previous, q, e.name, q + |e.name| + ColonPlace(e.colon) + 1);
  }

  lemma InDocument(doc: Text, p: nat, t: Text)
    requires TextAt(doc, p, t)
    ensures p + |t| <= |doc|
  {
  }

  lemma ValueLeadIs(e: Item)
    requires WellCommentedItem(false, e)
    ensures var n := ColonPlace(e.colon);
            && n < |e.colon| && ValueLead(false, e) == e.colon[n + 1..] && IsBlank(ValueLead(false, e))
            && |ValueLead(false, e)| == |e.colon| - n - 1
  {
    hide IsBlank, ColonPlace, IsString;
  }

  /** The two tokens at the start of a member. */
  lemma NameTokens(doc: Text, p: nat, previous: Text, q: nat, name: Text, m: nat)
    requires p <= |doc| && TextAt(doc, q, name) && IsString(name)
    requires SkipComments(doc, p) == Token(StringToken, q, q + |name|)
    requires ReadToken(doc, q + |name|).kind == MemberSeparator && ReadToken(doc, q + |name|).end == m
    ensures if NoLoneHigh(name) then ReadName(doc, p, previous) == Named(StringOf(name), m)
            else ReadName(doc, p, previous).BadName?
  {
    hide ReadToken, SkipComments, IsRawString, NoLoneHigh, StringOf, DecodeString, Recover;
    StringAcceptedExactly(name);
    if NoLoneHigh(name) {
      StringMeans(name);
    }
  }

  lemma ColonRead(doc: Text, q: nat, colon: Text)
    requires TextAt(doc, q, colon) && IsCommentedColon(colon)
    ensures var n := ColonPlace(colon);
            && ReadToken(doc, q) == Token(MemberSeparator, q + n, q + n + 1)
            && TextAt(doc, q + n + 1, colon[n + 1..])
  {
    hide ReadToken, IsBlank, ColonPlace, TextAt, AllSpaces;
    var n := ColonPlace(colon);
    ColonParts(doc, q, colon, n);
    BlankThroughSpaces(doc, q, colon[..n]);
    LiteralToken(doc, q + n, NAME_SEPARATOR);
  }

  lemma ColonParts(doc: Text, q: nat, colon: Text, n: nat)
    requires TextAt(doc, q, colon) && n < |colon| && colon[n] == COLON
    ensures TextAt(doc, q, colon[..n]) && TextAt(doc, q + n, [COLON]) && TextAt(doc, q + n + 1, colon[n + 1..])
  {
    hide TextAt;
    assert colon == colon[..n] + ([COLON] + colon[n + 1..]);
    TextAtConcat(doc, q, colon[..n], [COLON] + colon[n + 1..]);
    TextAtConcat(doc, q + n, [COLON], colon[n + 1..]);
  }

  lemma {:induction false} MembersGotten(cfg: Config, doc: Text, depth: nat, p: nat, obj: Value, previous: Text,
                                         j: Syntax, i: nat)
    requires WellCommented(j) && j.List? && !j.isArray && i < |j.items| && Holds(obj, j, i)
    requires TextAt(doc, p, FromItems(j, i)) && p <= |doc|
    requires obj.payload.Object?
    ensures ListGotten(cfg, depth, j, i, p + |FromItems(j, i)|, ReadMembers(cfg, doc, depth, p, obj, previous))
    decreases j, 0, |j.items| - i
  {
    hide ReadValue, ReadMembers, ReadName, AfterMember, FromItems, TextAt, IsBlank, Takes, TakesItems, Holds, Meaning,
        Equal, WithEntry, AfterItem, IsNumber, IsString, SyntaxText, NoLoneHigh, StringOf, ValueLead,
        ColonPlace, AllSpaces;
    var e := j.items[i];
    assert WellCommentedItem(false, e) && WellCommented(e.value);
    ItemParts(doc, p, j, i);
    NameGotten(doc, p, previous, e);
    OneItemMore(cfg, j, depth, i);
    if !NoLoneHigh(e.name) {
      NameStops(cfg, doc, depth, p, obj, previous);
    } else {
      var m := p + |e.lead| + |e.name| + ColonPlace(e.colon) + 1;
      var c := p + |e.lead| + |e.name + e.colon| + |SyntaxText(e.value)|;
      var key := Name(StringOf(e.name));
      TrailEndsNumber(doc, c, e.trail, j, i);
      ValueGotten(cfg, doc, depth + 1, m, SlotOf(obj, key), ValueLead(false, e), e.value);
      var child := ReadValue(cfg, doc, depth + 1, m, SlotOf(obj, key));
      if child.Read? {
        HoldsOneMore(obj, j, i, child.value);
        HoldsContainer(WithEntry(obj, key, child.value), j, i + 1);
        MemberOnward(cfg, doc, depth, p, obj, previous, StringOf(e.name), m);
        MemberSeparatorRead(doc, c, e.trail, j, i);
        AfterItemToken(doc, c + |e.trail|, j, i);
        AfterItemLength(j, i);
        if i + 1 < |j.items| {
          MembersGotten(cfg, doc, depth, c + |e.trail| + 1, WithEntry(obj, key, child.value), StringOf(e.name), j,
                        i + 1);
        } else {
          NoItemsLeft(cfg, j, depth);
        }
      } else {
        MemberStops(cfg, doc, depth, p, obj, previous, StringOf(e.name), m);
      }
    }
  }

  /** An array starts with its first token, whatever stands before it. */
  lemma ElementsFromToken(cfg: Config, doc: Text, depth: nat, p: nat, arr: Value)
    requires p <= |doc| && arr.payload.Array?
    ensures ReadElements(cfg, doc, depth, SkipSpaces(doc, p), arr, 0) == ReadElements(cfg, doc, depth, p, arr, 0)
  {
    hide ReadToken, ReadMembers, Parsing.ReadArray, ScalarOutcome, Recover, AfterElement, WithEntry, SkipSpaces;
    var s := SkipSpaces(doc, p);
    BracketAhead(doc, p);
    NextFromToken(cfg, doc, p);
    assert ReadValue(cfg, doc, depth + 1, s, SlotOf(arr, Index(0))) ==
           ReadValue(cfg, doc, depth + 1, p, SlotOf(arr, Index(0)));
    assert ElementRound(cfg, doc, depth, s, arr, 0) == ElementRound(cfg, doc, depth, p, arr, 0);
  }

  lemma NextFromToken(cfg: Config, doc: Text, p: nat)
    requires p <= |doc|
    ensures NextToken(cfg, doc, SkipSpaces(doc, p)) == NextToken(cfg, doc, p)
  {
    hide ReadToken;
    BracketAhead(doc, p);
  }

  /** Between the brackets. */
  lemma {:induction false} InsideGotten(cfg: Config, doc: Text, depth: nat, p: nat, c: Value, j: Syntax)
    requires WellCommented(j) && j.List? && c.payload == Shell(j).payload && p <= |doc|
    requires var t := if j.items == [] then j.blank + EndWord(Shell(j)).text else FromItems(j, 0); TextAt(doc, p, t)
    ensures var t := if j.items == [] then j.blank + EndWord(Shell(j)).text else FromItems(j, 0);
            ListGotten(cfg, depth, j, 0, p + |t|, ReadList(cfg, doc, depth, p, c))
    decreases j, 1
  {
    hide ReadToken, ReadElements, ReadMembers, FromItems, TextAt, IsBlank, SkipSpaces;
    assert Holds(c, j, 0);
    if j.items == [] {
      EmptyGotten(cfg, doc, depth, p, c, j);
    } else if j.isArray {
      NoBracketAhead(doc, p, j);
      BracketAhead(doc, p);
      ElementsGotten(cfg, doc, depth, p, c, j, 0);
      ElementsFromToken(cfg, doc, depth, p, c);
      assert ReadList(cfg, doc, depth, p, c) == ReadElements(cfg, doc, depth, SkipSpaces(doc, p), c, 0);
    } else {
      MembersGotten(cfg, doc, depth, p, c, [], j, 0);
    }
  }

  lemma EmptyGotten(cfg: Config, doc: Text, depth: nat, p: nat, c: Value, j: Syntax)
    requires WellCommented(j) && j.List? && j.items == [] && c.payload == Shell(j).payload && p <= |doc|
    requires TextAt(doc, p, j.blank + EndWord(Shell(j)).text)
    ensures ListGotten(cfg, depth, j, 0, p + |j.blank| + 1, ReadList(cfg, doc, depth, p, c))
  {
    hide ReadToken, IsBlank, Recover;
    var end, r := EndWord(Shell(j)), p + |j.blank|;
    TextAtConcat(doc, p, j.blank, end.text);
    LiteralToken(doc, r, end);
    if j.isArray {
      BlankThroughSpaces(doc, p, j.blank);
      EmptyListRead(cfg, doc, depth, p, c);
    } else {
      SkipsTo(doc, p, j.blank);
      assert ReadName(doc, p, []) == NoMember(r + 1);
      assert MemberRound(cfg, doc, depth, p, c, []) == Stop(Read(c, r + 1));
    }
  }

  lemma BlankThroughSpaces(doc: Text, p: nat, t: Text)
    requires TextAt(doc, p, t) && AllSpaces(t)
    ensures ReadToken(doc, p) == ReadToken(doc, p + |t|)
  {
    hide ReadToken;
    forall i | p <= i < p + |t| ensures IsSpace(doc[i]) {
      TextAtByte(doc, p, t, i - p);
    }
    BlankSkipped(doc, p, p + |t|);
  }

  /** An array with elements does not start with its closing bracket. */
  lemma NoBracketAhead(doc: Text, p: nat, j: Syntax)
    requires WellCommented(j) && j.List? && j.isArray && j.items != [] && TextAt(doc, p, FromItems(j, 0)) && p <= |doc|
    ensures ReadToken(doc, p).kind != ArrayEnd
  {
    hide ReadToken, FromItems, TextAt, IsBlank, AllSpaces, IsNumber, IsString, AfterItem;
    var e := j.items[0];
    assert WellCommentedItem(true, e) && WellCommented(e.value) && e.name + e.colon == [];
    ItemParts(doc, p, j, 0);
    TrailEndsNumber(doc, p + |e.lead| + |SyntaxText(e.value)|, e.trail, j, 0);
    FirstWordAt(doc, p + |e.lead|, e.value);
    FirstTokenRead(doc, p + |e.lead|, e.value);
    BlankThrough(doc, p, e.lead);
  }

  lemma FirstWordAt(doc: Text, q: nat, j: Syntax)
    requires TextAt(doc, q, SyntaxText(j))
    ensures TextAt(doc, q, FirstWordOf(j).text) && (!j.List? ==> FirstWordOf(j).text == SyntaxText(j))
    ensures FirstWordOf(j).kind !in {ArrayEnd, Comment}
  {
    hide FromItems;
    if j.List? {
      ListTextUnfolds(j);
      TextAtConcat(doc, q, BeginWord(Shell(j)).text,
                   if j.items == [] then j.blank + EndWord(Shell(j)).text else FromItems(j, 0));
    }
  }

  /** Reading a text of the grammar, with white space and comments before and in it. */
  lemma {:induction false} ValueGotten(cfg: Config, doc: Text, depth: nat, p: nat, cur: Value, lead: Text, j: Syntax)
    requires TextAt(doc, p, lead) && IsBlank(lead) && TextAt(doc, p + |lead|, SyntaxText(j)) && WellCommented(j)
    requires j.NumberLiteral? ==> EndsNumber(doc, p + |lead| + |SyntaxText(j)|)
    ensures p <= |doc|
    ensures Gotten(cfg, depth, lead, j, p + |lead| + |SyntaxText(j)|, ReadValue(cfg, doc, depth, p, cur))
    decreases j, 3
  {
    hide ReadToken, NextToken, ReadMembers, ReadElements, FromItems, SyntaxText, IsBlank, AllSpaces, Equal, Meaning,
        IsNumber, IsString, Stored;
    if depth > cfg.stackLimit {
    } else if !j.List? {
      ScalarGotten(cfg, doc, depth, p, cur, lead, j);
    } else {
      var q := p + |lead|;
      FirstWordAt(doc, q, j);
      FirstTokenRead(doc, q, j);
      NextAfterLead(cfg, doc, p, lead);
      TakesList(cfg, lead, j, depth);
      if cfg.allowComments || AllSpaces(lead) {
        BracketedGotten(cfg, doc, depth, p, cur, q, j);
      } else {
        CommentRefused(cfg, doc, depth, p, cur);
      }
    }
  }

  lemma {:induction false} BracketedGotten(cfg: Config, doc: Text, depth: nat, p: nat, cur: Value, q: nat, j: Syntax)
    requires WellCommented(j) && j.List? && p <= q && TextAt(doc, q, SyntaxText(j)) && depth <= cfg.stackLimit
    requires p <= |doc| && NextToken(cfg, doc, p) == Token(BeginWord(Shell(j)).kind, q, q + 1)
    ensures var o := ReadValue(cfg, doc, depth, p, cur);
            if TakesItems(cfg, j, depth, 0) then
              o.Read? && Equal(o.value, Meaning(j)) && o.pos == q + |SyntaxText(j)|
            else !o.Read?
    decreases j, 2
  {
    hide NextToken, ReadMembers, ReadElements, FromItems, SyntaxText, Equal, Meaning, WellCommented, TakesItems, Stored;
    var c := Value(Shell(j).payload, q, cur.limit);
    var t := if j.items == [] then j.blank + EndWord(Shell(j)).text else FromItems(j, 0);
    ListTextUnfolds(j);
    TextAtConcat(doc, q, BeginWord(Shell(j)).text, t);
    InsideGotten(cfg, doc, depth, q + 1, c, j);
    var o := ReadList(cfg, doc, depth, q + 1, c);
    assert ReadValue(cfg, doc, depth, p, cur) == Limited(o);
    if TakesItems(cfg, j, depth, 0) {
      HoldsAll(o.value, j, o.pos);
    }
  }

  /** Every JSON text of RFC 8259 with white space and comments before and in it, whatever follows it that does not make
      a final number longer, is accepted exactly if the reader's further demands are met, and then with its meaning.
      Where comments are not allowed that means none before a value; before names and after values they are passed over
      all the same. Strict root refuses scalars. */
  lemma AcceptedWithComments(cfg: Config, before: Text, j: Syntax, after: Text, root0: Value)
    requires WellCommented(j) && IsBlank(before)
    requires j.NumberLiteral? && after != [] ==> !ExtendsNumber(after[0])
    ensures var r := Parse(cfg, before + SyntaxText(j) + after, root0);
            && (r.Parsed? && r.ok <==> Takes(cfg, before, j, 1) && (cfg.strictRoot ==> j.List?))
            && (Takes(cfg, before, j, 1) ==> r.Parsed? && Equal(r.root, Meaning(j)))
  {
    hide ReadValue, SyntaxText, IsBlank, Takes, WellCommented, Stored;
    var doc := before + SyntaxText(j) + after;
    assert TextAt(doc, 0, before) && TextAt(doc, |before|, SyntaxText(j));
    assert |before + SyntaxText(j)| == |before| + |SyntaxText(j)|;
    ValueGotten(cfg, doc, 1, 0, root0, before, j);
  }
}
