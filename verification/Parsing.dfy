/** The result of each Reader parsing routine, as a function of the document and the Reader's state. */
module Parsing {
  import opened Bytes
  import opened Values
  import opened Lexer
  import opened Decoding

  /** Feature switches, the node-stack limit fixed at compile time, and the foreign floating-point reader. */
  datatype Config = Config(
    allowComments: bool,
    strictRoot: bool,
    allowDropped: bool,
    stackLimit: nat,
    isDouble: Text -> bool)

  datatype ErrorInfo = ErrorInfo(message: Message, token: Token, extra: Option<nat>)

  /** An exception, a value with the cursor after it, or what is left of a value, the cursor and the one error. */
  datatype Outcome =
    | Threw
    | Read(value: Value, pos: nat)
    | Failed(value: Value, pos: nat, error: ErrorInfo)

  predicate Within(r: Outcome, lo: nat, hi: nat) {
    r.Threw? || lo <= r.pos <= hi
  }

  /** skipCommentTokens */
  function NextToken(cfg: Config, doc: Text, p: nat): (t: Token)
    requires p <= |doc|
    ensures p <= t.start <= t.end <= |doc|
    ensures t.kind != EndOfStream ==> p < t.end
    ensures t.kind == StringToken ==> t.start + 2 <= t.end
    ensures t.kind in {StringToken, NumberToken} ==> t.start < t.end
    ensures t.start <= |doc| && ReadToken(doc, t.start) == t
  {
    ReadTokenFromStart(doc, p);
    if cfg.allowComments then SkipComments(doc, p) else ReadToken(doc, p)
  }

  lemma NextIsRead(cfg: Config, doc: Text, p: nat)
    requires p <= |doc| && ReadToken(doc, p).kind != Comment
    ensures NextToken(cfg, doc, p) == ReadToken(doc, p)
  {
  }

  function Lexeme(doc: Text, t: Token): Text
    requires t.start <= t.end <= |doc|
  {
    doc[t.start..t.end]
  }

  /** A value with another payload, as swapPayload leaves it, spanning the token. */
  function Scalar(p: Payload, t: Token): Value {
    Value(p, t.start, t.end)
  }

  function NumberOutcome(cfg: Config, doc: Text, t: Token, cur: Value): Outcome
    requires t.start <= t.end <= |doc|
  {
    var text := Lexeme(doc, t);
    var n := DecodeInteger(text);
    if n.Some? then Read(Scalar(n.value, t), t.end)
    else if cfg.isDouble(text) then Read(Scalar(Real(text), t), t.end)
    else Failed(cur, t.end, ErrorInfo(NotANumber, t, None))
  }

  function DecodedError(d: Decoded, t: Token): ErrorInfo
    requires d.Bad?
  {
    ErrorInfo(d.message, t, Some(t.start + d.at))
  }

  function StringOutcome(doc: Text, t: Token, cur: Value): Outcome
    requires t.start + 2 <= t.end <= |doc|
  {
    var d := DecodeString(Lexeme(doc, t));
    if d.Bytes? then Read(Scalar(String(d.bytes), t), t.end)
    else Failed(cur, t.end, DecodedError(d, t))
  }

  /** The offset limit a container gets once its routine returned, whatever it returned. */
  function Limited(r: Outcome): Outcome {
    match r
    case Threw => Threw
    case Read(v, q) => Read(v.(limit := q), q)
    case Failed(v, q, e) => Failed(v.(limit := q), q, e)
  }

  /** readValue's switch on a token that opens no container. */
  function ScalarOutcome(cfg: Config, doc: Text, t: Token, cur: Value): (r: Outcome)
    requires t.start <= t.end <= |doc|
    requires t.kind == StringToken ==> t.start + 2 <= t.end
    requires t.kind != EndOfStream ==> t.start < t.end
    ensures Within(r, if t.kind == EndOfStream then t.end else t.end - 1, |doc|)
  {
    if t.kind == NumberToken then NumberOutcome(cfg, doc, t, cur)
    else if t.kind == StringToken then StringOutcome(doc, t, cur)
    else if t.kind == TrueToken then Read(Scalar(Boolean(true), t), t.end)
    else if t.kind == FalseToken then Read(Scalar(Boolean(false), t), t.end)
    else if t.kind == NullToken then Read(Scalar(Null, t), t.end)
    else if cfg.allowDropped && t.kind in {ArraySeparator, ObjectEnd, ArrayEnd} then
      // the token is un-read: the cursor moves back over its one byte
      Read(Value(Null, t.end - 2, t.end - 1), t.end - 1)
    else Failed(cur.(start := t.start, limit := t.end), t.end, ErrorInfo(ValueExpected, t, None))
  }

  /** The value with the element at `k` replaced. */
  function WithEntry(v: Value, k: Key, child: Value): Value
    requires IsContainer(v)
  {
    v.(payload := v.payload.(entries := Put(v.payload.entries, k, child)))
  }

  function SlotOf(v: Value, k: Key): Value
    requires IsContainer(v)
  {
    Slot(v.payload.entries, k)
  }

  /** What stands where a member name is expected: the closing brace, an error, or a name and its colon. */
  datatype NameResult =
    | NoMember(pos: nat)
    | BadName(pos: nat, error: ErrorInfo)
    | Named(name: Text, pos: nat)

  /** The start of a round of readObject's loop; `previous` is the last name read, empty at first. */
  function ReadName(doc: Text, p: nat, previous: Text): (r: NameResult)
    requires p <= |doc|
    ensures p <= r.pos <= |doc|
    ensures !r.BadName? ==> p < r.pos
  {
    var t := SkipComments(doc, p);
    if t.kind == ObjectEnd && previous == [] then NoMember(t.end)
    else if t.kind != StringToken then
      BadName(Recover(doc, t.end, ObjectEnd), ErrorInfo(MissingBraceOrName, t, None))
    else
      var d := DecodeString(Lexeme(doc, t));
      if d.Bad? then BadName(Recover(doc, t.end, ObjectEnd), DecodedError(d, t))
      else
        var colon := ReadToken(doc, t.end);
        if colon.kind == MemberSeparator then Named(d.bytes, colon.end)
        else BadName(Recover(doc, colon.end, ObjectEnd), ErrorInfo(MissingColon, colon, None))
  }

  /** What follows an element: the end of its container, another element, or an error. */
  datatype SeparatorResult =
    | Last(pos: nat)
    | More(pos: nat)
    | BadSeparator(pos: nat, error: ErrorInfo)

  /** In an object any token at all stands for the separator after a comment. */
  function AfterMember(doc: Text, p: nat): (r: SeparatorResult)
    requires p <= |doc|
    ensures p <= r.pos <= |doc|
    ensures !r.BadSeparator? ==> p < r.pos
  {
    var first := ReadToken(doc, p);
    if first.kind !in {ObjectEnd, ArraySeparator, Comment} then
      BadSeparator(Recover(doc, first.end, ObjectEnd), ErrorInfo(MissingCommaOrBrace, first, None))
    else
      var comma := SkipComments(doc, p);
      if comma.kind == ObjectEnd then Last(comma.end) else More(comma.end)
  }

  function AfterElement(doc: Text, p: nat): (r: SeparatorResult)
    requires p <= |doc|
    ensures p <= r.pos <= |doc|
    ensures !r.BadSeparator? ==> p < r.pos
  {
    var t := SkipComments(doc, p);
    if t.kind == ArrayEnd then Last(t.end)
    else if t.kind == ArraySeparator then More(t.end)
    else BadSeparator(Recover(doc, t.end, ArrayEnd), ErrorInfo(MissingCommaOrBracket, t, None))
  }

  /** readValue with `depth` nodes on the stack, the top one being `cur`. */
  function ReadValue(cfg: Config, doc: Text, depth: nat, p: nat, cur: Value): (r: Outcome)
    requires p <= |doc|
    ensures Within(r, p, |doc|)
    decreases |doc| - p, 0
  {
    if depth > cfg.stackLimit then Threw
    else
      var t := NextToken(cfg, doc, p);
      if t.kind == ObjectBegin then
        Limited(ReadMembers(cfg, doc, depth, t.end, Value(Object([]), t.start, cur.limit), []))
      else if t.kind == ArrayBegin then
        Limited(ReadArray(cfg, doc, depth, t.end, Value(Array([]), t.start, cur.limit)))
      else ScalarOutcome(cfg, doc, t, cur)
  }

  /** push, readValue, pop for the element at `k`, and the recovery when it failed. */
  function ReadChild(cfg: Config, doc: Text, depth: nat, p: nat, v: Value, k: Key, until: Kind): (r: Outcome)
    requires p <= |doc| && IsContainer(v)
    ensures Within(r, p, |doc|)
    ensures !r.Threw? ==> r.value.payload.Array? == v.payload.Array? && IsContainer(r.value)
    decreases |doc| - p, 1
  {
    match ReadValue(cfg, doc, depth + 1, p, SlotOf(v, k))
    case Threw => Threw
    case Read(w, q) => Read(WithEntry(v, k, w), q)
    case Failed(w, q, e) => Failed(WithEntry(v, k, w), Recover(doc, q, until), e)
  }

  /** One round of a container's loop: it ends the container or goes on with the container so far. */
  datatype Round = Stop(result: Outcome) | Continue(value: Value, pos: nat, name: Text)

  /** What a separator makes of a container whose last element was read well. */
  function AfterChild(v: Value, name: Text, s: SeparatorResult): Round {
    match s
    case Last(q) => Stop(Read(v, q))
    case BadSeparator(q, e) => Stop(Failed(v, q, e))
    case More(q) => Continue(v, q, name)
  }

  predicate RoundWithin(r: Round, lo: nat, hi: nat) {
    if r.Stop? then Within(r.result, lo, hi) else lo < r.pos <= hi
  }

  /** The value of the member called `name` and the separator after it. */
  function MemberValue(cfg: Config, doc: Text, depth: nat, p: nat, obj: Value, name: Text): (r: Round)
    requires p <= |doc| && obj.payload.Object?
    ensures if r.Stop? then Within(r.result, p, |doc|) else p <= r.pos <= |doc|
    ensures r.Continue? ==> r.value.payload.Object?
    decreases |doc| - p, 2
  {
    var child := ReadChild(cfg, doc, depth, p, obj, Name(name), ObjectEnd);
    if child.Read? then AfterChild(child.value, name, AfterMember(doc, child.pos)) else Stop(child)
  }

  /** A round of readObject's loop: `obj` holds the members so far, `name` the last name read. */
  function MemberRound(cfg: Config, doc: Text, depth: nat, p: nat, obj: Value, name: Text): (r: Round)
    requires p <= |doc| && obj.payload.Object?
    ensures RoundWithin(r, p, |doc|)
    ensures r.Continue? ==> r.value.payload.Object?
    decreases |doc| - p, 3
  {
    match ReadName(doc, p, name)
    case NoMember(q) => Stop(Read(obj, q))
    case BadName(q, e) => Stop(Failed(obj, q, e))
    case Named(n, m) => MemberValue(cfg, doc, depth, m, obj, n)
  }

  function ReadMembers(cfg: Config, doc: Text, depth: nat, p: nat, obj: Value, name: Text): (r: Outcome)
    requires p <= |doc| && obj.payload.Object?
    ensures Within(r, p, |doc|)
    decreases |doc| - p, 4
  {
    match MemberRound(cfg, doc, depth, p, obj, name)
    case Stop(o) => o
    case Continue(obj', q, n) => ReadMembers(cfg, doc, depth, q, obj', n)
  }

  /** readArray after the opening bracket. */
  function ReadArray(cfg: Config, doc: Text, depth: nat, p: nat, arr: Value): (r: Outcome)
    requires p <= |doc| && arr.payload.Array?
    ensures Within(r, p, |doc|)
    decreases |doc| - p, 4
  {
    var s := SkipSpaces(doc, p);
    if s < |doc| && doc[s] == RBRACKET then Read(arr, s + 1) else ReadElements(cfg, doc, depth, s, arr, 0)
  }

  /** A round of readArray's loop, at element `index`. */
  function ElementRound(cfg: Config, doc: Text, depth: nat, p: nat, arr: Value, index: nat): (r: Round)
    requires p <= |doc| && arr.payload.Array?
    ensures RoundWithin(r, p, |doc|)
    ensures r.Continue? ==> r.value.payload.Array?
    decreases |doc| - p, 2
  {
    var child := ReadChild(cfg, doc, depth, p, arr, Index(index), ArrayEnd);
    if child.Read? then AfterChild(child.value, [], AfterElement(doc, child.pos)) else Stop(child)
  }

  function ReadElements(cfg: Config, doc: Text, depth: nat, p: nat, arr: Value, index: nat): (r: Outcome)
    requires p <= |doc| && arr.payload.Array?
    ensures Within(r, p, |doc|)
    decreases |doc| - p, 3
  {
    match ElementRound(cfg, doc, depth, p, arr, index)
    case Stop(o) => o
    case Continue(arr', q, _) => ReadElements(cfg, doc, depth, q, arr', index + 1)
  }

  /** What parse makes of a document: an exception, or its verdict with the root and the error list. */
  datatype Verdict = Aborted | Parsed(ok: bool, root: Value, errors: seq<ErrorInfo>)

  function StrictError(doc: Text): ErrorInfo {
    ErrorInfo(ArrayOrObjectExpected, Token(ErrorToken, 0, |doc|), None)
  }

  function Parse(cfg: Config, doc: Text, root: Value): Verdict {
    match ReadValue(cfg, doc, 1, 0, root)
    case Threw => Aborted
    case Read(v, _) =>
      if cfg.strictRoot && !IsContainer(v) then Parsed(false, v, [StrictError(doc)]) else Parsed(true, v, [])
    case Failed(v, _, e) =>
      Parsed(false, v, if cfg.strictRoot && !IsContainer(v) then [e, StrictError(doc)] else [e])
  }

  // ---- how many errors ----

  /** After a failure the root is a container if the document opens one, or if it was one before. */
  lemma RootAfterFailure(cfg: Config, doc: Text, depth: nat, root: Value)
    requires ReadValue(cfg, doc, depth, 0, root).Failed?
    ensures IsContainer(ReadValue(cfg, doc, depth, 0, root).value) <==>
            NextToken(cfg, doc, 0).kind in {ObjectBegin, ArrayBegin} || IsContainer(root)
  {
    hide NextToken, DecodeString, DecodeInteger, ReadName, AfterMember, AfterElement;
    var t := NextToken(cfg, doc, 0);
    if t.kind == ObjectBegin {
      MembersKeepType(cfg, doc, depth, t.end, Value(Object([]), t.start, root.limit), []);
    } else if t.kind == ArrayBegin {
      var s := SkipSpaces(doc, t.end);
      ElementsKeepType(cfg, doc, depth, s, Value(Array([]), t.start, root.limit), 0);
    }
  }

  lemma {:induction false} MembersKeepType(cfg: Config, doc: Text, depth: nat, p: nat, obj: Value, name: Text)
    requires p <= |doc| && obj.payload.Object?
    ensures var r := ReadMembers(cfg, doc, depth, p, obj, name); r.Threw? || r.value.payload.Object?
    decreases |doc| - p
  {
    hide ReadChild, ReadName, AfterMember;
    var round, next := MemberRound(cfg, doc, depth, p, obj, name), ReadName(doc, p, name);
    if next.Named? {
      assert round == MemberValue(cfg, doc, depth, next.pos, obj, next.name);
    }
    if round.Continue? {
      MembersKeepType(cfg, doc, depth, round.pos, round.value, round.name);
    }
  }

  lemma {:induction false} ElementsKeepType(cfg: Config, doc: Text, depth: nat, p: nat, arr: Value, index: nat)
    requires p <= |doc| && arr.payload.Array?
    ensures var r := ReadElements(cfg, doc, depth, p, arr, index); r.Threw? || r.value.payload.Array?
    decreases |doc| - p
  {
    hide ReadChild, AfterElement;
    var round := ElementRound(cfg, doc, depth, p, arr, index);
    if round.Continue? {
      ElementsKeepType(cfg, doc, depth, round.pos, round.value, index + 1);
    }
  }

  /** Two errors exactly if strict root is on, reading failed, and neither the document opens a container nor the root
      was one before. */
  lemma TwoErrorsExactly(cfg: Config, doc: Text, root: Value)
    requires Parse(cfg, doc, root).Parsed?
    ensures var n := |Parse(cfg, doc, root).errors|;
            && n <= 2
            && (n == 2 <==>
                && cfg.strictRoot && ReadValue(cfg, doc, 1, 0, root).Failed?
                && NextToken(cfg, doc, 0).kind !in {ObjectBegin, ArrayBegin} && !IsContainer(root))
  {
    hide ReadValue, NextToken;
    if ReadValue(cfg, doc, 1, 0, root).Failed? {
      RootAfterFailure(cfg, doc, 1, root);
    }
  }

  /** The empty document gives two errors over a null root, one over a root that is an array already. */
  lemma EmptyDocumentErrors(cfg: Config, root: Value)
    requires cfg.strictRoot && 0 < cfg.stackLimit
    ensures Parse(cfg, [], root).Parsed?
    ensures |Parse(cfg, [], root).errors| == if IsContainer(root) then 1 else 2
  {
    assert NextToken(cfg, [], 0) == Token(EndOfStream, 0, 0);
  }
}
