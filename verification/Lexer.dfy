/** What one call of each Reader scanning routine does: a function of the document and the cursor. */
module Lexer {
  import opened Bytes

  datatype Kind =
    | EndOfStream
    | ObjectBegin
    | ObjectEnd
    | ArrayBegin
    | ArrayEnd
    | StringToken
    | NumberToken
    | TrueToken
    | FalseToken
    | NullToken
    | ArraySeparator
    | MemberSeparator
    | Comment
    | ErrorToken

  datatype Token = Token(kind: Kind, start: nat, end: nat)

  /** Outcome of a scan that may reject: the verdict and the new cursor. */
  datatype Scan = Scan(ok: bool, pos: nat)

  function SkipSpaces(doc: Text, p: nat): (q: nat)
    requires p <= |doc|
    ensures p <= q <= |doc|
    decreases |doc| - p
  {
    if p < |doc| && IsSpace(doc[p]) then SkipSpaces(doc, p + 1) else p
  }

  function ScanDigits(doc: Text, p: nat): (q: nat)
    requires p <= |doc|
    ensures p <= q <= |doc|
    decreases |doc| - p
  {
    if p < |doc| && IsDigit(doc[p]) then ScanDigits(doc, p + 1) else p
  }

  function ScanFraction(doc: Text, p: nat): (q: nat)
    requires p <= |doc|
    ensures p <= q <= |doc|
  {
    if p < |doc| && doc[p] == DOT then ScanDigits(doc, p + 1) else p
  }

  predicate IsExponentMark(b: Byte) {
    b == 0x65 || b == 0x45
  }

  predicate IsSign(b: Byte) {
    b == PLUS || b == MINUS
  }

  function ScanExponent(doc: Text, p: nat): (q: nat)
    requires p <= |doc|
    ensures p <= q <= |doc|
  {
    if p < |doc| && IsExponentMark(doc[p]) then
      ScanDigits(doc, if p + 1 < |doc| && IsSign(doc[p + 1]) then p + 2 else p + 1)
    else p
  }

  function ReadNumber(doc: Text, p: nat): (q: nat)
    requires p <= |doc|
    ensures p <= q <= |doc|
  {
    ScanExponent(doc, ScanFraction(doc, ScanDigits(doc, p)))
  }

  /** `p` is just after the opening quote; a backslash hides the byte after it. */
  function ReadString(doc: Text, p: nat): (r: Scan)
    requires p <= |doc|
    ensures p <= r.pos <= |doc|
    ensures r.ok ==> p < r.pos && doc[r.pos - 1] == QUOTE
    ensures !r.ok ==> r.pos == |doc|
    decreases |doc| - p
  {
    if p == |doc| then Scan(false, p)
    else if doc[p] == BACKSLASH then ReadString(doc, if p + 1 < |doc| then p + 2 else p + 1)
    else if doc[p] == QUOTE then Scan(true, p + 1)
    else ReadString(doc, p + 1)
  }

  function ReadCStyleComment(doc: Text, p: nat): (r: Scan)
    requires p <= |doc|
    ensures p <= r.pos <= |doc|
    ensures !r.ok ==> r.pos == |doc|
    decreases |doc| - p
  {
    if p + 1 < |doc| then
      if doc[p] == STAR && doc[p + 1] == SLASH then Scan(true, p + 2) else ReadCStyleComment(doc, p + 1)
    else if p < |doc| then Scan(doc[p] == SLASH, p + 1)
    else Scan(false, p)
  }

  function ReadCppStyleComment(doc: Text, p: nat): (q: nat)
    requires p <= |doc|
    ensures p <= q <= |doc|
    decreases |doc| - p
  {
    if p == |doc| then p
    else if doc[p] == LF then p + 1
    else if doc[p] == CR then if p + 1 < |doc| && doc[p + 1] == LF then p + 2 else p + 1
    else ReadCppStyleComment(doc, p + 1)
  }

  /** `p` is just after the first slash. */
  function ReadComment(doc: Text, p: nat): (r: Scan)
    requires p <= |doc|
    ensures p <= r.pos <= |doc|
  {
    if p == |doc| then Scan(false, p)
    else if doc[p] == STAR then ReadCStyleComment(doc, p + 1)
    else if doc[p] == SLASH then Scan(true, ReadCppStyleComment(doc, p + 1))
    else Scan(false, p + 1)
  }

  function Match(doc: Text, p: nat, pattern: Text): (r: Scan)
    requires p <= |doc|
    ensures p <= r.pos <= |doc|
  {
    if TextAt(doc, p, pattern) then Scan(true, p + |pattern|) else Scan(false, p)
  }

  function Accept(kind: Kind, s: nat, r: Scan): Token {
    Token(if r.ok then kind else ErrorToken, s, r.pos)
  }

  /** The token whose first byte is at `s`. A zero byte reads as the end of the stream. */
  function TokenAt(doc: Text, s: nat): (t: Token)
    requires s < |doc|
    ensures t.start == s < t.end <= |doc|
  {
    var c := doc[s];
    if c == LBRACE then Token(ObjectBegin, s, s + 1)
    else if c == RBRACE then Token(ObjectEnd, s, s + 1)
    else if c == LBRACKET then Token(ArrayBegin, s, s + 1)
    else if c == RBRACKET then Token(ArrayEnd, s, s + 1)
    else if c == QUOTE then Accept(StringToken, s, ReadString(doc, s + 1))
    else if c == SLASH then Accept(Comment, s, ReadComment(doc, s + 1))
    else if IsDigit(c) || c == MINUS then Token(NumberToken, s, ReadNumber(doc, s + 1))
    else if c == 0x74 then Accept(TrueToken, s, Match(doc, s + 1, TRUE_TEXT[1..]))
    else if c == 0x66 then Accept(FalseToken, s, Match(doc, s + 1, FALSE_TEXT[1..]))
    else if c == 0x6E then Accept(NullToken, s, Match(doc, s + 1, NULL_TEXT[1..]))
    else if c == COMMA then Token(ArraySeparator, s, s + 1)
    else if c == COLON then Token(MemberSeparator, s, s + 1)
    else if c == NUL then Token(EndOfStream, s, s + 1)
    else Token(ErrorToken, s, s + 1)
  }

  /** Every call either reports the end of the stream or moves the cursor forward. */
  function ReadToken(doc: Text, p: nat): (t: Token)
    requires p <= |doc|
    ensures p <= t.start <= t.end <= |doc|
    ensures t.kind != EndOfStream ==> p < t.end
    ensures t.kind == StringToken ==> t.start + 2 <= t.end
    ensures t.kind in {StringToken, NumberToken} ==> t.start < t.end
  {
    var s := SkipSpaces(doc, p);
    if s == |doc| then Token(EndOfStream, s, s) else TokenAt(doc, s)
  }

  /** The next token that is not a comment. */
  function SkipComments(doc: Text, p: nat): (t: Token)
    requires p <= |doc|
    ensures p <= t.start <= t.end <= |doc|
    ensures t.kind != EndOfStream ==> p < t.end
    ensures t.kind != Comment
    ensures t.kind == StringToken ==> t.start + 2 <= t.end
    ensures t.kind in {StringToken, NumberToken} ==> t.start < t.end
    ensures t.start <= |doc| && ReadToken(doc, t.start) == t
    decreases |doc| - p
  {
    var t := ReadToken(doc, p);
    ReadTokenFromStart(doc, p);
    if t.kind == Comment then SkipComments(doc, t.end) else t
  }

  /** Which kind of token a first byte announces; a string, a comment or a literal may turn out bad. */
  lemma TokenKinds(doc: Text, p: nat)
    requires p <= |doc|
    ensures var t := ReadToken(doc, p);
            && AllSpaces(doc[p..t.start])
            && if t.start == |doc| then t.kind == EndOfStream && t.end == |doc|
               else
                 match doc[t.start]
                 case 0x7B => t.kind == ObjectBegin && t.end == t.start + 1
                 case 0x7D => t.kind == ObjectEnd && t.end == t.start + 1
                 case 0x5B => t.kind == ArrayBegin && t.end == t.start + 1
                 case 0x5D => t.kind == ArrayEnd && t.end == t.start + 1
                 case 0x2C => t.kind == ArraySeparator && t.end == t.start + 1
                 case 0x3A => t.kind == MemberSeparator && t.end == t.start + 1
                 case 0x22 => t.kind in {StringToken, ErrorToken}
                 case 0x2F => t.kind in {Comment, ErrorToken}
                 case 0x74 => t.kind in {TrueToken, ErrorToken}
                 case 0x66 => t.kind in {FalseToken, ErrorToken}
                 case 0x6E => t.kind in {NullToken, ErrorToken}
                 case 0x00 => t.kind == EndOfStream && t.end == t.start + 1
                 case c =>
                   if 0x30 <= c <= 0x39 || c == 0x2D then t.kind == NumberToken
                   else t.kind == ErrorToken && t.end == t.start + 1
  {
    hide ReadString, ReadNumber, ReadComment, Match;
    SpacesOnly(doc, p);
    SkipSpacesStops(doc, p);
  }

  lemma {:induction false} SpacesOnly(doc: Text, p: nat)
    requires p <= |doc|
    ensures AllSpaces(doc[p..SkipSpaces(doc, p)])
    decreases |doc| - p
  {
    if p < |doc| && IsSpace(doc[p]) {
      SpacesOnly(doc, p + 1);
      var t, u := doc[p..SkipSpaces(doc, p)], doc[p + 1..SkipSpaces(doc, p)];
      assert forall i | 0 < i < |t| :: t[i] == u[i - 1];
    }
  }

  /** Reading again from a token's own first byte gives the same token. */
  lemma ReadTokenFromStart(doc: Text, p: nat)
    requires p <= |doc|
    ensures ReadToken(doc, ReadToken(doc, p).start) == ReadToken(doc, p)
  {
    SkipSpacesStops(doc, p);
  }

  lemma {:induction false} SkipSpacesStops(doc: Text, p: nat)
    requires p <= |doc|
    ensures var q := SkipSpaces(doc, p); SkipSpaces(doc, q) == q && (q < |doc| ==> !IsSpace(doc[q]))
    decreases |doc| - p
  {
    if p < |doc| && IsSpace(doc[p]) {
      SkipSpacesStops(doc, p + 1);
    }
  }

  /** readArray looks for the closing bracket without reading a token. */
  lemma BracketAhead(doc: Text, p: nat)
    requires p <= |doc|
    ensures var s := SkipSpaces(doc, p);
            s < |doc| && doc[s] == RBRACKET <==> ReadToken(doc, p).kind == ArrayEnd
    ensures ReadToken(doc, SkipSpaces(doc, p)) == ReadToken(doc, p)
  {
    SkipSpacesStops(doc, p);
  }

  /** Where error recovery leaves the cursor: after the next `until` token or the end of the stream. */
  function Recover(doc: Text, p: nat, until: Kind): (q: nat)
    requires p <= |doc|
    ensures p <= q <= |doc|
    decreases |doc| - p
  {
    var t := ReadToken(doc, p);
    if t.kind == until || t.kind == EndOfStream then t.end else Recover(doc, t.end, until)
  }
}
