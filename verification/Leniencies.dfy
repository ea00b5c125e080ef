/** Numbers, comments and braces that the reader takes although JSON does not have them. */
module Leniencies {
  import opened Bytes
  import opened Values
  import opened Lexer
  import opened Decoding
  import opened Parsing
  import opened Numerals

  // ---- numbers ----

  /** A minus without digits is a number token, and the number is 0. */
  lemma LoneMinusIsZero(cfg: Config, root: Value)
    requires 0 < cfg.stackLimit
    ensures var r := Parse(cfg, [MINUS], root);
            r.Parsed? && r.root == Value(Int(0), 0, 1) && r.ok == !cfg.strictRoot
  {
    var doc: Text := [MINUS];
    assert ReadToken(doc, 0) == Token(NumberToken, 0, 1);
    NextIsRead(cfg, doc, 0);
    assert Lexeme(doc, Token(NumberToken, 0, 1)) == [MINUS];
    DecodeIntegerExact([MINUS]);
  }

  /** A leading zero does not count: `01` is 1. */
  lemma LeadingZeroAccepted(cfg: Config, root: Value)
    requires 0 < cfg.stackLimit
    ensures var r := Parse(cfg, [ZERO, ZERO + 1], root);
            r.Parsed? && r.root == Value(Int(1), 0, 2) && r.ok == !cfg.strictRoot
  {
    var doc: Text := [ZERO, ZERO + 1];
    assert ReadToken(doc, 0) == Token(NumberToken, 0, 2);
    NextIsRead(cfg, doc, 0);
    assert Lexeme(doc, Token(NumberToken, 0, 2)) == doc;
    DecodeIntegerExact(doc);
    assert Denoted(doc, 0, 0) == Denoted(doc, 1, 0);
    assert Denoted(doc, 1, 0) == Denoted(doc, 2, 1);
  }

  /** Parsing never looks past the root: `1 x` is 1. */
  lemma RestAccepted(cfg: Config, root: Value)
    requires 0 < cfg.stackLimit
    ensures var r := Parse(cfg, [ZERO + 1, 0x20, 0x78], root);
            r.Parsed? && r.root == Value(Int(1), 0, 1) && r.ok == !cfg.strictRoot
  {
    var doc: Text := [ZERO + 1, 0x20, 0x78];
    assert ReadToken(doc, 0) == Token(NumberToken, 0, 1);
    NextIsRead(cfg, doc, 0);
    assert Lexeme(doc, Token(NumberToken, 0, 1)) == [ZERO + 1];
    DecodeIntegerExact([ZERO + 1]);
    assert Denoted([ZERO + 1], 0, 0) == 1;
  }

  // ---- comments ----

  predicate TerminatorAt(doc: Text, k: int) {
    0 <= k && k + 1 < |doc| && doc[k] == STAR && doc[k + 1] == SLASH
  }

  /** A block comment closes at the first terminator; without one, exactly if the document's last byte is a slash. */
  lemma {:induction false} BlockCommentCloses(doc: Text, p: nat)
    requires p <= |doc|
    ensures var r := ReadCStyleComment(doc, p);
            && (r.ok <==> (exists k | p <= k < |doc| :: TerminatorAt(doc, k)) || (p < |doc| && doc[|doc| - 1] == SLASH))
            && (forall k | p <= k < r.pos - 2 :: !TerminatorAt(doc, k))
            && (r.pos < |doc| ==> p <= r.pos - 2 && TerminatorAt(doc, r.pos - 2))
    decreases |doc| - p
  {
    if p + 1 < |doc| && !TerminatorAt(doc, p) {
      BlockCommentCloses(doc, p + 1);
    }
  }

  // ---- members ----

  /** A closing brace where a name is expected is taken exactly if the last name is empty. */
  lemma BraceForName(cfg: Config, doc: Text, depth: nat, p: nat, obj: Value, name: Text)
    requires p <= |doc| && obj.payload.Object? && SkipComments(doc, p).kind == ObjectEnd
    ensures var r := ReadMembers(cfg, doc, depth, p, obj, name);
            if name == [] then r == Read(obj, SkipComments(doc, p).end)
            else r.Failed? && r.error.message == MissingBraceOrName
  {
    hide ReadToken, Recover;
    assert MemberRound(cfg, doc, depth, p, obj, name).Stop?;
  }
}
