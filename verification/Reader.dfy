/** The Reader: a cursor over the document, a stack of the values being read and an error queue. */
module Reader {
  import opened Bytes
  import opened Values
  import opened Decoding
  import opened Parsing
  import Lexer

  type Token = Lexer.Token
  type Kind = Lexer.Kind

  /** A routine returned its verdict, or an exception left it. */
  datatype Status = Returned(ok: bool) | Thrown

  class Reader {
    const cfg: Config
    var doc: Text
    var current: nat
    var errors: seq<ErrorInfo>
    /** The stack of nodes: the current value, and those below it, the last one next to the top.
        A node is an element of the one below it: leaving it stores it there. */
    var top: Value
    var below: seq<Value>

    constructor (cfg: Config)
      ensures this.cfg == cfg && Valid() && errors == []
    {
      this.cfg := cfg;
      doc, current, errors, top, below := [], 0, [], NULL_VALUE, [];
    }

    /** begin <= current <= end */
    ghost predicate Valid()
      reads this
    {
      current <= |doc|
    }

    /** The number of nodes on the stack. */
    function Depth(): nat
      reads this
    {
      |below| + 1
    }

    /** The Reader ended a routine as `o` says; the routine started with these nodes below and these errors. */
    ghost predicate Ended(r: Status, before: seq<Value>, errs: seq<ErrorInfo>, o: Outcome)
      reads this
    {
      match o
      case Threw => r == Thrown
      case Read(v, q) => r == Returned(true) && current == q && top == v && below == before && errors == errs
      case Failed(v, q, e) =>
        r == Returned(false) && current == q && top == v && below == before && errors == errs + [e]
    }

    method Push(v: Value)
      modifies this`top, this`below
      ensures top == v && below == old(below) + [old(top)]
    {
      top, below := v, below + [top];
    }

    /** Leaves the element at `k` of the container below; its new content is stored there. */
    method Pop(k: Key)
      requires below != [] && IsContainer(below[|below| - 1])
      modifies this`top, this`below
      ensures below == old(below)[..|old(below)| - 1]
      ensures top == WithEntry(old(below)[|old(below)| - 1], k, old(top))
    {
      top, below := WithEntry(below[|below| - 1], k, top), below[..|below| - 1];
    }

    method AddError(message: Message, token: Token, extra: Option<nat>) returns (ok: bool)
      modifies this`errors
      ensures !ok && errors == old(errors) + [ErrorInfo(message, token, extra)]
    {
      errors := errors + [ErrorInfo(message, token, extra)];
      ok := false;
    }

    // ---- scanning ----

    method GetNextChar() returns (c: Byte)
      requires Valid()
      modifies this`current
      ensures Valid()
      ensures if old(current) == |doc| then c == NUL && current == |doc|
              else c == doc[old(current)] && current == old(current) + 1
    {
      if current == |doc| {
        return NUL;
      }
      c := doc[current];
      current := current + 1;
    }

    method SkipSpaces()
      requires Valid()
      modifies this`current
      ensures Valid() && current == Lexer.SkipSpaces(doc, old(current))
    {
      while current != |doc|
        invariant Valid() && Lexer.SkipSpaces(doc, current) == Lexer.SkipSpaces(doc, old(current))
        decreases |doc| - current
      {
        if !IsSpace(doc[current]) {
          break;
        }
        current := current + 1;
      }
    }

    method Match(pattern: Text) returns (ok: bool)
      requires Valid()
      modifies this`current
      ensures Valid() && Lexer.Scan(ok, current) == Lexer.Match(doc, old(current), pattern)
    {
      if |doc| - current < |pattern| {
        return false;
      }
      var index := |pattern|;
      while index > 0
        invariant 0 <= index <= |pattern|
        invariant forall i | index <= i < |pattern| :: doc[current + i] == pattern[i]
      {
        index := index - 1;
        if doc[current + index] != pattern[index] {
          assert doc[current..current + |pattern|][index] != pattern[index];
          return false;
        }
      }
      assert doc[current..current + |pattern|] == pattern;
      current := current + |pattern|;
      ok := true;
    }

    method ReadCStyleComment() returns (ok: bool)
      requires Valid()
      modifies this`current
      ensures Valid() && Lexer.Scan(ok, current) == Lexer.ReadCStyleComment(doc, old(current))
    {
      while current + 1 < |doc|
        invariant Valid() && Lexer.ReadCStyleComment(doc, current) == Lexer.ReadCStyleComment(doc, old(current))
        decreases |doc| - current
      {
        var c := GetNextChar();
        if c == STAR && doc[current] == SLASH {
          var slash := GetNextChar();
          return slash == SLASH;
        }
      }
      var c := GetNextChar();
      ok := c == SLASH;
    }

    method ReadCppStyleComment()
      requires Valid()
      modifies this`current
      ensures Valid() && current == Lexer.ReadCppStyleComment(doc, old(current))
    {
      while current != |doc|
        invariant Valid() && Lexer.ReadCppStyleComment(doc, current) == Lexer.ReadCppStyleComment(doc, old(current))
        decreases |doc| - current
      {
        var c := GetNextChar();
        if c == LF {
          return;
        }
        if c == CR {
          if current != |doc| && doc[current] == LF {
            var _ := GetNextChar();
          }
          return;
        }
      }
    }

    method ReadComment() returns (ok: bool)
      requires Valid()
      modifies this`current
      ensures Valid() && Lexer.Scan(ok, current) == Lexer.ReadComment(doc, old(current))
    {
      var c := GetNextChar();
      if c == STAR {
        ok := ReadCStyleComment();
      } else if c == SLASH {
        ReadCppStyleComment();
        ok := true;
      } else {
        ok := false;
      }
    }

    /** `c` is the byte at the cursor (zero at the end) and `p` the place after it. */
    ghost predicate Fetched(c: Byte, p: nat)
      reads this
    {
      && Valid()
      && if current < |doc| then c == doc[current] && p == current + 1 else c == NUL && p == current
    }

    method Fetch(p: nat) returns (c: Byte, q: nat)
      requires p <= |doc|
      modifies this`current
      ensures current == p && Fetched(c, q)
    {
      current := p;
      if p < |doc| {
        return doc[p], p + 1;
      }
      return NUL, p;
    }

    /** Fetches while the last byte fetched is a digit; a stopgap digit stands for the first one. */
    method FetchDigits(c0: Byte, p0: nat) returns (c: Byte, p: nat)
      requires Fetched(c0, p0) || (Valid() && IsDigit(c0) && p0 == current)
      modifies this`current
      ensures Fetched(c, p) && current == Lexer.ScanDigits(doc, old(current))
    {
      c, p := c0, p0;
      while IsDigit(c)
        invariant Fetched(c, p) || (Valid() && IsDigit(c) && p == current)
        invariant Lexer.ScanDigits(doc, current) == Lexer.ScanDigits(doc, old(current))
        decreases |doc| - p, IsDigit(c)
      {
        c, p := Fetch(p);
      }
    }

    method ReadNumber()
      requires Valid()
      modifies this`current
      ensures Valid() && current == Lexer.ReadNumber(doc, old(current))
    {
      hide Lexer.ScanDigits;
      var c, p := FetchDigits(ZERO, current);
      if c == DOT {
        c, p := Fetch(p);
        c, p := FetchDigits(c, p);
      }
      assert current == Lexer.ScanFraction(doc, Lexer.ScanDigits(doc, old(current)));
      if Lexer.IsExponentMark(c) {
        c, p := Fetch(p);
        if Lexer.IsSign(c) {
          c, p := Fetch(p);
        }
        c, p := FetchDigits(c, p);
      }
    }

    method ReadString() returns (ok: bool)
      requires Valid()
      modifies this`current
      ensures Valid() && Lexer.Scan(ok, current) == Lexer.ReadString(doc, old(current))
    {
      var c: Byte := NUL;
      while current != |doc|
        invariant Valid() && c != QUOTE
        invariant Lexer.ReadString(doc, current) == Lexer.ReadString(doc, old(current))
        decreases |doc| - current
      {
        c := GetNextChar();
        if c == BACKSLASH {
          var _ := GetNextChar();
        } else if c == QUOTE {
          return true;
        }
      }
      ok := c == QUOTE;
    }

    method ReadToken() returns (token: Token)
      requires Valid()
      modifies this`current
      ensures Valid() && token == Lexer.ReadToken(doc, old(current)) && current == token.end
    {
      SkipSpaces();
      var start := current;
      var c := GetNextChar();
      var ok := true;
      var kind := Lexer.ErrorToken;
      if c == LBRACE {
        kind := Lexer.ObjectBegin;
      } else if c == RBRACE {
        kind := Lexer.ObjectEnd;
      } else if c == LBRACKET {
        kind := Lexer.ArrayBegin;
      } else if c == RBRACKET {
        kind := Lexer.ArrayEnd;
      } else if c == QUOTE {
        kind := Lexer.StringToken;
        ok := ReadString();
      } else if c == SLASH {
        kind := Lexer.Comment;
        ok := ReadComment();
      } else if IsDigit(c) || c == MINUS {
        kind := Lexer.NumberToken;
        ReadNumber();
      } else if c == 0x74 {
        kind := Lexer.TrueToken;
        ok := Match(TRUE_TEXT[1..]);
      } else if c == 0x66 {
        kind := Lexer.FalseToken;
        ok := Match(FALSE_TEXT[1..]);
      } else if c == 0x6E {
        kind := Lexer.NullToken;
        ok := Match(NULL_TEXT[1..]);
      } else if c == COMMA {
        kind := Lexer.ArraySeparator;
      } else if c == COLON {
        kind := Lexer.MemberSeparator;
      } else if c == NUL {
        kind := Lexer.EndOfStream;
      } else {
        ok := false;
      }
      token := Lexer.Token(if ok then kind else Lexer.ErrorToken, start, current);
    }

    /** The loops that read on while the token is a comment. */
    method ReadPastComments(first: Token) returns (token: Token)
      requires Valid() && current == first.end
      modifies this`current
      ensures Valid() && current == token.end
      ensures token == if first.kind == Lexer.Comment then Lexer.SkipComments(doc, old(current)) else first
    {
      token := first;
      while token.kind == Lexer.Comment
        invariant Valid() && current == token.end
        invariant first.kind != Lexer.Comment ==> token == first
        invariant first.kind == Lexer.Comment ==>
                    Lexer.SkipComments(doc, old(current)) ==
                    if token.kind == Lexer.Comment then Lexer.SkipComments(doc, current) else token
        decreases |doc| - current, token.kind == Lexer.Comment
      {
        token := ReadToken();
      }
    }

    method SkipCommentTokens() returns (token: Token)
      requires Valid()
      modifies this`current
      ensures Valid() && token == NextToken(cfg, doc, old(current)) && current == token.end
    {
      token := ReadToken();
      if cfg.allowComments {
        token := ReadPastComments(token);
      }
    }

    method RecoverFromError(until: Kind) returns (ok: bool)
      requires Valid()
      modifies this`current, this`errors
      ensures Valid() && !ok && current == Lexer.Recover(doc, old(current), until) && errors == old(errors)
    {
      var errorCount := |errors|;
      while true
        invariant Valid() && errors == old(errors)
        invariant Lexer.Recover(doc, current, until) == Lexer.Recover(doc, old(current), until)
        decreases |doc| - current
      {
        var skip := ReadToken();
        if skip.kind == until || skip.kind == Lexer.EndOfStream {
          break;
        }
      }
      errors := errors[..errorCount];
      ok := false;
    }

    method AddErrorAndRecover(message: Message, token: Token, until: Kind) returns (ok: bool)
      requires Valid()
      modifies this`current, this`errors
      ensures Valid() && !ok && current == Lexer.Recover(doc, old(current), until)
      ensures errors == old(errors) + [ErrorInfo(message, token, None)]
    {
      ok := AddError(message, token, None);
      ok := RecoverFromError(until);
    }

    // ---- decoding ----

    method DecodeDouble(token: Token) returns (ok: bool, decoded: Payload)
      requires token.start <= token.end <= |doc|
      modifies this`errors
      ensures var text := Lexeme(doc, token);
              && ok == cfg.isDouble(text)
              && (ok ==> decoded == Real(text))
              && errors == old(errors) + if ok then [] else [ErrorInfo(NotANumber, token, None)]
    {
      var text := Lexeme(doc, token);
      decoded := Real(text);
      ok := cfg.isDouble(text);
      if !ok {
        ok := AddError(NotANumber, token, None);
      }
    }

    /** decodeNumber into a value. The 64-bit accumulator wraps in the source; here it is shown never to. */
    method DecodeNumberInto(token: Token) returns (ok: bool, decoded: Payload)
      requires token.start < token.end <= |doc|
      modifies this`errors
      ensures var text := Lexeme(doc, token); var n := DecodeInteger(text);
              && ok == (n.Some? || cfg.isDouble(text))
              && (ok ==> decoded == if n.Some? then n.value else Real(text))
              && errors == old(errors) + if ok then [] else [ErrorInfo(NotANumber, token, None)]
    {
      hide Accumulate;
      ghost var text := Lexeme(doc, token);
      var at := token.start;
      var negative := doc[at] == MINUS;
      assert doc[at] == text[0];
      if negative {
        at := at + 1;
      }
      var max := MaxMagnitude(negative);
      var threshold := max / 10;
      var value: nat := 0;
      while at < token.end
        invariant token.start <= at <= token.end && value <= max && errors == old(errors)
        invariant Accumulate(text, at - token.start, max, value) == Accumulate(text, if negative then 1 else 0, max, 0)
      {
        var c := doc[at];
        assert c == text[at - token.start];
        AccumulateStep(text, at - token.start, max, value);
        at := at + 1;
        if !IsDigit(c) {
          ok, decoded := DecodeDouble(token);
          return;
        }
        var digit := DigitValue(c);
        if value >= threshold {
          if value > threshold || at != token.end || digit > max % 10 {
            ok, decoded := DecodeDouble(token);
            return;
          }
        }
        assert value * 10 + digit <= max < TWO64;
        value := (value * 10 + digit) % TWO64;
      }
      AccumulateEnd(text, max, value);
      if negative && value == max {
        decoded := Int(INT_MIN);
      } else if negative {
        decoded := Int(0 - value);
      } else if value <= INT32_MAX {
        decoded := Int(value);
      } else {
        decoded := UInt(value);
      }
      ok := true;
    }

    method DecodeNumber(token: Token) returns (ok: bool)
      requires Valid() && token.start < token.end <= |doc| && current == token.end
      modifies this`top, this`below, this`errors
      ensures Ended(Returned(ok), old(below), old(errors), NumberOutcome(cfg, doc, token, old(top)))
    {
      var decoded;
      ok, decoded := DecodeNumberInto(token);
      if !ok {
        return;
      }
      top := Scalar(decoded, token);
    }

    /** Places in a token are given to the source as locations in the document. */
    method DecodeUnicodeEscapeSequence(token: Token, i: nat, end: nat) returns (ok: bool, next: nat, code: nat)
      requires token.start <= token.end <= |doc| && i <= end <= token.end - token.start
      modifies this`errors
      ensures var u := EscapeSequence(Lexeme(doc, token), i, end);
              if u.Unit? then ok && next == u.next && code == u.code && errors == old(errors)
              else !ok && errors == old(errors) + [ErrorInfo(u.message, token, Some(token.start + u.at))]
    {
      var text := Lexeme(doc, token);
      next, code := i, 0;
      if end - i < 4 {
        ok := AddError(FourDigitsExpected, token, Some(token.start + next));
        return;
      }
      for index := 0 to 4
        invariant next == i + index && errors == old(errors)
        invariant HexDigits(text, next, i + 4, code) == HexDigits(text, i, i + 4, 0)
      {
        var digit := HexValue(text[next]);
        next := next + 1;
        if digit.None? {
          ok := AddError(HexDigitExpected, token, Some(token.start + next));
          return;
        }
        code := code * 16 + digit.value;
      }
      ok := true;
    }

    method DecodeUnicodeCodePoint(token: Token, i: nat, end: nat) returns (ok: bool, next: nat, code: nat)
      requires token.start <= token.end <= |doc| && i <= end <= token.end - token.start
      modifies this`errors
      ensures var u := CodePoint(Lexeme(doc, token), i, end);
              if u.Unit? then ok && next == u.next && code == u.code && errors == old(errors)
              else !ok && errors == old(errors) + [ErrorInfo(u.message, token, Some(token.start + u.at))]
    {
      var text := Lexeme(doc, token);
      ok, next, code := DecodeUnicodeEscapeSequence(token, i, end);
      if !ok || !IsHighSurrogate(code) {
        return;
      }
      if end - next < 6 {
        ok := AddError(SixMoreCharactersExpected, token, Some(token.start + next));
        return;
      }
      next := next + 1;
      if text[next - 1] == BACKSLASH {
        next := next + 1;
        if text[next - 1] == 0x75 {
          var low;
          ok, next, low := DecodeUnicodeEscapeSequence(token, next, end);
          code := 0x1_0000 + code % 0x400 * 0x400 + low % 0x400;
          return;
        }
      }
      ok := AddError(SecondSurrogateExpected, token, Some(token.start + next));
    }

    /** The switch on the byte after a backslash. */
    method DecodeEscape(token: Token, i: nat, end: nat) returns (ok: bool, next: nat, piece: Text)
      requires token.start <= token.end <= |doc| && i <= end <= token.end - token.start
      modifies this`errors
      ensures var c := Decoding.DecodeEscape(Lexeme(doc, token), i, end);
              if c.Char? then ok && next == c.next && piece == c.bytes && errors == old(errors)
              else !ok && errors == old(errors) + [ErrorInfo(c.message, token, Some(token.start + c.at))]
    {
      next, piece := i, [];
      if i == end {
        ok := AddError(EmptyEscape, token, Some(token.start + next));
        return;
      }
      var escape := Lexeme(doc, token)[i];
      next := i + 1;
      if escape == 0x75 {
        var unicode;
        ok, next, unicode := DecodeUnicodeCodePoint(token, next, end);
        piece := CodePointToUTF8(unicode);
        return;
      }
      var plain := SimpleEscape(escape);
      if plain.None? {
        ok := AddError(BadEscape, token, Some(token.start + next));
        return;
      }
      ok, piece := true, [plain.value];
    }

    /** decodeString into a string. */
    method DecodeStringInto(token: Token) returns (ok: bool, decoded: Text)
      requires token.start + 2 <= token.end <= |doc|
      modifies this`errors
      ensures var d := Decoding.DecodeString(Lexeme(doc, token));
              if d.Bytes? then ok && decoded == d.bytes && errors == old(errors)
              else !ok && errors == old(errors) + [DecodedError(d, token)]
    {
      hide CodePointToUTF8, HexDigits;
      var text := Lexeme(doc, token);
      var i, end := 1, |text| - 1;
      decoded := [];
      while i != end
        invariant 1 <= i <= end && errors == old(errors)
        invariant Prepend(decoded, DecodeChars(text, i, end)) == DecodeChars(text, 1, end)
        decreases end - i
      {
        var c := text[i];
        if c == QUOTE {
          break;
        }
        var piece, next := [c], i + 1;
        if c == BACKSLASH {
          ok, next, piece := DecodeEscape(token, next, end);
          if !ok {
            return;
          }
        }
        DecodedSoFar(decoded, text, i, end, piece, next);
        i, decoded := next, decoded + piece;
      }
      assert decoded + [] == decoded;
      ok := true;
    }

    lemma DecodedSoFar(decoded: Text, t: Text, i: nat, end: nat, piece: Text, next: nat)
      requires i < end <= |t| && t[i] != QUOTE && DecodeChar(t, i, end) == Char(piece, next)
      ensures Prepend(decoded, DecodeChars(t, i, end)) == Prepend(decoded + piece, DecodeChars(t, next, end))
    {
    }

    method DecodeString(token: Token) returns (ok: bool)
      requires Valid() && token.start + 2 <= token.end <= |doc| && current == token.end
      modifies this`top, this`below, this`errors
      ensures Ended(Returned(ok), old(below), old(errors), StringOutcome(doc, token, old(top)))
    {
      var decoded;
      ok, decoded := DecodeStringInto(token);
      if !ok {
        return;
      }
      top := Scalar(String(decoded), token);
    }

    // ---- parsing ----

    /** readValue's switch on a token that opens no container. */
    method ReadScalar(token: Token) returns (ok: bool)
      requires Valid() && current == token.end && token.start <= token.end
      requires token.kind == Lexer.StringToken ==> token.start + 2 <= token.end
      requires token.kind != Lexer.EndOfStream ==> token.start < token.end
      modifies this`current, this`top, this`below, this`errors
      ensures Valid()
      ensures Ended(Returned(ok), old(below), old(errors), ScalarOutcome(cfg, doc, token, old(top)))
    {
      ok := true;
      if token.kind == Lexer.NumberToken {
        ok := DecodeNumber(token);
      } else if token.kind == Lexer.StringToken {
        ok := DecodeString(token);
      } else if token.kind == Lexer.TrueToken {
        top := Scalar(Boolean(true), token);
      } else if token.kind == Lexer.FalseToken {
        top := Scalar(Boolean(false), token);
      } else if token.kind == Lexer.NullToken {
        top := Scalar(Null, token);
      } else if token.kind in {Lexer.ArraySeparator, Lexer.ObjectEnd, Lexer.ArrayEnd} && cfg.allowDropped {
        current := current - 1;
        top := Value(Null, current - 1, current);
      } else {
        top := top.(start := token.start, limit := token.end);
        ok := AddError(ValueExpected, token, None);
      }
    }

    method ReadValue() returns (r: Status)
      requires Valid()
      modifies this`current, this`top, this`below, this`errors
      ensures Valid()
      ensures Ended(r, old(below), old(errors), Parsing.ReadValue(cfg, doc, old(Depth()), old(current), old(top)))
      decreases |doc| - current, 0
    {
      if Depth() > cfg.stackLimit {
        return Thrown;
      }
      var token := SkipCommentTokens();
      if token.kind == Lexer.ObjectBegin {
        r := ReadObject(token);
      } else if token.kind == Lexer.ArrayBegin {
        r := ReadArray(token);
      } else {
        var ok := ReadScalar(token);
        return Returned(ok);
      }
      if r.Returned? {
        top := top.(limit := current);
      }
    }

    /** Reads one element into the container on top of the stack: push, readValue, pop. */
    method ReadChild(k: Key, until: Kind) returns (r: Status)
      requires Valid() && IsContainer(top)
      modifies this`current, this`top, this`below, this`errors
      ensures Valid()
      ensures Ended(r, old(below), old(errors),
                    Parsing.ReadChild(cfg, doc, old(Depth()), old(current), old(top), k, until))
      decreases |doc| - current, 1
    {
      hide Parsing.ReadValue, Lexer.Recover, WithEntry;
      TakeAllButLast(below, top);
      Push(SlotOf(top, k));
      r := ReadValue();
      if r.Returned? {
        Pop(k);
        if !r.ok {
          var ok := RecoverFromError(until);
          r := Returned(ok);
        }
      }
    }

    /** The start of a round of readObject's loop. */
    method ReadName(previous: Text) returns (r: NameResult, ok: bool)
      requires Valid()
      modifies this`current, this`errors
      ensures Valid() && r == Parsing.ReadName(doc, old(current), previous) && current == r.pos
      ensures ok == !r.BadName?
      ensures errors == old(errors) + if r.BadName? then [r.error] else []
    {
      hide Lexer.ReadToken, Lexer.Recover, Decoding.DecodeString;
      var token := ReadToken();
      token := ReadPastComments(token);
      if token.kind == Lexer.ObjectEnd && previous == [] {
        return NoMember(current), true;
      }
      if token.kind != Lexer.StringToken {
        ok := AddErrorAndRecover(MissingBraceOrName, token, Lexer.ObjectEnd);
        return BadName(current, errors[|errors| - 1]), ok;
      }
      var name;
      ok, name := DecodeStringInto(token);
      if !ok {
        ok := RecoverFromError(Lexer.ObjectEnd);
        return BadName(current, errors[|errors| - 1]), ok;
      }
      var colon := ReadToken();
      if colon.kind != Lexer.MemberSeparator {
        ok := AddErrorAndRecover(MissingColon, colon, Lexer.ObjectEnd);
        return BadName(current, errors[|errors| - 1]), ok;
      }
      r := Named(name, current);
    }

    /** What readObject reads after a member's value. */
    method ReadMemberSeparator() returns (r: SeparatorResult, ok: bool)
      requires Valid()
      modifies this`current, this`errors
      ensures Valid() && r == AfterMember(doc, old(current)) && current == r.pos
      ensures ok == !r.BadSeparator?
      ensures errors == old(errors) + if r.BadSeparator? then [r.error] else []
    {
      var comma := ReadToken();
      if comma.kind !in {Lexer.ObjectEnd, Lexer.ArraySeparator, Lexer.Comment} {
        ok := AddErrorAndRecover(MissingCommaOrBrace, comma, Lexer.ObjectEnd);
        return BadSeparator(current, errors[|errors| - 1]), ok;
      }
      comma := ReadPastComments(comma);
      r, ok := if comma.kind == Lexer.ObjectEnd then Last(current) else More(current), true;
    }

    /** What readArray reads after an element. */
    method ReadElementSeparator() returns (r: SeparatorResult, ok: bool)
      requires Valid()
      modifies this`current, this`errors
      ensures Valid() && r == AfterElement(doc, old(current)) && current == r.pos
      ensures ok == !r.BadSeparator?
      ensures errors == old(errors) + if r.BadSeparator? then [r.error] else []
    {
      var token := ReadToken();
      token := ReadPastComments(token);
      if token.kind !in {Lexer.ArraySeparator, Lexer.ArrayEnd} {
        ok := AddErrorAndRecover(MissingCommaOrBracket, token, Lexer.ArrayEnd);
        return BadSeparator(current, errors[|errors| - 1]), ok;
      }
      r, ok := if token.kind == Lexer.ArrayEnd then Last(current) else More(current), true;
    }

    /** A round of a container's loop did what `o` says. */
    ghost predicate Went(again: bool, r: Status, before: seq<Value>, errs: seq<ErrorInfo>, o: Round)
      reads this
    {
      match o
      case Stop(outcome) => !again && Ended(r, before, errs, outcome)
      case Continue(v, q, _) => again && top == v && below == before && current == q && errors == errs
    }

    method ReadMemberValue(name: Text) returns (again: bool, r: Status)
      requires Valid() && top.payload.Object?
      modifies this`current, this`top, this`below, this`errors
      ensures Valid()
      ensures var o := MemberValue(cfg, doc, old(Depth()), old(current), old(top), name);
              Went(again, r, old(below), old(errors), o) && (o.Continue? ==> name == o.name)
      decreases |doc| - current, 2
    {
      again := false;
      r := ReadChild(Name(name), Lexer.ObjectEnd);
      if r == Returned(true) {
        var separator, ok := ReadMemberSeparator();
        again, r := separator.More?, Returned(ok);
      }
    }

    method ReadMember(previous: Text) returns (again: bool, name: Text, r: Status)
      requires Valid() && top.payload.Object?
      modifies this`current, this`top, this`below, this`errors
      ensures Valid()
      ensures var o := MemberRound(cfg, doc, old(Depth()), old(current), old(top), previous);
              Went(again, r, old(below), old(errors), o) && (o.Continue? ==> name == o.name)
      decreases |doc| - current, 3
    {
      hide Parsing.ReadName, Parsing.MemberValue;
      again, name := false, previous;
      var next, ok := ReadName(name);
      if !next.Named? {
        r := Returned(ok);
        return;
      }
      name := next.name;
      again, r := ReadMemberValue(name);
    }

    method ReadObject(tokenStart: Token) returns (r: Status)
      requires Valid() && current == tokenStart.end
      modifies this`current, this`top, this`below, this`errors
      ensures Valid()
      ensures Ended(r, old(below), old(errors),
                    ReadMembers(cfg, doc, old(Depth()), old(current),
                                Value(Object([]), tokenStart.start, old(top).limit), []))
      decreases |doc| - current, 4
    {
      top := Value(Object([]), tokenStart.start, top.limit);
      ghost var goal := ReadMembers(cfg, doc, Depth(), current, top, []);
      var name: Text := [];
      var again := true;
      r := Returned(true);
      while again
        invariant Valid()
        invariant again ==> old(current) <= current && top.payload.Object?
        invariant again ==> below == old(below) && errors == old(errors)
        invariant again ==> ReadMembers(cfg, doc, Depth(), current, top, name) == goal
        invariant !again ==> Ended(r, old(below), old(errors), goal)
        decreases again, |doc| - current
      {
        again, name, r := ReadMember(name);
      }
    }

    method ReadElement(index: nat) returns (again: bool, r: Status)
      requires Valid() && top.payload.Array?
      modifies this`current, this`top, this`below, this`errors
      ensures Valid()
      ensures Went(again, r, old(below), old(errors),
                   ElementRound(cfg, doc, old(Depth()), old(current), old(top), index))
      decreases |doc| - current, 2
    {
      again := false;
      r := ReadChild(Index(index), Lexer.ArrayEnd);
      if r == Returned(true) {
        var separator, ok := ReadElementSeparator();
        again, r := separator.More?, Returned(ok);
      }
    }

    method ReadArray(tokenStart: Token) returns (r: Status)
      requires Valid() && current == tokenStart.end
      modifies this`current, this`top, this`below, this`errors
      ensures Valid()
      ensures Ended(r, old(below), old(errors),
                    Parsing.ReadArray(cfg, doc, old(Depth()), old(current),
                                      Value(Array([]), tokenStart.start, old(top).limit)))
      decreases |doc| - current, 3
    {
      top := Value(Array([]), tokenStart.start, top.limit);
      SkipSpaces();
      if current != |doc| && doc[current] == RBRACKET {
        Lexer.SkipSpacesStops(doc, old(current));
        var _ := ReadToken();
        return Returned(true);
      }
      ghost var goal := ReadElements(cfg, doc, Depth(), current, top, 0);
      var index := 0;
      var again := true;
      r := Returned(true);
      while again
        invariant Valid()
        invariant again ==> old(current) <= current && top.payload.Array?
        invariant again ==> below == old(below) && errors == old(errors)
        invariant again ==> ReadElements(cfg, doc, Depth(), current, top, index) == goal
        invariant !again ==> Ended(r, old(below), old(errors), goal)
        decreases again, |doc| - current
      {
        again, r := ReadElement(index);
        index := index + 1;
      }
    }

    /** parse over a byte range, with comments not collected. */
    method Parse(document: Text, root0: Value) returns (r: Status, root: Value)
      modifies this
      ensures match Parsing.Parse(cfg, document, root0)
              case Aborted => r == Thrown
              case Parsed(ok, v, es) => r == Returned(ok) && root == v && errors == es
      ensures r.Returned? ==> below == [] && (r.ok <==> Good())
      ensures r.Returned? && !r.ok ==> 1 <= |errors| <= 2
      ensures r.Returned? ==>
                (|errors| == 2 <==>
                 && cfg.strictRoot && Parsing.ReadValue(cfg, document, 1, 0, root0).Failed? && !IsContainer(root))
    {
      doc, current, errors, top, below := document, 0, [], root0, [];
      r := ReadValue();
      root := root0;
      if r.Thrown? {
        return;
      }
      root := top;
      var token := SkipCommentTokens();
      if cfg.strictRoot && !IsContainer(root) {
        var ok := AddError(ArrayOrObjectExpected, Lexer.Token(Lexer.ErrorToken, 0, |doc|), None);
        return Returned(ok), root;
      }
    }

    predicate Good()
      reads this
    {
      |errors| == 0
    }
  }
}
