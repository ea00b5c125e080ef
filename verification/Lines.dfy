/** Line and column of a place in a document, against the text with every line end normalised. */
module Lines {
  import opened Bytes

  /** What follows the first byte, or the first line end. */
  function Rest(t: Text): (r: Text)
    requires t != []
    ensures |r| < |t|
  {
    if t[0] == CR && 1 < |t| && t[1] == LF then t[2..] else t[1..]
  }

  function Mark(c: Byte): Byte {
    if c == CR then LF else c
  }

  /** CR and CR LF become LF. */
  function Normalized(t: Text): Text {
    if t == [] then [] else [Mark(t[0])] + Normalized(Rest(t))
  }

  function LineFeeds(t: Text): nat {
    if t == [] then 0 else LineFeeds(t[..|t| - 1]) + if t[|t| - 1] == LF then 1 else 0
  }

  /** The length of the last, still open line. */
  function LastLine(t: Text): nat {
    if t == [] || t[|t| - 1] == LF then 0 else LastLine(t[..|t| - 1]) + 1
  }

  predicate EndsWithReturn(t: Text) {
    t != [] && t[|t| - 1] == CR
  }

  lemma RestOneMore(t: Text, c: Byte)
    requires t != []
    ensures if t == [CR] && c == LF then Rest(t + [c]) == [] else Rest(t + [c]) == Rest(t) + [c]
    ensures EndsWithReturn(t) <==> if Rest(t) == [] then t == [CR] else EndsWithReturn(Rest(t))
  {
  }

  lemma {:induction false} NormalizedOneMore(t: Text, c: Byte)
    ensures Normalized(t + [c]) ==
            if EndsWithReturn(t) && c == LF then Normalized(t) else Normalized(t) + [Mark(c)]
    decreases |t|
  {
    hide Mark, Rest, EndsWithReturn;
    if t == [] {
      assert EndsWithReturn([]) == false by { NoReturn(); }
      assert t + [c] == [c] && |Rest([c])| == 0;
    } else {
      RestOneMore(t, c);
      assert (t + [c])[0] == t[0];
      if t == [CR] && c == LF {
        assert |Rest(t)| == 0;
      } else {
        NormalizedOneMore(Rest(t), c);
        NoReturn();
        if Rest(t) == [] {
          assert Normalized(Rest(t)) == [];
        }
      }
    }
  }

  lemma NoReturn()
    ensures !EndsWithReturn([])
  {
  }

  lemma NothingToNormalize()
    ensures Normalized([]) == []
  {
  }

  lemma NormalizedStep(doc: Text, i: nat, end: nat)
    requires i < end <= |doc|
    ensures var next := if doc[i] == CR && i + 1 < end && doc[i + 1] == LF then i + 2 else i + 1;
            Normalized(doc[i..end]) == [Mark(doc[i])] + Normalized(doc[next..end])
  {
    var t, next := doc[i..end], if doc[i] == CR && i + 1 < end && doc[i + 1] == LF then i + 2 else i + 1;
    assert Rest(t) == doc[next..end];
  }

  method NormalizeEOL(doc: Text, begin: nat, end: nat) returns (normalized: Text)
    requires begin <= end <= |doc|
    ensures normalized == Normalized(doc[begin..end])
  {
    hide Normalized, Rest;
    normalized := [];
    var current := begin;
    assert doc[end..end] == [];
    NothingToNormalize();
    while current != end
      invariant begin <= current <= end
      invariant normalized + Normalized(doc[current..end]) == Normalized(doc[begin..end])
    {
      var c := doc[current];
      NormalizedStep(doc, current, end);
      current := current + 1;
      if c == CR {
        if current != end && doc[current] == LF {
          current := current + 1;
        }
        Associate(normalized, [LF], Normalized(doc[current..end]));
        normalized := normalized + [LF];
      } else {
        Associate(normalized, [c], Normalized(doc[current..end]));
        normalized := normalized + [c];
      }
    }
  }

  /** The byte the location routine sees at a place: the one after the document's end is whatever is there. */
  function ByteAt(doc: Text, beyond: Byte, p: nat): Byte
    requires p <= |doc|
  {
    if p == |doc| then beyond else doc[p]
  }

  /** The place is between a CR and the LF that belongs to it. */
  predicate SplitsLineEnd(doc: Text, beyond: Byte, p: nat)
    requires p <= |doc|
  {
    p > 0 && doc[p - 1] == CR && ByteAt(doc, beyond, p) == LF
  }

  /** One more byte of the document, seen in the normalised text. */
  lemma Step(doc: Text, p: nat)
    requires p < |doc|
    ensures var n, m := Normalized(doc[..p]), Normalized(doc[..p + 1]);
            if p > 0 && doc[p - 1] == CR && doc[p] == LF then m == n
            else if doc[p] == CR || doc[p] == LF then LineFeeds(m) == LineFeeds(n) + 1 && LastLine(m) == 0
            else LineFeeds(m) == LineFeeds(n) && LastLine(m) == LastLine(n) + 1
  {
    var n := Normalized(doc[..p]);
    NormalizedOneMore(doc[..p], doc[p]);
    TakeOneMore(doc, p);
    var c: Byte := if doc[p] == CR then LF else doc[p];
    assert (n + [c])[..|n|] == n;
  }

  /** The state of the scan: it counts the line ends before `current`, and may have stepped over the place
      when that is inside a line end. */
  predicate Tracks(doc: Text, beyond: Byte, location: nat, current: nat, lastLineStart: nat, line: nat)
    requires location <= |doc|
  {
    && lastLineStart <= current <= location + 1
    && if current <= location then
         && line == LineFeeds(Normalized(doc[..current]))
         && current - lastLineStart == LastLine(Normalized(doc[..current]))
         && !SplitsLineEnd(doc, beyond, current)
       else
         && line == LineFeeds(Normalized(doc[..location])) && lastLineStart == current
         && SplitsLineEnd(doc, beyond, location)
  }

  lemma TracksOn(doc: Text, beyond: Byte, location: nat, current: nat, lastLineStart: nat, line: nat)
    requires location <= |doc| && current < location && Tracks(doc, beyond, location, current, lastLineStart, line)
    ensures var c, next := doc[current], current + 1;
            if c == CR then
              var after := if ByteAt(doc, beyond, next) == LF then next + 1 else next;
              Tracks(doc, beyond, location, after, after, line + 1)
            else if c == LF then Tracks(doc, beyond, location, next, next, line + 1)
            else Tracks(doc, beyond, location, next, lastLineStart, line)
  {
    hide Normalized, LineFeeds, LastLine;
    Step(doc, current);
    if doc[current] == CR && current + 1 < |doc| {
      Step(doc, current + 1);
    }
  }

  /** The line is one more than the line ends before the place, whatever mix of them the document has; the column
      counts from the last one, and is 0 exactly inside a line end of two bytes. */
  method LocationLineAndColumn(doc: Text, beyond: Byte, location: nat) returns (line: nat, column: nat)
    requires location <= |doc|
    ensures line == 1 + LineFeeds(Normalized(doc[..location]))
    ensures column == if SplitsLineEnd(doc, beyond, location) then 0 else 1 + LastLine(Normalized(doc[..location]))
  {
    var current, lastLineStart := 0, 0;
    line := 0;
    while current < location && current != |doc|
      invariant Tracks(doc, beyond, location, current, lastLineStart, line)
    {
      hide Tracks;
      TracksOn(doc, beyond, location, current, lastLineStart, line);
      var c := doc[current];
      current := current + 1;
      if c == CR {
        if ByteAt(doc, beyond, current) == LF {
          current := current + 1;
        }
        lastLineStart := current;
        line := line + 1;
      } else if c == LF {
        lastLineStart := current;
        line := line + 1;
      }
    }
    column := location + 1 - lastLineStart;
    line := line + 1;
  }
}
