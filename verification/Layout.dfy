/** The styled text as its tokens one after the other: where lines break, how far each is indented, and which arrays
    stand on one line. */
module Layout {
  import opened Bytes
  import opened Values
  import opened Escaping
  import opened Spelling
  import opened Rendering
  import opened StyledWriting
  import opened Printed
  import FastWriting

  datatype Span = Empty | OnLine | OverLines

  datatype Role = Opening | Closing | Comma | Colon | Other

  /** A token as it is printed; brackets and commas know how their container is laid out. A dropped null has no text. */
  datatype Mark = Mark(text: Text, role: Role, span: Span)

  // ---- which arrays stand on one line ----

  /** The texts of the elements, each the texts of its tokens. */
  function OwnTexts(s: Style, v: Value): (ts: seq<Text>)
    requires IsContainer(v)
    ensures |ts| == |v.payload.entries|
  {
    var es := v.payload.entries;
    seq(|es|, i requires 0 <= i < |es| => TokenTexts(false, Words(s.dropNull, es[i].value)))
  }

  /** The array on one line, with spaces inside its brackets and after its commas. */
  function OwnLine(s: Style, v: Value): Text
    requires IsContainer(v)
  {
    [LBRACKET, SPACE] + Joined([COMMA, SPACE], OwnTexts(s, v)) + [SPACE, RBRACKET]
  }

  /** Fewer than 74 thirds, no container with elements inside, and a line of fewer than 74 bytes, in 32 bits. */
  predicate FitsOnLine(s: Style, v: Value)
    requires v.payload.Array?
  {
    && !s.allComments
    && |v.payload.entries| * 3 % 0x1_0000_0000 < 74
    && (forall i | 0 <= i < |v.payload.entries| ::
          var e := v.payload.entries[i].value; IsContainer(e) ==> e.payload.entries == [])
    && |OwnLine(s, v)| % 0x1_0000_0000 < 74
  }

  lemma ShortIsOwn(s: Style, v: Value)
    requires !IsFull(v)
    ensures ShortText(s, v) == TokenTexts(false, Words(s.dropNull, v))
  {
    var o := FastWriting.Options(false, s.dropNull, false);
    FastTextIs(o, v);
    if IsContainer(v) {
      assert FastWriting.ElementTexts(o, v) == [];
    }
  }

  lemma OwnTextsAreShort(s: Style, v: Value)
    requires IsContainer(v) && !HasFullElement(v)
    ensures OwnTexts(s, v) == ShortTexts(s, v)
  {
    hide ShortText, TokenTexts;
    forall i | 0 <= i < |v.payload.entries| ensures OwnTexts(s, v)[i] == ShortTexts(s, v)[i] {
      ShortIsOwn(s, v.payload.entries[i].value);
    }
  }

  /** Each element adds its length to the line, and two bytes are counted for each comma beforehand. */
  lemma {:induction false} LineGrows(sep: Text, ts: seq<Text>, i: nat)
    requires |sep| == 2 && i <= |ts|
    ensures LineLength(ts, |ts|) == LineLength(ts, i) + |Separated(sep, ts, i)| - 2 * (|ts| - i)
    decreases |ts| - i
  {
    if i < |ts| {
      LineGrows(sep, ts, i + 1);
    }
  }

  /** What isMultineArray adds up is the length of the line as it is printed. */
  lemma LineLengthIsOwn(s: Style, v: Value)
    requires IsContainer(v) && v.payload.entries != [] && !HasFullElement(v)
    ensures LineLength(ShortTexts(s, v), |v.payload.entries|) == |OwnLine(s, v)|
  {
    var ts := ShortTexts(s, v);
    OwnTextsAreShort(s, v);
    LineGrows([COMMA, SPACE], ts, 1);
    assert LineLength(ts, 1) == 4 + (|ts| - 1) * 2 + |ts[0]|;
  }

  lemma OnOneLineExactly(s: Style, v: Value)
    requires v.payload.Array? && v.payload.entries != []
    ensures OnOneLine(s, v) <==> FitsOnLine(s, v)
  {
    hide OwnLine, ShortTexts;
    if !HasFullElement(v) {
      LineLengthIsOwn(s, v);
    } else {
      var i :| 0 <= i < |v.payload.entries| && IsFull(v.payload.entries[i].value);
    }
  }

  // ---- tokens with the layout of their container ----

  function SpanOf(s: Style, v: Value): Span
    requires IsContainer(v)
  {
    if v.payload.entries == [] then Empty
    else if v.payload.Array? && FitsOnLine(s, v) then OnLine
    else OverLines
  }

  function OpenMark(s: Style, v: Value): Mark
    requires IsContainer(v)
  {
    Mark(if v.payload.Array? then [LBRACKET] else [LBRACE], Opening, SpanOf(s, v))
  }

  function CloseMark(s: Style, v: Value): Mark
    requires IsContainer(v)
  {
    Mark(if v.payload.Array? then [RBRACKET] else [RBRACE], Closing, SpanOf(s, v))
  }

  function CommaMark(span: Span): Mark {
    Mark([COMMA], Comma, span)
  }

  function KeyMarks(s: Style, k: Key): seq<Mark> {
    match k
    case Index(_) => []
    case Name(name) => [Mark(Quoted(name), Other, Empty), Mark(s.colon, Colon, Empty)]
  }

  function Marks(s: Style, v: Value): seq<Mark>
    decreases v, 1
  {
    if IsContainer(v) then
      [OpenMark(s, v)] + Joined([CommaMark(SpanOf(s, v))], ItemMarks(s, v)) + [CloseMark(s, v)]
    else [Mark(ScalarText(s.dropNull, v.payload), Other, Empty)]
  }

  function ItemMarks(s: Style, v: Value): (ms: seq<seq<Mark>>)
    requires IsContainer(v)
    ensures |ms| == |v.payload.entries|
    decreases v, 0
  {
    var es := v.payload.entries;
    seq(|es|, i requires 0 <= i < |es| => KeyMarks(s, es[i].key) + Marks(s, es[i].value))
  }

  // ---- printing them ----

  function Repeated(t: Text, n: int): Text
    decreases n
  {
    if n <= 0 then [] else Repeated(t, n - 1) + t
  }

  /** A line feed and `depth` times the indentation; nothing where there is no indentation at all. */
  function LineBreak(s: Style, depth: int): Text {
    if s.indentation == [] then [] else [LF] + Repeated(s.indentation, depth)
  }

  function Gap(s: Style, span: Span, depth: int): Text {
    match span
    case Empty => []
    case OnLine => if s.indentation == [] then [] else [SPACE]
    case OverLines => LineBreak(s, depth)
  }

  /** What is printed before a token when `depth` brackets are open: a gap after an opening bracket, after a comma and
      before a closing bracket, and a line break before a member's value that goes over lines. */
  function Before(s: Style, prev: Option<Mark>, m: Mark, depth: int): Text {
    if prev.None? then []
    else if m.role == Closing then Gap(s, m.span, depth - 1)
    else if prev.value.role in {Opening, Comma} then Gap(s, prev.value.span, depth)
    else if prev.value.role == Colon && m.role == Opening && m.span == OverLines then LineBreak(s, depth)
    else []
  }

  /** The number of brackets open after a token. */
  function Open(depth: int, m: Mark): int {
    if m.role == Opening then depth + 1 else if m.role == Closing then depth - 1 else depth
  }

  function OpenAfter(depth: int, ms: seq<Mark>): int
    decreases |ms|
  {
    if ms == [] then depth else OpenAfter(Open(depth, ms[0]), ms[1..])
  }

  /** The tokens one after the other, each with what stands before it; `prev` was printed last. */
  function Laid(s: Style, prev: Option<Mark>, ms: seq<Mark>, depth: int): Text
    decreases |ms|
  {
    if ms == [] then []
    else Before(s, prev, ms[0], depth) + ms[0].text + Laid(s, Some(ms[0]), ms[1..], Open(depth, ms[0]))
  }

  function LastOf(prev: Option<Mark>, ms: seq<Mark>): Option<Mark> {
    if ms == [] then prev else Some(ms[|ms| - 1])
  }

  lemma LaidFirst(s: Style, prev: Option<Mark>, m: Mark, rest: seq<Mark>, depth: int)
    ensures Laid(s, prev, [m] + rest, depth) ==
            Before(s, prev, m, depth) + m.text + Laid(s, Some(m), rest, Open(depth, m))
    ensures OpenAfter(depth, [m] + rest) == OpenAfter(Open(depth, m), rest)
    ensures LastOf(prev, [m] + rest) == LastOf(Some(m), rest)
  {
    hide Before, Open;
    assert ([m] + rest)[1..] == rest;
  }

  lemma NothingLaid(s: Style, prev: Option<Mark>, depth: int)
    ensures Laid(s, prev, [], depth) == [] && OpenAfter(depth, []) == depth && LastOf(prev, []) == prev
  {
  }

  lemma {:induction false} LaidConcat(s: Style, prev: Option<Mark>, a: seq<Mark>, b: seq<Mark>, depth: int)
    ensures Laid(s, prev, a + b, depth) ==
            Laid(s, prev, a, depth) + Laid(s, LastOf(prev, a), b, OpenAfter(depth, a))
    ensures OpenAfter(depth, a + b) == OpenAfter(OpenAfter(depth, a), b)
    decreases |a|
  {
    hide Before, Open, Laid, OpenAfter, LastOf;
    if a == [] {
      assert a + b == b;
      NothingLaid(s, prev, depth);
    } else {
      LaidConcat(s, Some(a[0]), a[1..], b, Open(depth, a[0]));
      assert a + b == [a[0]] + (a[1..] + b) && a == [a[0]] + a[1..];
      LaidFirst(s, prev, a[0], a[1..] + b, depth);
      LaidFirst(s, prev, a[0], a[1..], depth);
      Associate(Before(s, prev, a[0], depth) + a[0].text, Laid(s, Some(a[0]), a[1..], Open(depth, a[0])),
                Laid(s, LastOf(prev, a), b, OpenAfter(depth, a)));
    }
  }

  lemma OneLaid(s: Style, prev: Option<Mark>, m: Mark, depth: int)
    ensures Laid(s, prev, [m], depth) == Before(s, prev, m, depth) + m.text
    ensures OpenAfter(depth, [m]) == Open(depth, m)
  {
    hide Before, Open;
    assert Laid(s, Some(m), [m][1..], Open(depth, m)) == [];
    assert OpenAfter(Open(depth, m), [m][1..]) == Open(depth, m);
  }

  // ---- lists ----

  /** Something was printed that ends a value. */
  predicate Ends(prev: Option<Mark>) {
    prev.Some? && prev.value.role in {Closing, Other}
  }

  /** After an opening bracket or a comma of a container laid out as `span` the marks are printed as `text`. */
  ghost predicate PrintsAs(s: Style, span: Span, ms: seq<Mark>, text: Text, depth: int) {
    && ms != [] && Ends(LastOf(None, ms)) && OpenAfter(depth, ms) == depth
    && forall p: Mark | p.role in {Opening, Comma} && p.span == span :: Laid(s, Some(p), ms, depth) == text
  }

  lemma {:induction false} SeparatedLaid(s: Style, span: Span, prev: Option<Mark>, items: seq<seq<Mark>>,
                                         texts: seq<Text>, i: nat, depth: int)
    requires |items| == |texts| && i <= |items| && Ends(prev)
    requires forall k | 0 <= k < |items| :: PrintsAs(s, span, items[k], texts[k], depth)
    ensures var ms := Separated([CommaMark(span)], items, i);
            && Laid(s, prev, ms, depth) == Separated([COMMA], texts, i)
            && Ends(LastOf(prev, ms)) && OpenAfter(depth, ms) == depth
    decreases |items| - i
  {
    hide Laid, OpenAfter;
    if i == |items| {
      NothingLaid(s, prev, depth);
    } else {
      var comma, rest := CommaMark(span), Separated([CommaMark(span)], items, i + 1);
      SeparatedLaid(s, span, LastOf(None, items[i]), items, texts, i + 1, depth);
      OneLaid(s, prev, comma, depth);
      LaidConcat(s, prev, [comma], items[i], depth);
      LaidConcat(s, prev, [comma] + items[i], rest, depth);
      assert Before(s, prev, comma, depth) + comma.text == [COMMA];
      assert LastOf(prev, [comma]) == Some(comma);
      assert LastOf(prev, [comma] + items[i]) == LastOf(None, items[i]);
      assert LastOf(prev, [comma] + items[i] + rest) == LastOf(LastOf(None, items[i]), rest);
    }
  }

  /** A container around its items. */
  lemma ListLaid(s: Style, open: Mark, close: Mark, items: seq<seq<Mark>>, texts: seq<Text>, prev: Option<Mark>,
                 depth: int)
    requires |items| == |texts| > 0 && open.role == Opening && close.role == Closing && open.span == close.span
    requires forall k | 0 <= k < |items| :: PrintsAs(s, open.span, items[k], texts[k], depth + 1)
    ensures var ms := [open] + Joined([CommaMark(open.span)], items) + [close];
            && Laid(s, prev, ms, depth) ==
               Before(s, prev, open, depth) +
               (open.text + Joined([COMMA], texts) + Gap(s, open.span, depth) + close.text)
            && OpenAfter(depth, ms) == depth
  {
    hide Laid, OpenAfter, Gap;
    var list := Joined([CommaMark(open.span)], items);
    var first, rest := items[0], Separated([CommaMark(open.span)], items, 1);
    SeparatedLaid(s, open.span, LastOf(None, first), items, texts, 1, depth + 1);
    OneLaid(s, prev, open, depth);
    LaidConcat(s, Some(open), first, rest, depth + 1);
    LaidConcat(s, prev, [open], list, depth);
    LaidConcat(s, prev, [open] + list, [close], depth);
    assert LastOf(Some(open), first) == LastOf(None, first);
    assert LastOf(prev, [open]) == Some(open);
    assert LastOf(prev, [open] + list) == LastOf(LastOf(None, first), rest);
    OneLaid(s, LastOf(prev, [open] + list), close, depth + 1);
    Regroup(Before(s, prev, open, depth), open.text, Joined([COMMA], texts), Gap(s, open.span, depth), close.text);
  }

  lemma Regroup(a: Text, b: Text, c: Text, d: Text, e: Text)
    ensures a + b + c + (d + e) == a + (b + c + d + e)
  {
  }

  // ---- a whole value ----

  /** The elements of arrays have no names. */
  predicate IndexedArrays(v: Value) {
    match v.payload
    case Array(es) => forall i | 0 <= i < |es| :: es[i].key.Index? && IndexedArrays(es[i].value)
    case Object(es) => forall i | 0 <= i < |es| :: IndexedArrays(es[i].value)
    case _ => true
  }

  lemma {:induction false} DenseIndexed(v: Value)
    ensures IndexedArrays(Dense(v))
    decreases v
  {
    hide LowerBound;
    if IsContainer(v) {
      forall i | 0 <= i < |v.payload.entries| ensures IndexedArrays(Dense(v.payload.entries[i].value)) {
        DenseIndexed(v.payload.entries[i].value);
      }
    }
  }

  /** A block that is not indented yet starts on a line of its own. */
  lemma LeadFirst(s: Style, v: Value, depth: nat)
    ensures var indent := Repeated(s.indentation, depth);
            StyledText(s, v, indent, false) ==
            (if IsFull(v) && SpanOf(s, v) == OverLines then LineBreak(s, depth) else []) +
            StyledText(s, v, indent, true)
  {
    hide FitsOnLine, OnOneLine, Repeated;
    if v.payload.Array? && IsFull(v) {
      OnOneLineExactly(s, v);
    }
  }

  /** The text of an element of a list that is indented `depth` times. */
  function ItemText(s: Style, v: Value, i: nat, depth: nat): Text
    requires IsContainer(v) && i < |v.payload.entries|
  {
    var e, indent := v.payload.entries[i], Repeated(s.indentation, depth);
    if e.key.Name? then Quoted(e.key.name) + s.colon + StyledText(s, e.value, indent, false)
    else StyledText(s, e.value, indent, true)
  }

  lemma {:induction false} ValueLaid(s: Style, v: Value, prev: Option<Mark>, depth: nat)
    requires IndexedArrays(v)
    ensures var ms := Marks(s, v);
            && ms != [] && Ends(LastOf(None, ms)) && OpenAfter(depth, ms) == depth
            && Laid(s, prev, ms, depth) ==
               Before(s, prev, ms[0], depth) + StyledText(s, v, Repeated(s.indentation, depth), true)
    decreases v, 1
  {
    hide Laid, OpenAfter, Before, FitsOnLine, StyledText;
    var ms := Marks(s, v);
    if IsFull(v) {
      forall i | 0 <= i < |v.payload.entries|
        ensures PrintsAs(s, SpanOf(s, v), ItemMarks(s, v)[i],
                         Gap(s, SpanOf(s, v), depth + 1) + ItemText(s, v, i, depth + 1), depth + 1)
      {
        ItemLaid(s, v, i, SpanOf(s, v), depth + 1);
      }
      var texts := seq(|v.payload.entries|, i requires 0 <= i < |v.payload.entries| =>
        Gap(s, SpanOf(s, v), depth + 1) + ItemText(s, v, i, depth + 1));
      ListLaid(s, OpenMark(s, v), CloseMark(s, v), ItemMarks(s, v), texts, prev, depth);
      FullText(s, v, texts, depth);
    } else {
      ShortLaid(s, v, prev, depth);
    }
  }

  lemma {:induction false} ItemLaid(s: Style, v: Value, i: nat, span: Span, depth: nat)
    requires IndexedArrays(v) && IsContainer(v) && i < |v.payload.entries|
    ensures PrintsAs(s, span, ItemMarks(s, v)[i], Gap(s, span, depth) + ItemText(s, v, i, depth), depth)
    decreases v, 0
  {
    hide Laid, OpenAfter, Before, FitsOnLine, StyledText, Marks, Gap;
    var e := v.payload.entries[i];
    if e.key.Index? {
      assert ItemMarks(s, v)[i] == Marks(s, e.value);
      forall p: Mark | p.role in {Opening, Comma} && p.span == span
        ensures Laid(s, Some(p), Marks(s, e.value), depth) == Gap(s, span, depth) + ItemText(s, v, i, depth)
      {
        ValueLaid(s, e.value, Some(p), depth);
        FirstMark(s, e.value);
        AfterLead(s, p, Marks(s, e.value)[0], depth);
      }
      ValueLaid(s, e.value, None, depth);
    } else {
      MemberLaid(s, e, span, depth);
    }
  }

  lemma FirstMark(s: Style, v: Value)
    ensures Marks(s, v) != [] && Marks(s, v)[0].role != Closing
  {
    hide FitsOnLine;
  }

  lemma AfterLead(s: Style, p: Mark, m: Mark, depth: nat)
    requires p.role in {Opening, Comma} && m.role != Closing
    ensures Before(s, Some(p), m, depth) == Gap(s, p.span, depth)
  {
  }

  lemma {:induction false} MemberLaid(s: Style, e: Entry, span: Span, depth: nat)
    requires IndexedArrays(e.value) && e.key.Name?
    ensures PrintsAs(s, span, KeyMarks(s, e.key) + Marks(s, e.value),
                     Gap(s, span, depth) + (Quoted(e.key.name) + s.colon +
                                            StyledText(s, e.value, Repeated(s.indentation, depth), false)), depth)
    decreases e.value, 2
  {
    hide Laid, OpenAfter, Before, FitsOnLine, StyledText, Marks, Gap, Quoted, LineBreak;
    var name, colon := Mark(Quoted(e.key.name), Other, Empty), Mark(s.colon, Colon, Empty);
    var ms, indent := Marks(s, e.value), Repeated(s.indentation, depth);
    assert KeyMarks(s, e.key) + ms == [name] + ([colon] + ms);
    ValueLaid(s, e.value, Some(colon), depth);
    LeadFirst(s, e.value, depth);
    AfterColon(s, e.value, colon, depth);
    forall p: Mark | p.role in {Opening, Comma} && p.span == span
      ensures Laid(s, Some(p), [name] + ([colon] + ms), depth) ==
              Gap(s, span, depth) + (Quoted(e.key.name) + s.colon + StyledText(s, e.value, indent, false))
    {
      LaidConcat(s, Some(p), [name], [colon] + ms, depth);
      LaidConcat(s, Some(name), [colon], ms, depth);
      OneLaid(s, Some(p), name, depth);
      OneLaid(s, Some(name), colon, depth);
      AfterLead(s, p, name, depth);
      NoGap(s, name, colon, depth);
      RegroupMember(Gap(s, span, depth), name.text, colon.text, StyledText(s, e.value, indent, false));
    }
    LaidConcat(s, None, [name], [colon] + ms, depth);
    LaidConcat(s, Some(name), [colon], ms, depth);
    OneLaid(s, None, name, depth);
    OneLaid(s, Some(name), colon, depth);
  }

  lemma RegroupMember(a: Text, b: Text, c: Text, d: Text)
    ensures a + b + ([] + c + d) == a + (b + c + d)
  {
  }

  lemma NoGap(s: Style, prev: Mark, m: Mark, depth: int)
    requires prev.role == Other && m.role == Colon
    ensures Before(s, Some(prev), m, depth) == []
  {
  }

  lemma AfterColon(s: Style, v: Value, colon: Mark, depth: nat)
    requires colon.role == Colon
    ensures Marks(s, v) != []
    ensures Before(s, Some(colon), Marks(s, v)[0], depth) ==
            if IsFull(v) && SpanOf(s, v) == OverLines then LineBreak(s, depth) else []
  {
    hide FitsOnLine, LineBreak;
  }

  /** A scalar or an empty container. */
  lemma ShortLaid(s: Style, v: Value, prev: Option<Mark>, depth: nat)
    requires !IsFull(v)
    ensures var ms := Marks(s, v);
            && ms != [] && Ends(LastOf(None, ms)) && OpenAfter(depth, ms) == depth
            && Laid(s, prev, ms, depth) ==
               Before(s, prev, ms[0], depth) + StyledText(s, v, Repeated(s.indentation, depth), true)
  {
    hide Laid, OpenAfter, ScalarText;
    if IsContainer(v) {
      var open, close := OpenMark(s, v), CloseMark(s, v);
      assert Marks(s, v) == [open] + [close];
      LaidConcat(s, prev, [open], [close], depth);
      OneLaid(s, prev, open, depth);
      OneLaid(s, Some(open), close, depth + 1);
    } else {
      OneLaid(s, prev, Marks(s, v)[0], depth);
    }
  }

  /** A container with its elements in their places is its styled text. */
  lemma FullText(s: Style, v: Value, texts: seq<Text>, depth: nat)
    requires IsFull(v) && IndexedArrays(v) && |texts| == |v.payload.entries|
    requires forall i | 0 <= i < |texts| ::
               texts[i] == Gap(s, SpanOf(s, v), depth + 1) + ItemText(s, v, i, depth + 1)
    ensures OpenMark(s, v).text + Joined([COMMA], texts) + Gap(s, SpanOf(s, v), depth) + CloseMark(s, v).text ==
            StyledText(s, v, Repeated(s.indentation, depth), true)
  {
    hide FitsOnLine, StyledText;
    if SpanOf(s, v) == OnLine {
      LineIsText(s, v, texts, depth);
    } else {
      BlockIsText(s, v, texts, depth);
    }
  }

  lemma BlockIsText(s: Style, v: Value, texts: seq<Text>, depth: nat)
    requires IsFull(v) && SpanOf(s, v) == OverLines && |texts| == |v.payload.entries|
    requires forall i | 0 <= i < |texts| :: texts[i] == LineBreak(s, depth + 1) + ItemText(s, v, i, depth + 1)
    ensures OpenMark(s, v).text + Joined([COMMA], texts) + LineBreak(s, depth) + CloseMark(s, v).text ==
            StyledText(s, v, Repeated(s.indentation, depth), true)
  {
    hide FitsOnLine, OnOneLine;
    if v.payload.Array? {
      OnOneLineExactly(s, v);
    }
    var indent := Repeated(s.indentation, depth);
    assert Repeated(s.indentation, depth + 1) == indent + s.indentation;
    assert texts == ElementLines(s, v, indent + s.indentation);
    Associate(OpenMark(s, v).text, Joined([COMMA], texts), LineBreak(s, depth));
    var block := Block(s, v, indent, Joined([COMMA], texts));
    assert [] + block == block;
  }

  lemma {:induction false} PadsMove(pad: Text, ts: seq<Text>, us: seq<Text>, i: nat)
    requires |ts| == |us| && i <= |ts| && forall k | 0 <= k < |ts| :: us[k] == pad + ts[k]
    ensures Separated([COMMA], us, i) == Separated([COMMA] + pad, ts, i)
    decreases |ts| - i
  {
    if i < |ts| {
      PadsMove(pad, ts, us, i + 1);
    }
  }

  lemma LineIsText(s: Style, v: Value, texts: seq<Text>, depth: nat)
    requires IsFull(v) && IndexedArrays(v) && SpanOf(s, v) == OnLine && |texts| == |v.payload.entries|
    requires forall i | 0 <= i < |texts| :: texts[i] == Pad(s) + ItemText(s, v, i, depth + 1)
    ensures OpenMark(s, v).text + Joined([COMMA], texts) + Pad(s) + CloseMark(s, v).text ==
            StyledText(s, v, Repeated(s.indentation, depth), true)
  {
    hide FitsOnLine, OnOneLine, ShortText, StyledText;
    OnOneLineExactly(s, v);
    NothingFull(s, v);
    StyledLine(s, v, Repeated(s.indentation, depth));
    var ts := ShortTexts(s, v);
    forall i | 0 <= i < |texts| ensures texts[i] == Pad(s) + ts[i] {
      ShortStyled(s, v.payload.entries[i].value, Repeated(s.indentation, depth + 1));
    }
    PadsMove(Pad(s), ts, texts, 1);
    assert Joined([COMMA], texts) == Pad(s) + Joined([COMMA] + Pad(s), ts);
    Associate([LBRACKET], Pad(s), Joined([COMMA] + Pad(s), ts));
  }

  lemma StyledLine(s: Style, v: Value, indent: Text)
    requires IsFull(v) && v.payload.Array? && OnOneLine(s, v)
    ensures !HasFullElement(v) && StyledText(s, v, indent, true) == LineText(s, v)
  {
    hide LineText;
  }

  lemma ShortStyled(s: Style, v: Value, indent: Text)
    requires !IsFull(v)
    ensures StyledText(s, v, indent, true) == ShortText(s, v)
  {
    hide ShortText;
  }

  lemma NothingFull(s: Style, v: Value)
    requires v.payload.Array? && FitsOnLine(s, v)
    ensures !HasFullElement(v)
  {
    hide OwnLine;
  }

  /** The styled document: its tokens one after the other, with line breaks, indentation and spaces exactly where
      `Before` has them, and at the end what the style says. */
  lemma StyledWrittenExactly(s: Style, v: Value)
    ensures Written(s, v) == Laid(s, None, Marks(s, Dense(v)), 0) + s.ending
  {
    hide StyledText, Laid, Marks;
    DenseIndexed(v);
    ValueLaid(s, Dense(v), None, 0);
    assert [] + StyledText(s, Dense(v), [], true) == StyledText(s, Dense(v), [], true);
  }

  // ---- line feeds ----

  /** Texts and tokens in turn. */
  function Interleaved(gaps: seq<Text>, ms: seq<Mark>): Text {
    if gaps == [] || ms == [] then [] else gaps[0] + ms[0].text + Interleaved(gaps[1..], ms[1..])
  }

  /** How far a line is indented that starts with token `i`: by the brackets opened and not closed before it, one less
      if it closes one itself. */
  function IndentAt(ms: seq<Mark>, i: nat, depth: int): int
    requires i < |ms|
  {
    OpenAfter(depth, ms[..i]) - if ms[i].role == Closing then 1 else 0
  }

  predicate IsGap(s: Style, gap: Text, depth: int) {
    gap == [] || gap == [SPACE] || gap == [LF] + Repeated(s.indentation, depth)
  }

  lemma {:induction false} GapsOf(s: Style, prev: Option<Mark>, ms: seq<Mark>, depth: int) returns (gaps: seq<Text>)
    requires s.indentation != []
    ensures |gaps| == |ms| && Laid(s, prev, ms, depth) == Interleaved(gaps, ms)
    ensures forall i | 0 <= i < |ms| :: IsGap(s, gaps[i], IndentAt(ms, i, depth))
    decreases |ms|
  {
    hide IsGap, Before, Open;
    gaps := [];
    if ms != [] {
      var rest := GapsOf(s, Some(ms[0]), ms[1..], Open(depth, ms[0]));
      gaps := [Before(s, prev, ms[0], depth)] + rest;
      assert gaps[1..] == rest;
      FirstGap(s, prev, ms, depth);
      forall i | 0 < i < |ms| ensures IsGap(s, gaps[i], IndentAt(ms, i, depth)) {
        assert ms[1..][..i - 1] == ms[..i][1..];
        assert gaps[i] == rest[i - 1];
      }
    }
  }

  lemma FirstGap(s: Style, prev: Option<Mark>, ms: seq<Mark>, depth: int)
    requires s.indentation != [] && ms != []
    ensures IsGap(s, Before(s, prev, ms[0], depth), IndentAt(ms, 0, depth))
  {
  }

  /** What stands between the tokens of a styled document: nothing, a space, or a line feed with the indentation once
      for every bracket that is open there. */
  lemma LineFeedsIndent(s: Style, v: Value) returns (gaps: seq<Text>)
    requires s.indentation != []
    ensures var ms := Marks(s, Dense(v));
            && |gaps| == |ms| && Written(s, v) == Interleaved(gaps, ms) + s.ending
            && forall i | 0 <= i < |ms| :: IsGap(s, gaps[i], IndentAt(ms, i, 0))
  {
    hide Marks, Laid, Interleaved, IsGap;
    StyledWrittenExactly(s, v);
    gaps := GapsOf(s, None, Marks(s, Dense(v)), 0);
  }
}
