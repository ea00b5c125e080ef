/** The BuiltStyledStreamWriter class: it lays a value out on a stream, buffering the texts of short arrays. */
module StyledWriter {
  import opened Bytes
  import opened Values
  import opened Spelling
  import opened StyledWriting
  import FastWriter
  import Escaping

  predicate Writable(v: Value) {
    Valid(v) && IsCounted(v)
  }

  class StyledWriter {
    const style: Style
    /** The stream. */
    var out: Text
    /** The texts of an array's elements, while its layout is being decided and once it is. */
    var childValues: seq<Text>
    var indentString: Text
    var addChildValues: bool
    var indented: bool

    constructor (style: Style)
      ensures this.style == style && out == [] && Settled()
    {
      this.style := style;
      out, childValues, indentString, addChildValues, indented := [], [], [], false, false;
    }

    /** Arrays are only buffered when comments are not kept. */
    ghost predicate Settled()
      reads this
    {
      style.allComments ==> childValues == [] && !addChildValues
    }

    /** The dense value `d` was written: to the buffer or laid out on the stream. */
    ghost predicate Wrote(d: Value, out0: Text, indented0: bool, children0: seq<Text>, add0: bool, indent0: Text)
      requires add0 ==> !IsFull(d)
      reads this
    {
      && Settled() && addChildValues == add0 && indentString == indent0
      && if add0 then
           out == out0 && indented == indented0 && childValues == children0 + [ShortText(style, d)]
         else
           out == out0 + StyledText(style, d, indent0, indented0) && (indented ==> indented0)
    }

    method PushValue(t: Text)
      modifies this`out, this`childValues
      ensures if addChildValues then out == old(out) && childValues == old(childValues) + [t]
              else out == old(out) + t && childValues == old(childValues)
    {
      if addChildValues {
        childValues := childValues + [t];
      } else {
        out := out + t;
      }
    }

    method WriteIndent()
      modifies this`out
      ensures out == old(out) + NewLine(style, indentString)
    {
      if style.indentation != [] {
        out := out + ([LF] + indentString);
      }
    }

    method WriteWithIndent(t: Text)
      modifies this`out, this`indented
      ensures !indented && out == old(out) + (Lead(style, indentString, old(indented)) + t)
    {
      if !indented {
        WriteIndent();
      }
      out := out + t;
      indented := false;
    }

    method Indent()
      modifies this`indentString
      ensures indentString == old(indentString) + style.indentation
    {
      indentString := indentString + style.indentation;
    }

    method Unindent()
      requires |indentString| >= |style.indentation|
      modifies this`indentString
      ensures indentString == old(indentString)[..|old(indentString)| - |style.indentation|]
    {
      indentString := indentString[..|indentString| - |style.indentation|];
    }

    method Write(root: Value) returns (text: Text)
      requires Writable(root) && Settled()
      modifies this
      ensures Settled()
      ensures text == out == Written(style, root)
    {
      out, addChildValues, indented, indentString := [], false, true, [];
      WriteValue(root);
      out := out + style.ending;
      text := out;
    }

    method WriteValue(v: Value)
      requires Writable(v) && Settled() && (addChildValues ==> !IsFull(Dense(v)))
      modifies this
      ensures Wrote(Dense(v), old(out), old(indented), old(childValues), old(addChildValues), old(indentString))
      decreases v, 4
    {
      if v.payload.Array? {
        WriteArrayValue(v);
      } else if v.payload.Object? {
        WriteObjectValue(v);
      } else {
        var t := FastWriter.ScalarToText(style.dropNull, v.payload);
        PushValue(t);
      }
    }

    /** writeValue(value[index]): the element, or the null that stands for a hole. */
    method WriteElement(v: Value, index: nat)
      requires Writable(v) && v.payload.Array? && index < Size32(v.payload.entries)
      requires Settled() && (addChildValues ==> !IsFull(Dense(v).payload.entries[index].value))
      modifies this
      ensures Wrote(Dense(v).payload.entries[index].value,
                    old(out), old(indented), old(childValues), old(addChildValues), old(indentString))
      decreases v, 0, 0
    {
      var es := v.payload.entries;
      var n := LowerBound(es, Index(index));
      if n < |es| && es[n].key == Index(index) {
        WriteValue(es[n].value);
      } else {
        var t := FastWriter.ScalarToText(style.dropNull, Null);
        PushValue(t);
      }
    }

    /** The pieces of a block, written one after the other, make up the block. */
    lemma BlockWritten(out0: Text, d: Value, indent: Text, indented0: bool, list: Text)
      requires IsContainer(d)
      ensures out0 + (Lead(style, indent, indented0) + BeginWord(d).text) + list +
              (NewLine(style, indent) + EndWord(d).text) ==
              out0 + (Lead(style, indent, indented0) + Block(style, d, indent, list))
    {
      var lead, begin, line, end := Lead(style, indent, indented0), BeginWord(d).text, NewLine(style, indent),
          EndWord(d).text;
      assert out0 + (lead + begin) + list + (line + end) == out0 + (lead + (begin + (list + line) + end));
    }

    method WriteObjectValue(v: Value)
      requires Writable(v) && v.payload.Object? && Settled() && (addChildValues ==> !IsFull(Dense(v)))
      modifies this
      ensures Wrote(Dense(v), old(out), old(indented), old(childValues), old(addChildValues), old(indentString))
      decreases v, 3
    {
      hide Dense, Joined, ElementLines, Writable;
      DenseSize(v);
      if v.payload.entries == [] {
        PushValue([LBRACE, RBRACE]);
        return;
      }
      ghost var lines := ElementLines(style, Dense(v), indentString + style.indentation);
      BlockWritten(out, Dense(v), indentString, indented, Joined([COMMA], lines));
      WriteWithIndent([LBRACE]);
      Indent();
      WriteMembers(v);
      Unindent();
      WriteWithIndent([RBRACE]);
    }

    method WriteMembers(v: Value)
      requires Writable(v) && v.payload.Object? && IsFull(v) && Settled() && !indented && !addChildValues
      modifies this
      ensures Settled() && !indented && !addChildValues && indentString == old(indentString)
      ensures out == old(out) + Joined([COMMA], ElementLines(style, Dense(v), indentString))
      decreases v, 2
    {
      ghost var lines := ElementLines(style, Dense(v), indentString);
      var i := 0;
      while true
        invariant i < |lines| && Settled() && !indented && !addChildValues && indentString == old(indentString)
        invariant out + FromPart([COMMA], lines, i) == old(out) + Joined([COMMA], lines)
        decreases |lines| - i
      {
        JoinRound(out, [COMMA], lines, i);
        WriteMember(v, i, lines);
        i := i + 1;
        if i == |v.payload.entries| {
          break;
        }
        out := out + [COMMA];
      }
    }

    method WriteMember(v: Value, i: nat, ghost lines: seq<Text>)
      requires Writable(v) && v.payload.Object? && i < |v.payload.entries| && Settled() && !indented && !addChildValues
      requires lines == ElementLines(style, Dense(v), indentString)
      modifies this
      ensures Settled() && !indented && !addChildValues && indentString == old(indentString)
      ensures out == old(out) + lines[i]
      decreases v, 0
    {
      var e := v.payload.entries[i];
      var name := Escaping.ValueToQuotedString(e.key.name);
      MemberWritten(out, NewLine(style, indentString), name, style.colon,
                    StyledText(style, Dense(e.value), indentString, false));
      WriteWithIndent(name);
      out := out + style.colon;
      WriteValue(e.value);
    }

    static lemma MemberWritten(out0: Text, line: Text, name: Text, colon: Text, text: Text)
      ensures out0 + (line + name) + colon + text == out0 + (line + (name + colon + text))
    {
    }

    method WriteArrayValue(v: Value)
      requires Writable(v) && v.payload.Array? && Settled() && (addChildValues ==> !IsFull(Dense(v)))
      modifies this
      ensures Wrote(Dense(v), old(out), old(indented), old(childValues), old(addChildValues), old(indentString))
      decreases v, 3
    {
      var size := Size32(v.payload.entries);
      if size == 0 {
        PushValue([LBRACKET, RBRACKET]);
        return;
      }
      var multiLine := true;
      if !style.allComments {
        multiLine := IsMultineArray(v);
      }
      if multiLine {
        WriteArrayBlock(v);
      } else {
        WriteLine(v);
      }
    }

    method WriteArrayBlock(v: Value)
      requires Writable(v) && v.payload.Array? && IsFull(Dense(v)) && Settled() && !addChildValues
      requires childValues == [] || (!HasFullElement(Dense(v)) && childValues == ShortTexts(style, Dense(v)))
      modifies this
      ensures Settled() && !indented && !addChildValues && indentString == old(indentString)
      ensures out == old(out) + (Lead(style, indentString, old(indented)) +
              Block(style, Dense(v), indentString,
                    Joined([COMMA], ElementLines(style, Dense(v), indentString + style.indentation))))
      decreases v, 2
    {
      hide Dense, Joined, ElementLines, Writable, ShortTexts;
      ghost var lines := ElementLines(style, Dense(v), indentString + style.indentation);
      BlockWritten(out, Dense(v), indentString, indented, Joined([COMMA], lines));
      WriteWithIndent([LBRACKET]);
      Indent();
      WriteElementLines(v);
      Unindent();
      WriteWithIndent([RBRACKET]);
    }

    /** The elements on lines of their own, from the buffer if it holds them. */
    method WriteElementLines(v: Value)
      requires Writable(v) && v.payload.Array? && IsFull(Dense(v)) && Settled() && !indented && !addChildValues
      requires childValues == [] || (!HasFullElement(Dense(v)) && childValues == ShortTexts(style, Dense(v)))
      modifies this
      ensures Settled() && !indented && !addChildValues && indentString == old(indentString)
      ensures out == old(out) + Joined([COMMA], ElementLines(style, Dense(v), indentString))
      decreases v, 1
    {
      var hasChildValue := childValues != [];
      ghost var lines, texts := ElementLines(style, Dense(v), indentString), childValues;
      var size := Size32(v.payload.entries);
      var index := 0;
      while true
        invariant index < size && Settled() && !indented && !addChildValues && indentString == old(indentString)
        invariant hasChildValue ==> childValues == texts
        invariant out + FromPart([COMMA], lines, index) == old(out) + Joined([COMMA], lines)
        decreases size - index
      {
        JoinRound(out, [COMMA], lines, index);
        WriteElementLine(v, index, hasChildValue, lines);
        index := index + 1;
        if index == size {
          break;
        }
        out := out + [COMMA];
      }
    }

    method WriteElementLine(v: Value, index: nat, hasChildValue: bool, ghost lines: seq<Text>)
      requires Writable(v) && v.payload.Array? && index < Size32(v.payload.entries)
      requires Settled() && !indented && !addChildValues && lines == ElementLines(style, Dense(v), indentString)
      requires hasChildValue ==> !HasFullElement(Dense(v)) && childValues == ShortTexts(style, Dense(v))
      modifies this
      ensures Settled() && !indented && !addChildValues && indentString == old(indentString)
      ensures out == old(out) + lines[index]
      ensures hasChildValue ==> childValues == old(childValues)
      decreases v, 0, 1
    {
      ghost var d := Dense(v).payload.entries[index].value;
      if hasChildValue {
        assert StyledText(style, d, indentString, true) == childValues[index];
        WriteWithIndent(childValues[index]);
      } else {
        WriteIndent();
        indented := true;
        Associate(old(out), NewLine(style, indentString), StyledText(style, d, indentString, true));
        WriteElement(v, index);
        indented := false;
      }
    }

    /** The buffered elements on one line. */
    method WriteLine(v: Value)
      requires Writable(v) && v.payload.Array? && !HasFullElement(Dense(v))
      requires childValues == ShortTexts(style, Dense(v))
      modifies this`out
      ensures out == old(out) + LineText(style, Dense(v))
    {
      var comma: Text := [COMMA] + Pad(style);
      LineWritten(out, Pad(style), Joined(comma, childValues));
      out := out + [LBRACKET];
      out := out + Pad(style);
      WriteBuffer(comma);
      out := out + Pad(style);
      out := out + [RBRACKET];
    }

    static lemma LineWritten(out0: Text, pad: Text, list: Text)
      ensures out0 + [LBRACKET] + pad + list + pad + [RBRACKET] ==
              out0 + ([LBRACKET] + pad + list + pad + [RBRACKET])
    {
    }

    method WriteBuffer(comma: Text)
      modifies this`out
      ensures out == old(out) + Joined(comma, childValues)
    {
      for index := 0 to |childValues|
        invariant out + Unjoined(comma, childValues, index) == old(out) + Joined(comma, childValues)
      {
        JoinOne(out, comma, childValues, index);
        if index > 0 {
          Associate(out, comma, childValues[index]);
          out := out + comma;
        }
        out := out + childValues[index];
      }
    }

    lemma DenseFull(v: Value)
      requires Writable(v)
      ensures IsFull(Dense(v)) ==
              ((v.payload.Array? && Size32(v.payload.entries) > 0)
               || (v.payload.Object? && |v.payload.entries| % INDEX_RANGE > 0))
    {
      hide Dense, Size32, Valid;
      if IsContainer(v) {
        DenseSize(v);
      }
    }

    lemma ElementWritable(v: Value, k: nat)
      requires Writable(v) && IsContainer(v) && k < |v.payload.entries|
      ensures Writable(v.payload.entries[k].value)
    {
    }

    lemma DenseElementFull(v: Value, i: nat)
      requires Writable(v) && v.payload.Array? && i < Size32(v.payload.entries)
      ensures var child := At(v.payload.entries, i);
              IsFull(Dense(v).payload.entries[i].value) ==
              ((child.payload.Array? && Size32(child.payload.entries) > 0)
               || (child.payload.Object? && |child.payload.entries| % INDEX_RANGE > 0))
    {
      hide Dense, Size32, LowerBound, Writable, IsFull;
      var es := v.payload.entries;
      var n := LowerBound(es, Index(i));
      DenseAt(v, i);
      if n < |es| && es[n].key == Index(i) {
        ElementWritable(v, n);
        DenseFull(es[n].value);
      } else {
        NullNotFull();
      }
    }

    lemma NullNotFull()
      ensures !IsFull(NULL_VALUE)
    {
    }

    /** Decides the layout; the buffer is left empty or with the texts of exactly this array's elements. */
    method IsMultineArray(v: Value) returns (multiLine: bool)
      requires Writable(v) && v.payload.Array? && IsFull(Dense(v)) && !addChildValues && !style.allComments
      modifies this
      ensures multiLine == IsMultiLine(style, Dense(v))
      ensures !addChildValues && indentString == old(indentString) && out == old(out) && indented == old(indented)
      ensures childValues == [] || (!HasFullElement(Dense(v)) && childValues == ShortTexts(style, Dense(v)))
      ensures !multiLine ==> !HasFullElement(Dense(v)) && childValues == ShortTexts(style, Dense(v))
      decreases v, 2
    {
      var size := Size32(v.payload.entries);
      multiLine := size * 3 % INDEX_RANGE >= RIGHT_MARGIN;
      childValues := [];
      if !multiLine {
        multiLine := FindFullElement(v);
      }
      if !multiLine {
        var lineLength := MeasureLine(v);
        multiLine := lineLength >= RIGHT_MARGIN;
      }
    }

    /** The loop that looks for an element that is itself a container with elements. */
    method FindFullElement(v: Value) returns (found: bool)
      requires Writable(v) && v.payload.Array?
      ensures found == HasFullElement(Dense(v))
    {
      hide Writable, At, Dense, IsFull, Size32;
      DenseSize(v);
      ghost var d := Dense(v);
      found := false;
      var index, size := 0, Size32(v.payload.entries);
      while index < size && !found
        invariant index <= size
        invariant found <==> exists k | 0 <= k < index :: IsFull(d.payload.entries[k].value)
      {
        var child := At(v.payload.entries, index);
        DenseElementFull(v, index);
        found := (child.payload.Array? && Size32(child.payload.entries) > 0)
                 || (child.payload.Object? && |child.payload.entries| % INDEX_RANGE > 0);
        index := index + 1;
      }
    }

    method BufferElement(v: Value, index: nat, ghost texts: seq<Text>)
      requires Writable(v) && v.payload.Array? && !HasFullElement(Dense(v)) && index < Size32(v.payload.entries)
      requires addChildValues && !style.allComments && texts == ShortTexts(style, Dense(v))
      modifies this
      ensures addChildValues && indentString == old(indentString) && out == old(out) && indented == old(indented)
      ensures childValues == old(childValues) + [texts[index]]
      decreases v, 0, 1
    {
      WriteElement(v, index);
    }

    lemma FullArraySize(v: Value)
      requires Writable(v) && v.payload.Array? && IsFull(Dense(v))
      ensures Size32(v.payload.entries) > 0
    {
    }

    /** The loop that buffers the texts of the elements and adds up the length of the line. */
    method MeasureLine(v: Value) returns (lineLength: int)
      requires Writable(v) && v.payload.Array? && IsFull(Dense(v)) && !HasFullElement(Dense(v))
      requires !addChildValues && !style.allComments && childValues == []
      modifies this
      ensures !addChildValues && indentString == old(indentString) && out == old(out) && indented == old(indented)
      ensures childValues == ShortTexts(style, Dense(v))
      ensures lineLength == LineLength(childValues, |childValues|) % INDEX_RANGE
      decreases v, 1
    {
      hide ShortTexts, HasFullElement, Writable, At;
      var index, size := 0, Size32(v.payload.entries);
      ghost var texts := ShortTexts(style, Dense(v));
      addChildValues := true;
      FullArraySize(v);
      lineLength := (4 + (size - 1) * 2) % INDEX_RANGE;
      while index < size
        invariant index <= size && childValues == texts[..index] && addChildValues
        invariant indentString == old(indentString) && out == old(out) && indented == old(indented)
        invariant lineLength == LineLength(texts, index) % INDEX_RANGE
      {
        BufferElement(v, index, texts);
        TakeOneMore(texts, index);
        lineLength := (lineLength + |childValues[index]|) % INDEX_RANGE;
        index := index + 1;
      }
      addChildValues := false;
    }
  }
}
