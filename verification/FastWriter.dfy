/** The FastWriter class: it appends the compact text of a value to its document. */
module FastWriter {
  import opened Bytes
  import opened Values
  import opened Spelling
  import opened FastWriting
  import opened Rendering
  import Numerals
  import Escaping

  /** valueToString and valueToQuotedStringN, by type; a real keeps its text. */
  method ScalarToText(drop: bool, p: Payload) returns (t: Text)
    requires !p.Array? && !p.Object?
    requires p.Int? ==> INT_MIN <= p.i <= INT64_MAX
    requires p.UInt? ==> p.u <= UINT_MAX
    ensures t == ScalarText(drop, p)
  {
    match p {
      case Null => t := if drop then [] else NULL_TEXT;
      case Int(i) => t := Numerals.IntToString(i);
      case UInt(u) => t := Numerals.UintToText(u);
      case Real(lexeme) => t := lexeme;
      case String(s) => t := Escaping.ValueToQuotedString(s);
      case Boolean(b) => t := if b then TRUE_TEXT else FALSE_TEXT;
    }
  }

  lemma DenseElementText(o: Options, v: Value, i: nat)
    requires v.payload.Array? && i < Size32(v.payload.entries)
    ensures var es := v.payload.entries; var n := LowerBound(es, Index(i));
            ElementTexts(o, Dense(v))[i] ==
            if n < |es| && es[n].key == Index(i) then FastText(o, Dense(es[n].value)) else ScalarText(o.dropNull, Null)
  {
  }

  lemma DenseMemberText(o: Options, v: Value, i: nat)
    requires v.payload.Object? && i < |v.payload.entries|
    ensures var e := v.payload.entries[i];
            ElementTexts(o, Dense(v))[i] == KeyText(o, e.key) + FastText(o, Dense(e.value))
  {
  }

  class FastWriter {
    var options: Options
    var document: Text

    constructor ()
      ensures options == Options(false, false, false) && document == []
    {
      options, document := Options(false, false, false), [];
    }

    method EnableYAMLCompatibility()
      modifies this`options
      ensures options == old(options).(yamlCompatible := true)
    {
      options := options.(yamlCompatible := true);
    }

    method DropNullPlaceholders()
      modifies this`options
      ensures options == old(options).(dropNull := true)
    {
      options := options.(dropNull := true);
    }

    method OmitEndingLineFeed()
      modifies this`options
      ensures options == old(options).(omitEndingLineFeed := true)
    {
      options := options.(omitEndingLineFeed := true);
    }

    method Write(root: Value) returns (text: Text)
      requires Valid(root)
      modifies this`document
      ensures text == document == Written(options, root)
    {
      document := [];
      WriteValue(root);
      if !options.omitEndingLineFeed {
        document := document + [LF];
      }
      text := document;
    }

    method WriteValue(v: Value)
      requires Valid(v)
      modifies this`document
      ensures document == old(document) + FastText(options, Dense(v))
      decreases v, 2
    {
      if IsContainer(v) {
        WriteContainer(v);
      } else {
        var t := ScalarToText(options.dropNull, v.payload);
        document := document + t;
      }
    }

    method WriteContainer(v: Value)
      requires Valid(v) && IsContainer(v)
      modifies this`document
      ensures document == old(document) + FastText(options, Dense(v))
      decreases v, 1
    {
      var begin, end: Text := if v.payload.Array? then [LBRACKET] else [LBRACE],
                              if v.payload.Array? then [RBRACKET] else [RBRACE];
      ghost var list := Joined([COMMA], ElementTexts(options, Dense(v)));
      Associate(document, begin, list);
      Associate(document, begin + list, end);
      document := document + begin;
      if v.payload.Array? {
        WriteElements(v);
      } else {
        WriteMembers(v);
      }
      document := document + end;
    }

    method WriteElement(v: Value, index: nat)
      requires Valid(v) && v.payload.Array? && index < Size32(v.payload.entries)
      modifies this`document
      ensures document == old(document) + Piece([COMMA], ElementTexts(options, Dense(v)), index)
      decreases v, 0, 0
    {
      var es := v.payload.entries;
      ghost var text := ElementTexts(options, Dense(v))[index];
      DenseElementText(options, v, index);
      Associate(document, [COMMA], text);
      if index > 0 {
        document := document + [COMMA];
      }
      // value[index]: the element, or the null that stands for a hole
      var n := LowerBound(es, Index(index));
      if n < |es| && es[n].key == Index(index) {
        WriteValue(es[n].value);
      } else {
        var t := ScalarToText(options.dropNull, Null);
        document := document + t;
      }
    }

    method WriteElements(v: Value)
      requires Valid(v) && v.payload.Array?
      modifies this`document
      ensures document == old(document) + Joined([COMMA], ElementTexts(options, Dense(v)))
      decreases v, 0, 1
    {
      ghost var parts := ElementTexts(options, Dense(v));
      var size := Size32(v.payload.entries);
      for index := 0 to size
        invariant document + Unjoined([COMMA], parts, index) == old(document) + Joined([COMMA], parts)
      {
        JoinOne(document, [COMMA], parts, index);
        WriteElement(v, index);
      }
    }

    method WriteMember(v: Value, i: nat)
      requires Valid(v) && v.payload.Object? && i < |v.payload.entries|
      modifies this`document
      ensures document == old(document) + Piece([COMMA], ElementTexts(options, Dense(v)), i)
      decreases v, 0, 0
    {
      var e := v.payload.entries[i];
      ghost var text := ElementTexts(options, Dense(v))[i];
      DenseMemberText(options, v, i);
      Associate(document, [COMMA], text);
      if i > 0 {
        document := document + [COMMA];
      }
      var name := Escaping.ValueToQuotedString(e.key.name);
      var colon: Text := if options.yamlCompatible then [COLON, SPACE] else [COLON];
      Associate(document, name, colon);
      Associate(document, name + colon, FastText(options, Dense(e.value)));
      document := document + name;
      document := document + colon;
      WriteValue(e.value);
    }

    method WriteMembers(v: Value)
      requires Valid(v) && v.payload.Object?
      modifies this`document
      ensures document == old(document) + Joined([COMMA], ElementTexts(options, Dense(v)))
      decreases v, 0, 1
    {
      hide FastText;
      ghost var parts := ElementTexts(options, Dense(v));
      for i := 0 to |v.payload.entries|
        invariant document + Unjoined([COMMA], parts, i) == old(document) + Joined([COMMA], parts)
      {
        JoinOne(document, [COMMA], parts, i);
        WriteMember(v, i);
      }
    }
  }
}
