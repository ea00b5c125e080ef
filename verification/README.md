# A verified model of the JSON engine and the address-space traversal

The C++ wrapper around open62541 carries a complete JSON engine, `src/jsoncpp.cpp`, and a few routines of its own that
walk and extend an OPC UA address space. This project models both and proves what they promise.

**JSON.** `Lexer`, `Decoding` and `Parsing` say, as functions of the document and the cursor, what each routine of
`Reader` does: tokens, numbers, strings, objects, arrays, error recovery, the stack limit (`stackLimit`, 1000 as
compiled), dropped placeholders. The class in `Reader` is the code itself, with its cursor, node stack and error list,
proved equal to these functions. `FastWriter` and `StyledWriter` are the two printers with their state, proved against
`FastWriting` and `StyledWriting`. `Values`, `OrderedMap` and `ValueOrder` hold the value type, its ordered map and
`operator<`; `ValueCells` changes arrays in place and `ArrayOperations` says what becomes of them. The main results:

- round trips: `RoundTripTheorems.FastRoundTrip` and `RoundTripTheorems.StyledRoundTrip`, with
  `RoundTripTheorems.DenseViewExactly` for when the dense view comes back, `RoundTripTheorems.IdentityExactly` for when
  the value itself does, and `Reparsing.ReparseIsIdentity` starting from any accepted document;
- acceptance: `Acceptance.AcceptedExactly`, for every JSON text of the grammar in RFC 8259 (`Grammar`),
  `Comments.AcceptedWithComments` for the same texts with comments, `Errors.ErrorsAre` for what is refused;
- what is printed: `Printed.FastWrittenExactly`, `Layout.StyledWrittenExactly`, `Layout.OnOneLineExactly`; layout never
  changes meaning: `StyledWriting.LayoutKeepsTokens`;
- acceptance of nothing else: `Soundness.AcceptedOnly`, by the relaxed grammar of `RelaxedGrammar`, with
  `Trailing.RestIgnored` for what follows the root, and `Separators.CommaMissingExactly` and
  `Separators.TrailingCommaExactly` for what may stand between members;
- the slice law, dropped placeholders included: `SliceLaw.SliceLaw`;
- errors, stack and limit: `Reader.Reader.Parse`, `Parsing.TwoErrorsExactly`, `Limits.DepthExactly`;
- strings and numbers: `Acceptance.StringMeans`, `Escaping.DecodeQuoted`, `Unicode.EscapesDecode`, `Numerals.DecodeIntegerExact`;
- ordering: `ValueOrder.Trichotomy`, `ValueOrder.StrictTotalOrder`;
- arrays: `ArrayOperations.RemovedFinds`, `ArrayOperations.ResizedSizeExactly`;
- places in the text: `Lines.LocationLineAndColumn`.

Two texts read alike when they spell the same words. `Spelling.Spells` says that the lexer, started anywhere, finds
given words up to a place; `Rendering` builds texts that spell their words wherever they stand. That carries both
writers, whatever their layout, to the parser.

**Address space.** `Graphs` has the finite graph of references and what is reachable in it, `Browsing` the depth-first
browse into a `NodeIdMap` and the deletion of a tree, `Paths` and `FolderPaths` the lookup and creation of folder paths,
`AddressSpaces` the library underneath: references are data, and adding a folder is refused or adds a fresh node at a
place that the library chooses.

**Where the code and its documentation differ** the model follows the code:

- `include/open62541cpp/json.h:756` calls assignment a deep copy; it swaps, so `append` leaves its argument null
  (`ValueCells.ValueCell.Append`).
- `include/open62541cpp/json.h:838-843` promises any size after `resize`; shrinking an array into its holes throws
  (`ArrayOperations.ShrinkSizeExactly`).
- `include/open62541cpp/json.h:1463-1466` speaks of one error; strict root can add a second (`Parsing.TwoErrorsExactly`).
- `size()` is the last index + 1 in 32 bits: an array with an element at index 2^32-1 is written as an empty one
  (`RoundTripTheorems.LastIndexWritten`).
- `operator<` subtracts sizes in 32 bits: it is an order on containers only while their sizes are less than 2^31 apart
  (`ValueOrder.FarApart`).
- the class comment of `NodeIdMap` speaks of a map of names; two different nodes can have one name, and then one of them
  is neither collected nor deleted (`Browsing.CollisionLosesNode`).
- the accepted documents are more than JSON. All of them are texts of `RelaxedGrammar` with any rest after them:
  comments, numbers such as `01` and `-`, control bytes in strings, any token for the comma after a comment, a comma
  after a member with an empty name, nulls without a text.

`StyledWriter` here is the source's `BuiltStyledStreamWriter`; the two classes of the source with similar names are not
modelled. Lemmas that only carry a proof have no row below. `hide` at the head of a body keeps definitions that the
proof does not need out of the solver's sight.

## Model

| member | source | states |
|---|---|---|
| `Lexer.ReadToken` | src/jsoncpp.cpp:496-566 | every call stays inside the document and either reports the end of the stream or moves the cursor forward; string tokens have both quotes |
| `Lexer.TokenKinds` | src/jsoncpp.cpp:496-566 | only white space stands before a token, and its first byte announces its kind |
| `Lexer.SkipComments` | src/jsoncpp.cpp:484-494 | the next token that is no comment, inside the document, and reading again from its first byte gives the same token |
| `Lexer.BracketAhead` | src/jsoncpp.cpp:772-778 | readArray's look at the next byte agrees with reading a token: it sees `]` exactly when the next token is the array end |
| `Lexer.Recover` | src/jsoncpp.cpp:1003-1015 | error recovery terminates and leaves the cursor inside the document, not before where it started |
| `Lexer.ReadCStyleComment` | src/jsoncpp.cpp:649-657 | the scan stays inside the document, and a comment that does not close has consumed all of it |
| `Parsing.ReadValue` | src/jsoncpp.cpp:407-482 | whatever readValue does, the cursor ends in the document and not before where it started, although a dropped placeholder un-reads a token |
| `Parsing.ReadName` | src/jsoncpp.cpp:719-745 | a member name, a closing brace or an error; on success the cursor has advanced |
| `Parsing.AfterMember` | src/jsoncpp.cpp:753-763 | what follows a member; a closing brace moves the cursor on |
| `Parsing.AfterElement` | src/jsoncpp.cpp:788-799 | what follows an element; on success the cursor has advanced |
| `Reader.Reader.GetNextChar` | src/jsoncpp.cpp:1028-1033 | never reads past the end: there it gives a zero and stays |
| `Reader.Reader.SkipSpaces` | src/jsoncpp.cpp:568-577 | the loop moves the cursor to where the specification says, inside the document |
| `Reader.Reader.Match` | src/jsoncpp.cpp:579-589 | the backwards comparison accepts exactly if the pattern stands at the cursor, and only then moves it |
| `Reader.Reader.ReadCStyleComment` | src/jsoncpp.cpp:649-657 | the loop equals the specified scan |
| `Reader.Reader.ReadCppStyleComment` | src/jsoncpp.cpp:659-674 | the loop equals the specified scan, DOS and Mac line ends included |
| `Reader.Reader.ReadComment` | src/jsoncpp.cpp:591-613 | block and line comments, and the error on any other byte |
| `Reader.Reader.ReadNumber` | src/jsoncpp.cpp:676-697 | the pointer loops never dereference the end and stop after digits, fraction and exponent as specified |
| `Reader.Reader.ReadString` | src/jsoncpp.cpp:699-710 | the loop equals the specified scan: a backslash hides one byte |
| `Reader.Reader.ReadToken` | src/jsoncpp.cpp:496-566 | the token is the specified one and the cursor is at its end |
| `Reader.Reader.ReadPastComments` | src/jsoncpp.cpp:721-722 | reads on while the token is a comment |
| `Reader.Reader.SkipCommentTokens` | src/jsoncpp.cpp:484-494 | with comments allowed the next token that is none, else the next token |
| `Reader.Reader.AddError` | src/jsoncpp.cpp:993-1001 | appends exactly one error |
| `Reader.Reader.RecoverFromError` | src/jsoncpp.cpp:1003-1015 | moves the cursor to the specified place and leaves the error list as it was |
| `Reader.Reader.AddErrorAndRecover` | src/jsoncpp.cpp:1017-1021 | one error more, and recovery |
| `Reader.Reader.Push` | src/jsoncpp.cpp:747 | puts a node on the stack, keeping those below |
| `Reader.Reader.Pop` | src/jsoncpp.cpp:749 | takes the top node off and stores it in its parent, keeping those below |
| `Reader.Reader.DecodeNumberInto` | src/jsoncpp.cpp:815-854 | the accumulator loop gives the specified integer payload or turns to the floating-point path exactly where specified |
| `Reader.Reader.DecodeNumber` | src/jsoncpp.cpp:804-813 | the value read, or one error and the value left alone; stack and cursor as specified |
| `Reader.Reader.DecodeDouble` | src/jsoncpp.cpp:867-876 | a number if the foreign conversion says so, else one error |
| `Reader.Reader.DecodeUnicodeEscapeSequence` | src/jsoncpp.cpp:972-991 | four hexadecimal digits or the specified error at the specified place |
| `Reader.Reader.DecodeUnicodeCodePoint` | src/jsoncpp.cpp:945-970 | one unit or a pair, or the specified error |
| `Reader.Reader.DecodeEscape` | src/jsoncpp.cpp:899-937 | what stands after a backslash |
| `Reader.Reader.DecodeStringInto` | src/jsoncpp.cpp:890-943 | the decoding loop gives the specified bytes, or one error |
| `Reader.Reader.DecodeString` | src/jsoncpp.cpp:878-888 | the string value, or one error and the value left alone |
| `Reader.Reader.ReadScalar` | src/jsoncpp.cpp:433-474 | every case of readValue that opens no container, dropped placeholders included |
| `Reader.Reader.ReadValue` | src/jsoncpp.cpp:407-482 | the recursive routine on cursor, node stack and error list gives the specified value, cursor and at most one error, or throws; the stack below is untouched |
| `Reader.Reader.ReadChild` | src/jsoncpp.cpp:746-751 | push, read, pop and recover: the element is stored under its key whatever happened to it |
| `Reader.Reader.ReadName` | src/jsoncpp.cpp:719-745 | the start of a round of readObject |
| `Reader.Reader.ReadMemberSeparator` | src/jsoncpp.cpp:753-763 | the end of a round of readObject |
| `Reader.Reader.ReadElementSeparator` | src/jsoncpp.cpp:788-799 | the end of a round of readArray |
| `Reader.Reader.ReadMemberValue` | src/jsoncpp.cpp:746-763 | a member's value and what follows it |
| `Reader.Reader.ReadMember` | src/jsoncpp.cpp:719-764 | a whole round of readObject's loop |
| `Reader.Reader.ReadObject` | src/jsoncpp.cpp:712-765 | the loop over members gives the specified object, cursor and error |
| `Reader.Reader.ReadElement` | src/jsoncpp.cpp:781-799 | a whole round of readArray's loop |
| `Reader.Reader.ReadArray` | src/jsoncpp.cpp:767-802 | the loop over elements gives the specified array, cursor and error |
| `Reader.Reader.Parse` | src/jsoncpp.cpp:370-405 | parse gives the specified verdict, root and error list; when it returns, the stack is back at the root, good() agrees with the result, and a failure has one error, or two exactly if strict root is on, reading failed and the root is no container |
| `Parsing.TwoErrorsExactly` | src/jsoncpp.cpp:370-405 | two errors exactly if strict root is on, reading failed, and neither the document opens a container nor the root was one before |
| `Errors.ErrorsAre` | src/jsoncpp.cpp:370-405 | a refused document has one error of its own, and what is wrong at its token is what the message says, with the place of the first bad escape in a string; strict root adds one about the whole document |
| `Errors.StringBad` | src/jsoncpp.cpp:890-991 | a string that does not decode has a first bad escape, and message and place are those of that escape |
| `Errors.RefusedLeaves` | src/jsoncpp.cpp:433-482 | a refused scalar leaves the value as it was, with the offsets of the token exactly if no value starts there |
| `Errors.FailedChildStored` | src/jsoncpp.cpp:746-751 | what is left of an element that failed is found under its key, every other element as before, and the error is passed on |
| `Parsing.EmptyDocumentErrors` | src/jsoncpp.cpp:388-404 | the empty document with strict root: two errors over a null root, one over a root that is already an array |
| `Numerals.DecimalShape` | src/jsoncpp.cpp:168-175 | printed numerals are digits without a leading zero and as many as the magnitude needs |
| `Numerals.BufferBound` | src/jsoncpp.cpp:154-158 | a number below 256^k needs at most 3k digits, which is where the buffer size comes from |
| `Numerals.UintToString` | src/jsoncpp.cpp:168-175 | the backwards fill never underruns the buffer and leaves the minimal numeral and its terminator at its end |
| `Numerals.IntToString` | src/jsoncpp.cpp:440-457 | printing any signed 64-bit integer, the minimum included, gives its numeral |
| `Numerals.UintToText` | src/jsoncpp.cpp:459-466 | the same for unsigned integers |
| `Numerals.AccumulateExact` | src/jsoncpp.cpp:829-844 | the 64-bit accumulator holds the number denoted exactly as long as that does not exceed the maximum: it never wraps |
| `Numerals.DecodeIntegerExact` | src/jsoncpp.cpp:815-854 | for a minus and digits of any number: integer path exactly on [-2^63, 2^64-1], then exactly that number with the canonical type |
| `Numerals.AccumulateRejects` | src/jsoncpp.cpp:836-838 | anything but digits goes to the floating-point path |
| `Numerals.PrintThenDecode` | src/jsoncpp.cpp:440-468 | decoding what is printed gives the number back, over the whole range |
| `Escaping.IsPlain` | src/jsoncpp.cpp:4595-4615 | the two scans find nothing exactly if no byte needs an escape |
| `Escaping.ValueToQuotedString` | src/jsoncpp.cpp:4610-4671 | fast path and slow path give the same specified text for all byte strings |
| `Escaping.QuotedIsOneToken` | src/jsoncpp.cpp:699-710 | whatever follows, the lexer takes a quoted text as one string token that ends at its closing quote |
| `Escaping.DecodeQuoted` | src/jsoncpp.cpp:890-943 | decoding a quoted text gives the bytes back, zero and control bytes included |
| `Printed.PrintedShortest` | src/jsoncpp.cpp:4610-4671 | a byte is printed as the shortest text that means it: two bytes if section 7 of RFC 8259 has a letter for it, six with upper-case digits if it is another control byte, itself in every other case |
| `Spelling.DenseIsDense` | src/jsoncpp.cpp:3509-3530 | filling the holes of the arrays of a valid real-free value gives a value without holes |
| `Spelling.SpelledTokens` | src/jsoncpp.cpp:496-566 | a text that spells words has exactly these tokens |
| `Rendering.NumberIsOneToken` | src/jsoncpp.cpp:676-697 | a printed integer is one number token unless a digit, a dot or an exponent mark follows |
| `FastWriter.ScalarToText` | src/jsoncpp.cpp:4713-4738 | the text of a scalar, by type |
| `FastWriter.FastWriter.EnableYAMLCompatibility` | src/jsoncpp.cpp:4687-4690 | sets that option only |
| `FastWriter.FastWriter.DropNullPlaceholders` | src/jsoncpp.cpp:4692-4695 | sets that option only |
| `FastWriter.FastWriter.OmitEndingLineFeed` | src/jsoncpp.cpp:4697-4700 | sets that option only |
| `FastWriter.FastWriter.Write` | src/jsoncpp.cpp:4702-4709 | the document is the specified text, whatever it held before |
| `FastWriter.FastWriter.WriteValue` | src/jsoncpp.cpp:4711-4763 | appends the text of the value, sparse arrays with nulls in the holes |
| `FastWriter.FastWriter.WriteContainer` | src/jsoncpp.cpp:4739-4761 | appends brackets and elements |
| `FastWriter.FastWriter.WriteElement` | src/jsoncpp.cpp:4743-4745 | appends one array element, a null for a hole |
| `FastWriter.FastWriter.WriteElements` | src/jsoncpp.cpp:4741-4746 | the loop appends all elements with separators between them |
| `FastWriter.FastWriter.WriteMember` | src/jsoncpp.cpp:4753-4758 | appends one member |
| `FastWriter.FastWriter.WriteMembers` | src/jsoncpp.cpp:4750-4759 | the loop appends all members in key order |
| `Printed.FastWrittenExactly` | src/jsoncpp.cpp:4702-4763 | the document is the texts of the tokens of the dense value one after the other, a space after each colon exactly with the YAML option, and a line feed at the end exactly if it is not turned off; there is no other white space outside strings and no other line feed at all |
| `FastWriting.WrittenSpells` | src/jsoncpp.cpp:4702-4763 | the document spells the tokens of the dense value |
| `StyledWriter.StyledWriter.PushValue` | src/jsoncpp.cpp:5457-5463 | to the buffer of child values or to the output, never both |
| `StyledWriter.StyledWriter.WriteIndent` | src/jsoncpp.cpp:5465-5476 | a new line, if there is an indentation |
| `StyledWriter.StyledWriter.WriteWithIndent` | src/jsoncpp.cpp:5478-5484 | indents unless just done |
| `StyledWriter.StyledWriter.Indent` | src/jsoncpp.cpp:5486-5489 | one level more |
| `StyledWriter.StyledWriter.Unindent` | src/jsoncpp.cpp:5491-5495 | one level less |
| `StyledWriter.StyledWriter.Write` | src/jsoncpp.cpp:5301-5316 | the output is the specified layout, whatever the state before |
| `StyledWriter.StyledWriter.WriteValue` | src/jsoncpp.cpp:5317-5376 | writes the specified layout of the value and leaves the buffer as the invariant demands |
| `StyledWriter.StyledWriter.WriteElement` | src/jsoncpp.cpp:5399 | one element of an array |
| `StyledWriter.StyledWriter.WriteObjectValue` | src/jsoncpp.cpp:5349-5374 | an object over several lines |
| `StyledWriter.StyledWriter.WriteMembers` | src/jsoncpp.cpp:5356-5370 | the loop over members |
| `StyledWriter.StyledWriter.WriteMember` | src/jsoncpp.cpp:5358-5363 | name, colon symbol and value |
| `StyledWriter.StyledWriter.WriteArrayValue` | src/jsoncpp.cpp:5378-5428 | an array on one line or over several; the buffered texts are used only when they are those of this very array |
| `StyledWriter.StyledWriter.WriteArrayBlock` | src/jsoncpp.cpp:5385-5411 | an array over several lines |
| `StyledWriter.StyledWriter.WriteElementLines` | src/jsoncpp.cpp:5388-5408 | the loop over element lines |
| `StyledWriter.StyledWriter.WriteElementLine` | src/jsoncpp.cpp:5391-5401 | one line, from the buffer or written anew |
| `StyledWriter.StyledWriter.WriteLine` | src/jsoncpp.cpp:5412-5426 | an array on one line, from the buffer |
| `StyledWriter.StyledWriter.WriteBuffer` | src/jsoncpp.cpp:5418-5422 | the buffered texts with separators |
| `StyledWriter.StyledWriter.IsMultineArray` | src/jsoncpp.cpp:5430-5455 | decides the layout as specified and leaves the buffer empty or with the texts of exactly this array's elements |
| `StyledWriter.StyledWriter.FindFullElement` | src/jsoncpp.cpp:5435-5438 | finds a non-empty container among the elements exactly if there is one |
| `StyledWriter.StyledWriter.BufferElement` | src/jsoncpp.cpp:5448 | adds the text of one element to the buffer |
| `StyledWriter.StyledWriter.MeasureLine` | src/jsoncpp.cpp:5441-5453 | fills the buffer and adds up the length of the line |
| `Layout.StyledWrittenExactly` | src/jsoncpp.cpp:5301-5495 | the styled document is the texts of the tokens with line breaks, indentation and spaces exactly where the layout of their containers has them |
| `Layout.LineFeedsIndent` | src/jsoncpp.cpp:5465-5495 | between two tokens stands nothing, a space, or a line feed with the indentation once for every bracket opened and not closed before it, one less before a closing bracket |
| `Layout.OnOneLineExactly` | src/jsoncpp.cpp:5430-5455 | a non-empty array stands on one line exactly if three times its size is below 74, no non-empty container is inside, and the line it makes is shorter than 74 bytes, counted in 32 bits |
| `StyledWriting.LayoutKeepsTokens` | src/jsoncpp.cpp:5301-5455 | for every real-free value and every whitespace indentation the styled document and the compact one have the same tokens |
| `StyledWriting.NoIndentationIsCompact` | src/jsoncpp.cpp:5465-5476 | without indentation the layout is the compact text itself |
| `RoundTrip.ValueReadsBack` | src/jsoncpp.cpp:407-482 | reading any text that spells a value gives the value, or throws exactly if it is too deep |
| `RoundTripTheorems.SpelledDocumentParses` | src/jsoncpp.cpp:370-405 | any document that spells a value parses to it without errors, or throws exactly if it has as many levels as the limit |
| `RoundTripTheorems.FastRoundTrip` | src/jsoncpp.cpp:4702-4763 | parse(FastWriter.write(v)) for every valid real-free value, any options and any limit: the exception exactly if v is too deep, a refusal if a null root was dropped, else the value as the writer sees it, which is the dense view with canonical integers if and only if no array holds the last index |
| `RoundTripTheorems.StyledRoundTrip` | src/jsoncpp.cpp:5301-5455 | the same for the styled writer |
| `RoundTripTheorems.DenseViewExactly` | src/jsoncpp.cpp:3521-3532 | what size() makes of the arrays is the dense view if and only if no array holds index 2^32-1 |
| `RoundTripTheorems.LastIndexWritten` | src/jsoncpp.cpp:4740-4748 | an array with an element at index 2^32-1 only is written as an empty one |
| `RoundTripTheorems.IdentityExactly` | src/jsoncpp.cpp:4711-4763 | what comes back equals the value if and only if it has no holes, canonical integers and, with dropped nulls, no array of one null |
| `Reparsing.ValueTidy` | src/jsoncpp.cpp:407-482 | every value read has ordered keys, contiguous arrays, canonical integers and no more levels than the limit leaves |
| `Reparsing.ReparseIsIdentity` | src/jsoncpp.cpp:370-405 | whatever document was accepted, its real-free value written by either writer and parsed again is accepted, and equal if and only if every array fits its 32-bit size |
| `Grammar.NumberIsToken` | src/jsoncpp.cpp:676-697 | every number of section 6 of RFC 8259 is one number token unless a digit, a dot or an exponent mark follows |
| `Grammar.StringIsToken` | src/jsoncpp.cpp:699-710 | every string of section 7 of RFC 8259 is one string token, whatever follows |
| `Grammar.SyntaxRenders` | src/jsoncpp.cpp:496-566 | every JSON text of RFC 8259, with any white space, reads as its tokens wherever it stands |
| `Acceptance.StringAcceptedExactly` | src/jsoncpp.cpp:890-970 | a string of the grammar decodes exactly if no high surrogate stands alone |
| `Acceptance.StringMeans` | src/jsoncpp.cpp:890-970 | every accepted string decodes to the bytes that its characters and escapes stand for by section 7 of RFC 8259: the letters by their table, units and pairs as UTF-8, every other byte itself |
| `Acceptance.SyntaxAnswers` | src/jsoncpp.cpp:407-482 | readValue on a text of the grammar reads it exactly if the reader's further demands are met, and then gives its meaning |
| `Acceptance.AcceptedExactly` | src/jsoncpp.cpp:370-405 | every JSON text of RFC 8259 is accepted exactly if it has fewer levels than the limit, no lone high surrogate, and every number that is no 64-bit integer is taken by the floating-point reader; the root is then its meaning |
| `Comments.BlankThrough` | src/jsoncpp.cpp:484-494 | white space and comments before a token are passed over, and a comment among them is the first token read |
| `Comments.AcceptedWithComments` | src/jsoncpp.cpp:370-494 | the same for every JSON text with comments before it and in it wherever white space may stand, but for an empty array and before a colon: accepted with its meaning under the same demands, and where comments are not allowed exactly if none stands before a value |
| `Acceptance.LastMemberWins` | src/jsoncpp.cpp:746 | of members with one name the last one is the member |
| `Acceptance.ElementsInOrder` | src/jsoncpp.cpp:779-784 | the elements of an array are its elements, in order |
| `Locality.ReadTokenIn` | src/jsoncpp.cpp:496-566 | a token inside a slice of the document is the same token in the slice alone |
| `Slices.ValueIn` | src/jsoncpp.cpp:407-482 | a value read within a slice is read from the slice alone, at any smaller depth, with shifted offsets |
| `SliceLaw.ValueSliced` | src/jsoncpp.cpp:407-482 | for every configuration: every written node of a value read has a non-empty slice inside its parent's that parses alone to that node; siblings are apart; a null that was not written records the byte before the token that closed its place |
| `SliceLaw.SliceLaw` | src/jsoncpp.cpp:370-405 | the slice law for every successful parse, dropped placeholders included |
| `SliceLaw.SliceParsesEqual` | src/jsoncpp.cpp:4069-4077 | parsing a written node's recorded slice gives an equal value |
| `SliceLaw.OneByteDocument` | src/jsoncpp.cpp:457-473 | with dropped placeholders on, a document of one byte parses to null exactly if the byte is a comma or a closing bracket or brace: so the slice of an unwritten null parses exactly if it records such a byte |
| `SliceLaw.TwoPlaces` | src/jsoncpp.cpp:457-469 | of the two nulls in `[,]` the slice of the second parses alone and that of the first does not |
| `Trailing.RestIgnored` | src/jsoncpp.cpp:388-405 | parse never looks past the root: cut off there and continued with any rest that does not make a final number longer, a document parses to the very same root |
| `Soundness.StringIs` | src/jsoncpp.cpp:699-710 | a string token that decodes is a string of the grammar, control bytes allowed, without a lone high surrogate |
| `Soundness.NumberIs` | src/jsoncpp.cpp:676-697 | a number token is a digit or a minus and then digits, a fraction and an exponent, each with any number of digits, none included |
| `Soundness.BlankBefore` | src/jsoncpp.cpp:484-494 | what the reader skips before a token is white space and closed comments |
| `Soundness.AcceptedOnly` | src/jsoncpp.cpp:370-405 | whatever document is accepted is a lead of white space or comments, a text of the relaxed grammar (`RelaxedGrammar`) and a rest, and its root is the meaning of that text |
| `Limits.LimitOnlyThrows` | src/jsoncpp.cpp:412-415 | raising the limit changes nothing about a parse that did not throw |
| `Limits.DepthExactly` | src/jsoncpp.cpp:407-415 | parse throws exactly under a limit below 1 + the most containers open at any entry of readValue; under every other limit it answers the same; that depth is at most 1 + the number of opening brackets |
| `Limits.OnlyOpenings` | src/jsoncpp.cpp:407-415 | the bound is tight: n opening brackets throw exactly if n + 1 exceeds the limit |
| `Leniencies.LoneMinusIsZero` | src/jsoncpp.cpp:676-697 | the document `-` parses to the integer 0 |
| `Leniencies.BlockCommentCloses` | src/jsoncpp.cpp:649-657 | a block comment closes at the first terminator, and without one exactly if the last byte of the document is a slash |
| `Leniencies.LeadingZeroAccepted` | src/jsoncpp.cpp:676-697 | the document `01` parses to 1 |
| `Leniencies.RestAccepted` | src/jsoncpp.cpp:388-405 | the document `1 x` parses to 1 |
| `Separators.TrailingCommaExactly` | src/jsoncpp.cpp:719-763 | every object with a comma after its last member: accepted if and only if its members are and the last name is empty |
| `Separators.CommaMissingExactly` | src/jsoncpp.cpp:753-763 | every object with comments and one token between two of its members: accepted if and only if its members are and there is a comment or the token is a comma, and then it is the object of all its members |
| `Separators.TrailingCommaAccepted` | src/jsoncpp.cpp:719-765 | `{"":1,}` parses without errors |
| `Separators.ColonForCommaAccepted` | src/jsoncpp.cpp:753-763 | `{"a":1/**/:"b":2}` parses without errors to two members |
| `Unicode.EncodingDenotes` | src/jsoncpp.cpp:116-146 | the encoding of every code point announces its length and denotes it, as in section 3 of RFC 3629 |
| `Unicode.WellFormedExactly` | src/jsoncpp.cpp:116-146 | the encoding is well-formed by section 4 of RFC 3629 exactly for the scalar values |
| `Unicode.EncodingComplete` | src/jsoncpp.cpp:116-146 | every well-formed UTF-8 character is the encoding of the scalar value it denotes |
| `Unicode.DecodesUniquely` | src/jsoncpp.cpp:116-146 | concatenated encodings of any code points give back the sequence |
| `Unicode.SameEncodingSameCodePoints` | src/jsoncpp.cpp:116-146 | two sequences of code points with one encoding are equal |
| `Unicode.EscapesDecode` | src/jsoncpp.cpp:945-991 | any sequence of scalar values written as escapes, plain or in pairs, with digits of either case, decodes to its UTF-8 text |
| `Unicode.PairDecodes` | src/jsoncpp.cpp:949-957 | of the second unit of a pair only the low ten bits count |
| `Unicode.PairFaithfulExactly` | src/jsoncpp.cpp:949-957 | a pair is that of a code point exactly if it decodes to it and its second unit is a low surrogate |
| `Unicode.LoneHalfIllFormed` | src/jsoncpp.cpp:945-970 | a single unit gives well-formed UTF-8 exactly if it is no low surrogate |
| `OrderedMap.KeyTrichotomy` | src/jsoncpp.cpp:2813-2844 | keys of one kind are totally ordered, names by bytes and then length |
| `ValueOrder.Trichotomy` | src/jsoncpp.cpp:3119-3228 | of any two valid real-free values, neither is less exactly if they are equal, and both are exactly if the comparison comes to two containers whose sizes are 2^31 apart in 32 bits |
| `ValueOrder.ContainersCompareExactly` | src/jsoncpp.cpp:3159-3168 | two containers of one type with comparable elements compare as one of less, greater and equal if and only if the difference of their sizes is not 2^31 modulo 2^32 |
| `ValueOrder.Transitive` | src/jsoncpp.cpp:3119-3168 | less-or-equal composes, strictly if either step is strict, where sizes that get compared differ by less than 2^31 |
| `OrderedMap.TextLessExactly` | src/jsoncpp.cpp:2813-2829 | the order of strings and names is the byte order at the first difference, a proper prefix first |
| `ValueOrder.LessExactly` | src/jsoncpp.cpp:3119-3168 | what operator< compares on any two valid real-free values: types first, in the order null, int, uint, real, string, boolean, array, object; then numbers, strings at the first different byte, containers by the difference of their sizes in 32 bits and then at their first different element, by key before value |
| `ValueOrder.StrictTotalOrder` | src/jsoncpp.cpp:3110-3228 | operator< is a strict total order up to operator==, and compare reports it, on any three values of which containers that get compared differ in size by less than 2^31 |
| `ValueOrder.SmallAreNear` | src/jsoncpp.cpp:3159-3161 | values whose containers all have fewer than 2^31 elements are such values |
| `ValueOrder.FarApart` | src/jsoncpp.cpp:3159-3161 | without that, two arrays are less than each other, and three arrays of 0, 3*2^29 and 3*2^30 nulls form a circle |
| `OrderedMap.PutFinds` | src/jsoncpp.cpp:3581-3595 | storing under a key changes what is found there and nothing else, and keeps the order |
| `OrderedMap.EraseFinds` | src/jsoncpp.cpp:3574-3576 | erasing a key removes it and nothing else |
| `ValueCells.ValueCell.Assign` | src/jsoncpp.cpp:3056-3060 | copy assignment swaps with its argument |
| `ValueCells.ValueCell.SwapElement` | src/jsoncpp.cpp:3736-3739 | assignment to an element swaps it with the argument, which may be the array itself |
| `ValueCells.ValueCell.Size` | src/jsoncpp.cpp:3510-3532 | highest index + 1 in 32 bits, number of members, or 0 |
| `ValueCells.ValueCell.Clear` | src/jsoncpp.cpp:3547-3561 | empties a container and resets its offsets; refused on scalars |
| `ValueCells.ValueCell.Subscript` | src/jsoncpp.cpp:3581-3595 | a null becomes an array; the element is there afterwards and the others are as before |
| `ValueCells.ValueCell.Append` | src/jsoncpp.cpp:3736-3739 | on a contiguous array: sequence append, and the argument is left null; an array appended to itself becomes that null |
| `ValueCells.ValueCell.EraseFrom` | src/jsoncpp.cpp:3574-3576 | the loop erases exactly the indices from the new size on |
| `ValueCells.ValueCell.Resize` | src/jsoncpp.cpp:3563-3579 | a prefix of a contiguous array; in general the map as specified, success exactly if the assertion holds, and then the size asked for exactly if the size is 0 or the array does not hold the last index |
| `ValueCells.ValueCell.ResizeArray` | src/jsoncpp.cpp:3568-3578 | the same on an array |
| `ValueCells.ValueCell.ShiftOne` | src/jsoncpp.cpp:3814 | one assignment of the shifting loop swaps two neighbours and creates those that are missing |
| `ValueCells.ValueCell.ShiftLeft` | src/jsoncpp.cpp:3812-3815 | the shifting loop |
| `ValueCells.ValueCell.ShiftAndErase` | src/jsoncpp.cpp:3810-3819 | what removeIndex does after the assignment to the receiver |
| `ValueCells.ValueCell.RemoveIndex` | src/jsoncpp.cpp:3799-3821 | on a contiguous array removes exactly that element and delivers it; false and no change if it is not there |
| `ArrayOperations.RemovedFinds` | src/jsoncpp.cpp:3799-3821 | on any array, sparse or not: later elements move up by one, holes among them become nulls, the receiver's old content is gone |
| `ArrayOperations.RemovedSizeExactly` | src/jsoncpp.cpp:3799-3821 | the size drops by exactly one if and only if the last element was not removed or the one before it is there |
| `ArrayOperations.AppendedFinds` | src/jsoncpp.cpp:3736-3739 | on any array append stores at the size, counted in 32 bits, and changes nothing else |
| `ArrayOperations.ResizedFinds` | src/jsoncpp.cpp:3563-3579 | resize leaves nothing from the new size on and the rest as it was, with a null at the end where it grows; on an array with the last index it only creates one element |
| `ArrayOperations.ResizedSizeExactly` | src/jsoncpp.cpp:3563-3579 | the size asked for is reached if and only if the array does not hold the last index and grows or has an element to end with |
| `ArrayOperations.ShrinkSizeExactly` | src/jsoncpp.cpp:3573-3578 | shrinking meets its assertion if and only if the element that becomes last is there |
| `ArrayOperations.GrowThenShrinkExactly` | src/jsoncpp.cpp:3563-3579 | after resize made a contiguous array longer, resize makes it shorter exactly down to the old size: in between it throws |
| `ArrayOperations.RemovedItems` | src/jsoncpp.cpp:3799-3821 | removeIndex on a contiguous array is removal from a sequence |
| `ArrayOperations.AppendsToSequence` | src/jsoncpp.cpp:3736-3739 | append on a contiguous array is sequence append |
| `ArrayOperations.ResizesSequence` | src/jsoncpp.cpp:3563-3579 | shrinking a contiguous array takes a prefix |
| `Lines.NormalizeEOL` | src/jsoncpp.cpp:615-634 | the loop gives the text with every line end turned into LF |
| `Lines.NormalizedOneMore` | src/jsoncpp.cpp:615-634 | one more byte adds its normal form, or nothing if it ends a CR LF |
| `Lines.LocationLineAndColumn` | src/jsoncpp.cpp:1035-1056 | the line is 1 + the LFs of the normalised prefix; the column is 1 + the length of its last line, and 0 exactly inside a two-byte line end |
| `NodeIds.SameTextExactly` | src/objects/StringUtils.cpp:136-168 | node ids have one text exactly if namespace and identifier text agree, and are then equal unless of different kinds |
| `NodeIds.TextShape` | src/objects/StringUtils.cpp:136-168 | the text of a node id is the decimal numeral of its namespace, a colon, and a decimal numeral, the bytes of the name, or the fields of the GUID in upper-case hexadecimal digits with their punctuation |
| `NodeIds.TextsCollide` | src/objects/StringUtils.cpp:140-146 | numeric, string and byte string ids share texts |
| `Browsing.NodeIdMap.Put` | src/objects/NodeIdMap.cpp:28-35 | files a node under its text unless that is taken |
| `AddressSpaces.AddressSpace.ChildrenList` | src/open62541client.cpp:510-520 | exactly the targets of the forward references, in their order |
| `Browsing.Browser.BrowseChildren` | src/open62541client.cpp:559-570 | depth-first on any finite graph, cyclic or not: terminates, keeps what was there, adds only reachable nodes, each fully explored |
| `Browsing.Browser.BrowseTree` | src/open62541client.cpp:552-555 | adds to any map only reachable nodes, each explored, and keeps what is there; into an empty map: the reachable nodes of the namespace, all of them if and only if no two have one text |
| `Browsing.Browser.DeleteEntries` | src/open62541client.cpp:727-732 | each entry once, none of namespace 0 |
| `Browsing.Browser.DeleteTree` | src/open62541client.cpp:722-734 | asks for the deletion of each collected node once, of none if the start is in namespace 0; of exactly the reachable ones if their texts differ |
| `Browsing.TreeExactly` | src/open62541client.cpp:559-570 | the collected nodes are the reachable ones if and only if no two reachable nodes have one text |
| `Browsing.CollisionLosesNode` | src/open62541client.cpp:564-567 | of two reachable nodes with one text, one is missing |
| `Browsing.CollisionReachable` | src/objects/StringUtils.cpp:136-146 | there are such trees |
| `FolderPaths.NodeBrowser.Browse` | src/clientbrowser.cpp:16-24 | after browsing, a name is found in the list exactly where the graph has it |
| `FolderPaths.NodeBrowser.Find` | src/objects/BrowserBase.cpp:53-61 | the first item with the name |
| `FolderPaths.PathClient.Descend` | src/open62541client.cpp:607-615 | follows a path as far as it is there |
| `FolderPaths.PathClient.ClientNodeIdFromPath` | src/open62541client.cpp:574-592 | true exactly if the path leads somewhere; the result is written only then |
| `FolderPaths.PathClient.ServerNodeIdFromPath` | src/open62541server.cpp:762-781 | the same verdict, but the result is the deepest node found in any case |
| `FolderPaths.PathClient.AddFolders` | src/open62541client.cpp:620-631 | a chain of new folders, one for each name until one is refused |
| `FolderPaths.PathClient.CreateFolderPath` | src/open62541client.cpp:596-634 | creates only the part of the path after its longest existing prefix; on success looking the path up gives the result; an existing path adds nothing |
| `FolderPaths.PathClient.CreateTwice` | src/open62541server.cpp:784-816 | creating a path again succeeds, adds nothing and finds the same node |
| `Paths.FindsFirst` | src/objects/BrowserBase.cpp:53-61 | a name leads to the target of the first forward reference with it, and nowhere exactly if there is none |
| `Paths.OldPathsKept` | src/open62541client.cpp:620-631 | every path that could be looked up before leads to the same node afterwards |
| `Paths.CreatedLookup` | src/open62541client.cpp:596-634 | existing prefix and new suffix together lead to the last folder created |
| `Paths.FindWithFolder` | src/open62541client.cpp:624 | a new folder changes only what is found under its own name in its parent |

## Left out

- The source's `OurReader`, `StyledWriter` and `StyledStreamWriter`, the builders and the stream operators: near-copies of what is modelled, or thin wrappers.
- Comments as data: parsing with `collectComments` set, and comments printed by the writers; here comments are only skipped.
- Floating point: a real is kept as its text, and whether a text is a real is asked of a function that the configuration holds.
- Comments.AcceptedWithComments: UTF-8 inside strings is not checked, neither here nor by the code.
- Numeric member names (`allowNumericKeys`), single quotes and special floats.
- The `std::string` overload of `parse`, which copies by capacity, and the one for streams.
- Lengths and offsets are unbounded: key lengths (30 bits), string lengths (32 bits) and document offsets are not cut off. Array indices, sizes and the writers' line lengths are 32 bits wide.
- Reader.Reader.ReadArray: the element counter, an `int`, does not overflow; the document would need 2^31 elements in one array.
- Memory management, `swap` of comments, iterators, the `Path` class of the JSON code, secure-memory variants.
- An exception in the middle of parsing: the state of the abandoned Reader and root is not described.
- Bit operations of the encoder are written as arithmetic.
- Reader.Reader.Pop: the stack holds values and not pointers into the tree; an element is stored in its parent when it is popped.
- Escaping.ValueToQuotedString: the fast path copies up to a terminating zero, which the buffers of strings and names have at their length.
- Reader.Reader.DecodeDouble: the conversion itself is foreign and stands as a function of the token's text.
- StyledWriting.LayoutKeepsTokens: only for values without reals and comments, since their texts are foreign.
- StyledWriter.StyledWriter.Write: objects whose number of members is a multiple of 2^32 other than 0, whose `size()` is 0; they would not count as full in the test of an array's layout.
- ValueCells.ValueCell.RemoveIndex: the receiver is another object than the array and not one of its elements. If it were the array itself the code would go on with the removed element in its place and use the map of a value that need not have one.
- Soundness.AcceptedOnly: one direction only; the other is `Comments.AcceptedWithComments` for the grammar of RFC 8259 with comments, and `Leniencies` and `Separators` for what is accepted beyond it. Which texts of the relaxed grammar are accepted depends on what stands after each token: `t` and `rue` are two tokens only apart.
- Lines.LocationLineAndColumn: the byte after the document, which the code reads when the document ends in CR, is a parameter; line and column are not cut to an `int`.
- Browsing.Browser.BrowseTree: the returned status of the last library call, locking and a missing connection are left out; so is `browseTree` into a node tree.
- Browsing.Browser.BrowseChildren: the server twin (src/open62541server.cpp:693-714) runs the same loop after listing the children once more for nothing, and is not written out again.
- Browsing.Browser.DeleteTree: the entries are visited in any order, of which the order of their texts is one; deletions are recorded requests, what the library makes of them is not modelled.
- FolderPaths.PathClient.CreateFolderPath: the server twin (src/open62541server.cpp:784-816) runs the same two loops; the node id asked for and the reference types are not part of the model, and the library may refuse any folder.
- Node ids of a type unknown to `toString`, which all have one text.
- Reading and writing attributes, adding other nodes, history, events, access control, subscriptions, timers, server and client life cycle: forwarding to a library that is not part of this model.
