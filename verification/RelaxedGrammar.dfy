/** All that the reader takes for a value: the grammar of RFC 8259, relaxed. */
module RelaxedGrammar {
  import opened Bytes
  import opened Values
  import opened Lexer
  import opened Decoding
  import opened Parsing
  import opened Grammar
  import opened Acceptance

  /** A value with its whole text. A null may have no text at all. */
  datatype Relaxed =
    | NoText
    | NullText
    | BooleanText(b: bool)
    | NumberText(text: Text)
    | StringText(text: Text)
    | ListText(isArray: bool, items: seq<RelaxedItem>, end: Text)

  /** An element or member: in an array name and colon are empty. */
  datatype RelaxedItem =
    RelaxedItem(lead: Text, name: Text, colon: Text, value: Relaxed, trail: Text, separator: Text)

  // ---- white space and comments ----

  predicate IsBlockComment(c: Text) {
    && 4 <= |c| && c[0] == SLASH && c[1] == STAR && c[|c| - 2] == STAR && c[|c| - 1] == SLASH
    && forall k | 2 <= k < |c| - 2 :: !(c[k] == STAR && c[k + 1] == SLASH)
  }

  predicate IsLineEnd(t: Text) {
    t == [LF] || t == [CR] || t == [CR, LF]
  }

  /** Two slashes, and a line end at `m`, the first one. */
  predicate LineCommentTo(c: Text, m: nat) {
    && 2 <= m < |c| && c[0] == SLASH && c[1] == SLASH && IsLineEnd(c[m..])
    && forall k | 2 <= k < m :: c[k] != LF && c[k] != CR
  }

  ghost predicate IsComment(c: Text) {
    IsBlockComment(c) || exists m: nat :: LineCommentTo(c, m)
  }

  /** White space and comments. */
  ghost predicate IsBlank(t: Text)
    decreases |t|
  {
    t == [] || exists k: nat | 0 < k <= |t| :: StartsBlank(t, k) && IsBlank(t[k..])
  }

  ghost predicate StartsBlank(t: Text, k: nat)
    requires 0 < k <= |t|
  {
    (k == 1 && AllSpaces(t[..1])) || IsComment(t[..k])
  }

  /** What may stand before a value. */
  ghost predicate MayLead(cfg: Config, t: Text) {
    if cfg.allowComments then IsBlank(t) else AllSpaces(t)
  }

  // ---- numbers ----

  predicate SomeDigits(t: Text, i: nat, j: nat) {
    i <= j <= |t| && forall k | i <= k < j :: 0x30 <= t[k] <= 0x39
  }

  /** A digit or a minus, digits up to `d`, a fraction up to `f` and an exponent, each with as few digits as none. */
  predicate RelaxedParts(t: Text, d: nat, f: nat) {
    && t != [] && (0x30 <= t[0] <= 0x39 || t[0] == 0x2D) && SomeDigits(t, 1, d)
    && d <= f <= |t| && (f == d || (t[d] == DOT && SomeDigits(t, d + 1, f)))
    && (f == |t| || ((t[f] == 0x65 || t[f] == 0x45) && SomeDigits(t, AfterSign(t, f + 1), |t|)))
  }

  ghost predicate IsRelaxedNumber(t: Text) {
    exists d: nat, f: nat :: RelaxedParts(t, d, f)
  }

  // ---- lists ----

  /** A colon after white space, and what may stand before a value. */
  ghost predicate IsRelaxedColon(cfg: Config, t: Text) {
    exists i: nat :: i < |t| && t[i] == COLON && AllSpaces(t[..i]) && MayLead(cfg, t[i + 1..])
  }

  /** Some token, as the lexer cuts it, but no closing brace. */
  predicate IsTokenText(t: Text) {
    var u := ReadToken(t, 0);
    t != [] && u.start == 0 && u.end == |t| && u.kind !in {ObjectEnd, Comment}
  }

  /** A comma, or after a comment any token. */
  predicate IsMemberSeparator(e: RelaxedItem) {
    e.separator == [COMMA] || (!AllSpaces(e.trail) && IsTokenText(e.separator))
  }

  ghost predicate IsElement(cfg: Config, e: RelaxedItem) {
    e.name == [] && e.colon == [] && MayLead(cfg, e.lead) && IsBlank(e.trail)
  }

  ghost predicate IsMember(cfg: Config, e: RelaxedItem) {
    IsBlank(e.lead) && NoLoneHigh(e.name) && IsRelaxedColon(cfg, e.colon) && IsBlank(e.trail)
  }

  /** Elements with commas between them. */
  ghost predicate AreElements(cfg: Config, items: seq<RelaxedItem>)
    decreases |items|
  {
    && items != [] && IsElement(cfg, items[0])
    && if |items| == 1 then items[0].separator == []
       else items[0].separator == [COMMA] && AreElements(cfg, items[1..])
  }

  /** Members after one called `previous`: an empty name, as at the start, lets the object end after a separator. */
  ghost predicate AreMembers(cfg: Config, previous: Text, items: seq<RelaxedItem>, end: Text)
    decreases |items|
  {
    if items == [] then previous == [] && IsBlank(end)
    else
      && IsMember(cfg, items[0])
      && if |items| == 1 && items[0].separator == [] then end == []
         else IsMemberSeparator(items[0]) && AreMembers(cfg, StringOf(items[0].name), items[1..], end)
  }

  ghost predicate IsRelaxed(cfg: Config, j: Relaxed) {
    match j
    case NoText => cfg.allowDropped
    case NullText => true
    case BooleanText(_) => true
    case NumberText(t) => IsRelaxedNumber(t) && (DecodeInteger(t).Some? || cfg.isDouble(t))
    case StringText(t) => NoLoneHigh(t)
    case ListText(isArray, items, end) =>
      && (forall i | 0 <= i < |items| :: IsRelaxed(cfg, items[i].value))
      && if !isArray then AreMembers(cfg, [], items, end)
         else if items == [] then AllSpaces(end)
         else end == [] && AreElements(cfg, items)
  }

  // ---- texts and meanings ----

  function RelaxedText(j: Relaxed): Text
    decreases j
  {
    match j
    case NoText => []
    case NullText => NULL_TEXT
    case BooleanText(b) => if b then TRUE_TEXT else FALSE_TEXT
    case NumberText(t) => t
    case StringText(t) => t
    case ListText(isArray, items, end) =>
      [if isArray then LBRACKET else LBRACE] + (ItemsText(items) + end + [if isArray then RBRACKET else RBRACE])
  }

  function RelaxedItemText(e: RelaxedItem): Text
    decreases e
  {
    e.lead + e.name + e.colon + RelaxedText(e.value) + e.trail + e.separator
  }

  function ItemsText(items: seq<RelaxedItem>): Text
    decreases items
  {
    if items == [] then [] else RelaxedItemText(items[0]) + ItemsText(items[1..])
  }

  function ItemKey(isArray: bool, i: nat, e: RelaxedItem): Key {
    if isArray then Index(i) else Name(StringOf(e.name))
  }

  /** The value a text means: each element stored under its index or name, a later one over an earlier one. */
  function RelaxedMeaning(j: Relaxed): (v: Value)
    ensures j.ListText? ==> IsContainer(v) && v.payload.Array? == j.isArray
    decreases j
  {
    var p := match j
      case NoText => Null
      case NullText => Null
      case BooleanText(b) => Boolean(b)
      case NumberText(t) => if DecodeInteger(t).Some? then DecodeInteger(t).value else Real(t)
      case StringText(t) => String(StringOf(t))
      case ListText(isArray, items, _) =>
        if isArray then Array(StoredItems(true, items)) else Object(StoredItems(false, items));
    Value(p, 0, 0)
  }

  function StoredItems(isArray: bool, items: seq<RelaxedItem>): seq<Entry>
    decreases items
  {
    if items == [] then []
    else
      var n := |items| - 1;
      Put(StoredItems(isArray, items[..n]), ItemKey(isArray, n, items[n]), RelaxedMeaning(items[n].value))
  }
}
