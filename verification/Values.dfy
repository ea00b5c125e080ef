/** The Value type: a payload with the offsets of the text it was read from, and its ordered map. */
module Values {
  import opened Bytes

  /** A CZString: an array index, or a member name. */
  datatype Key = Index(i: nat) | Name(name: Text)

  datatype Entry = Entry(key: Key, value: Value)

  /** Constructors in the order of the ValueType enumeration. A real is kept as its source text. */
  datatype Payload =
    | Null
    | Int(i: int)
    | UInt(u: nat)
    | Real(lexeme: Text)
    | String(s: Text)
    | Boolean(b: bool)
    | Array(entries: seq<Entry>)
    | Object(entries: seq<Entry>)

  datatype Value = Value(payload: Payload, start: int, limit: int)

  /** A fresh null, as the null singleton and the default constructor give. */
  const NULL_VALUE := Value(Null, 0, 0)

  predicate IsContainer(v: Value) {
    v.payload.Array? || v.payload.Object?
  }

  // ---- keys ----

  /** Byte order of memcmp on the common length, then the shorter first. */
  predicate TextLess(a: Text, b: Text) {
    if a == [] then b != []
    else if b == [] then false
    else a[0] < b[0] || (a[0] == b[0] && TextLess(a[1..], b[1..]))
  }

  predicate KeyLess(a: Key, b: Key) {
    match a
    case Index(i) => b.Index? && i < b.i
    case Name(s) => b.Name? && TextLess(s, b.name)
  }

  // ---- the ordered map, as the sequence of its entries in key order ----

  predicate SameKind(es: seq<Entry>, named: bool) {
    forall i | 0 <= i < |es| :: es[i].key.Name? == named
  }

  predicate Sorted(es: seq<Entry>) {
    forall i, j | 0 <= i < j < |es| :: KeyLess(es[i].key, es[j].key)
  }

  /** Position of the first entry whose key is not less than `k`, as std::map::lower_bound. */
  function LowerBound(es: seq<Entry>, k: Key): (n: nat)
    ensures n <= |es|
    ensures n < |es| ==> !KeyLess(es[n].key, k)
    ensures forall i | 0 <= i < n :: KeyLess(es[i].key, k)
  {
    if es == [] || !KeyLess(es[0].key, k) then 0 else 1 + LowerBound(es[1..], k)
  }

  predicate Has(es: seq<Entry>, k: Key) {
    var n := LowerBound(es, k);
    n < |es| && es[n].key == k
  }

  function Find(es: seq<Entry>, k: Key): Option<Value> {
    var n := LowerBound(es, k);
    if n < |es| && es[n].key == k then Some(es[n].value) else None
  }

  /** The element `k` refers to, or the null that operator[] would create there. */
  function Slot(es: seq<Entry>, k: Key): Value {
    var found := Find(es, k);
    if found.Some? then found.value else NULL_VALUE
  }

  function Put(es: seq<Entry>, k: Key, v: Value): seq<Entry> {
    var n := LowerBound(es, k);
    if n < |es| && es[n].key == k then es[n := Entry(k, v)]
    else es[..n] + [Entry(k, v)] + es[n..]
  }

  function Erase(es: seq<Entry>, k: Key): seq<Entry> {
    var n := LowerBound(es, k);
    if n < |es| && es[n].key == k then es[..n] + es[n + 1..] else es
  }

  // ---- arrays ----

  /** Highest index + 1: the last entry of the ordered map decides. */
  function ArraySize(es: seq<Entry>): nat {
    if es == [] || !es[|es| - 1].key.Index? then 0 else es[|es| - 1].key.i + 1
  }

  /** One more than the largest ArrayIndex. */
  const INDEX_RANGE: int := 0x1_0000_0000

  /** size() of an array: highest index + 1, in 32 bits. */
  function Size32(es: seq<Entry>): (n: nat)
    ensures n < INDEX_RANGE
  {
    ArraySize(es) % INDEX_RANGE
  }

  /** Read access by index: a hole reads as null. */
  function At(es: seq<Entry>, i: nat): Value {
    Slot(es, Index(i))
  }

  predicate Contiguous(es: seq<Entry>) {
    forall i | 0 <= i < |es| :: es[i].key == Index(i)
  }

  function Items(vs: seq<Value>): (es: seq<Entry>)
    ensures |es| == |vs| && Contiguous(es)
  {
    seq(|vs|, i requires 0 <= i < |vs| => Entry(Index(i), vs[i]))
  }

  const INT_MIN: int := -0x8000_0000_0000_0000
  const UINT_MAX: int := 0xFFFF_FFFF_FFFF_FFFF
  const INT32_MAX: int := 0x7FFF_FFFF
  const INT64_MAX: int := 0x7FFF_FFFF_FFFF_FFFF

  /** What every Value object satisfies: the map is ordered, with one kind of key, and integers fit their type. */
  predicate Valid(v: Value) {
    match v.payload
    case Int(i) => INT_MIN <= i <= INT64_MAX
    case UInt(u) => u <= UINT_MAX
    case Array(es) => Sorted(es) && SameKind(es, false) && forall i | 0 <= i < |es| :: Valid(es[i].value)
    case Object(es) => Sorted(es) && SameKind(es, true) && forall i | 0 <= i < |es| :: Valid(es[i].value)
    case _ => true
  }

  predicate RealFree(v: Value) {
    match v.payload
    case Real(_) => false
    case Array(es) => forall i | 0 <= i < |es| :: RealFree(es[i].value)
    case Object(es) => forall i | 0 <= i < |es| :: RealFree(es[i].value)
    case _ => true
  }

  // ---- equality ----

  /** operator==: same type and same content; offsets do not count. */
  predicate Equal(a: Value, b: Value)
    decreases a
  {
    if !IsContainer(a) then a.payload == b.payload
    else
      && a.payload.Array? == b.payload.Array?
      && IsContainer(b)
      && var es, fs := a.payload.entries, b.payload.entries;
      && |es| == |fs|
      && forall i | 0 <= i < |es| :: es[i].key == fs[i].key && Equal(es[i].value, fs[i].value)
  }
}
