/** operator< on values: where it is a strict total order on real-free values, and exactly where not. */
module ValueOrder {
  import opened Values
  import opened OrderedMap

  /** Place of a type in the ValueType enumeration. */
  function Rank(p: Payload): nat {
    match p
    case Null => 0
    case Int(_) => 1
    case UInt(_) => 2
    case Real(_) => 3
    case String(_) => 4
    case Boolean(_) => 5
    case Array(_) => 6
    case Object(_) => 7
  }

  const TWO31: int := 0x8000_0000

  /** The cast of a difference of sizes to a 32-bit int. */
  function ToInt32(n: int): int {
    (n + TWO31) % (2 * TWO31) - TWO31
  }

  /** The number of levels below a value. */
  function Nesting(v: Value): (n: nat)
    ensures IsContainer(v) ==> forall j | 0 <= j < |v.payload.entries| :: Nesting(v.payload.entries[j].value) < n
    decreases v, 1
  {
    if IsContainer(v) then 1 + NestingFrom(v, 0) else 0
  }

  function NestingFrom(v: Value, i: nat): (n: nat)
    requires IsContainer(v) && i <= |v.payload.entries|
    ensures forall j | i <= j < |v.payload.entries| :: Nesting(v.payload.entries[j].value) <= n
    decreases v, 0, |v.payload.entries| - i
  {
    if i == |v.payload.entries| then 0
    else
      var here, rest := Nesting(v.payload.entries[i].value), NestingFrom(v, i + 1);
      if here > rest then here else rest
  }

  /** Value::operator<, type first; containers by size and then element by element. */
  predicate Less(a: Value, b: Value)
    decreases Nesting(a) + Nesting(b), 1
  {
    if Rank(a.payload) != Rank(b.payload) then Rank(a.payload) < Rank(b.payload)
    else if a.payload.Int? then a.payload.i < b.payload.i
    else if a.payload.UInt? then a.payload.u < b.payload.u
    else if a.payload.Boolean? then !a.payload.b && b.payload.b
    else if a.payload.String? then TextLess(a.payload.s, b.payload.s)
    else if IsContainer(a) then
      var delta := ToInt32(|a.payload.entries| - |b.payload.entries|);
      if delta != 0 then delta < 0 else MapLess(a, b, 0)
    else false
  }

  /** operator< of two maps from entry `i` on: lexicographic, an entry being a pair of key and value. */
  predicate MapLess(a: Value, b: Value, i: nat)
    requires IsContainer(a) && IsContainer(b)
    decreases Nesting(a) + Nesting(b), 0, |a.payload.entries| - i
  {
    var es, fs := a.payload.entries, b.payload.entries;
    if i >= |fs| then false
    else if i >= |es| then true
    else if KeyLess(es[i].key, fs[i].key) then true
    else if KeyLess(fs[i].key, es[i].key) then false
    else
      || Less(es[i].value, fs[i].value)
      || (!Less(fs[i].value, es[i].value) && MapLess(a, b, i + 1))
  }

  /** Value::compare */
  function Compare(a: Value, b: Value): int {
    if Less(a, b) then -1 else if Less(b, a) then 1 else 0
  }

  predicate Comparable(v: Value) {
    Valid(v) && RealFree(v)
  }

  predicate SameType(a: Value, b: Value) {
    IsContainer(a) && IsContainer(b) && a.payload.Array? == b.payload.Array?
  }

  /** The entries of `a` and `b` from `i` up to `k` are there and equal. */
  predicate SameUpTo(a: Value, b: Value, i: nat, k: nat)
    requires IsContainer(a) && IsContainer(b)
  {
    var es, fs := a.payload.entries, b.payload.entries;
    k <= |es| && k <= |fs| && forall j | i <= j < k :: es[j].key == fs[j].key && Equal(es[j].value, fs[j].value)
  }

  /** Entries `i` on are equal. */
  predicate EqualFrom(a: Value, b: Value, i: nat)
    requires IsContainer(a) && IsContainer(b)
  {
    |a.payload.entries| == |b.payload.entries| && SameUpTo(a, b, i, |a.payload.entries|)
  }

  /** Entry `i` of `a` comes before that of `b`: by key, then by value. */
  predicate EntryLess(a: Value, b: Value, i: nat)
    requires IsContainer(a) && IsContainer(b) && i < |a.payload.entries| && i < |b.payload.entries|
  {
    var e, f := a.payload.entries[i], b.payload.entries[i];
    KeyLess(e.key, f.key) || (e.key == f.key && Less(e.value, f.value))
  }

  // ---- where the order fails ----

  /** The difference of the sizes, in 32 bits. */
  function Gap(a: Value, b: Value): nat
    requires IsContainer(a) && IsContainer(b)
  {
    (|a.payload.entries| - |b.payload.entries|) % (2 * TWO31)
  }

  /** The comparison comes to two containers, the values themselves or elements of theirs with nothing different before
      them, whose sizes are 2^31 apart. */
  predicate Clash(a: Value, b: Value)
    decreases a, 2
  {
    SameType(a, b) && (Gap(a, b) == TWO31 || (Gap(a, b) == 0 && ClashFrom(a, b, 0)))
  }

  predicate ClashFrom(a: Value, b: Value, i: nat)
    requires IsContainer(a) && IsContainer(b)
    decreases a, 1
  {
    exists k | i <= k < |a.payload.entries| :: SameUpTo(a, b, i, k) && ClashAt(a, b, k)
  }

  predicate ClashAt(a: Value, b: Value, k: nat)
    requires IsContainer(a) && IsContainer(b) && k < |a.payload.entries|
    decreases a, 0
  {
    var es, fs := a.payload.entries, b.payload.entries;
    k < |fs| && es[k].key == fs[k].key && Clash(es[k].value, fs[k].value)
  }

  /** A place with nothing different before it, seen from one entry earlier. */
  lemma FirstIsHereOrLater(a: Value, b: Value, i: nat)
    requires SameType(a, b) && i < |a.payload.entries| && i < |b.payload.entries|
    ensures forall k | i < k :: SameUpTo(a, b, i, k) <==> SameUpTo(a, b, i, i + 1) && SameUpTo(a, b, i + 1, k)
    ensures SameUpTo(a, b, i, i)
    ensures EqualFrom(a, b, i) <==> SameUpTo(a, b, i, i + 1) && EqualFrom(a, b, i + 1)
  {
  }

  lemma ClashFromStep(a: Value, b: Value, i: nat)
    requires SameType(a, b) && i < |a.payload.entries| && i < |b.payload.entries|
    ensures ClashFrom(a, b, i) <==> ClashAt(a, b, i) || (SameUpTo(a, b, i, i + 1) && ClashFrom(a, b, i + 1))
  {
    hide SameUpTo, ClashAt;
    var next := i + 1;
    FirstIsHereOrLater(a, b, i);
    if SameUpTo(a, b, i, next) && ClashFrom(a, b, next) {
      var k :| next <= k < |a.payload.entries| && SameUpTo(a, b, next, k) && ClashAt(a, b, k);
      assert SameUpTo(a, b, i, k);
    }
    if ClashAt(a, b, i) {
      assert SameUpTo(a, b, i, i);
    }
  }

  // ---- values ----

  /** Exactly one of less, greater and equal. */
  predicate Trichotomous(a: Value, b: Value) {
    && !(Less(a, b) && Less(b, a))
    && (!Less(a, b) && !Less(b, a) <==> Equal(a, b))
  }

  /** What Less says of two values in both directions. */
  predicate Compared(a: Value, b: Value) {
    && (Less(a, b) && Less(b, a) <==> Clash(a, b))
    && (!Less(a, b) && !Less(b, a) <==> Equal(a, b))
  }

  lemma {:induction false} MapTrichotomy(a: Value, b: Value, i: nat)
    requires Comparable(a) && Comparable(b) && SameType(a, b)
    requires i <= |a.payload.entries| && i <= |b.payload.entries|
    ensures MapLess(a, b, i) && MapLess(b, a, i) <==> ClashFrom(a, b, i)
    ensures !MapLess(a, b, i) && !MapLess(b, a, i) <==> EqualFrom(a, b, i)
    decreases Nesting(a) + Nesting(b), 1, |a.payload.entries| - i
  {
    hide KeyLess, Equal, Less, EqualFrom, ClashFrom, Clash;
    if i < |a.payload.entries| && i < |b.payload.entries| {
      EntriesCompare(a, b, i);
      EntriesCompare(b, a, i);
      MapTrichotomy(a, b, i + 1);
      ClashFromStep(a, b, i);
      FirstIsHereOrLater(a, b, i);
      FirstIsHereOrLater(b, a, i);
      MapLessStep(a, b, i);
      MapLessStep(b, a, i);
    } else {
      NothingLeft(a, b, i);
      NothingLeft(b, a, i);
    }
  }

  lemma {:induction false} EntriesCompare(a: Value, b: Value, i: nat)
    requires Comparable(a) && Comparable(b) && SameType(a, b) && i < |a.payload.entries| && i < |b.payload.entries|
    ensures Compared(a.payload.entries[i].value, b.payload.entries[i].value)
    ensures EntryLess(a, b, i) && EntryLess(b, a, i) <==> ClashAt(a, b, i)
    ensures !EntryLess(a, b, i) && !EntryLess(b, a, i) <==> SameUpTo(a, b, i, i + 1)
    decreases Nesting(a) + Nesting(b), 0, 0
  {
    hide KeyLess, Equal, Less, Clash;
    KeyTrichotomy(a.payload.entries[i].key, b.payload.entries[i].key);
    Trichotomy(a.payload.entries[i].value, b.payload.entries[i].value);
  }

  /** operator< of two maps, by its first entries. */
  lemma MapLessStep(a: Value, b: Value, i: nat)
    requires Comparable(a) && Comparable(b) && SameType(a, b) && i < |a.payload.entries| && i < |b.payload.entries|
    requires Compared(a.payload.entries[i].value, b.payload.entries[i].value)
    ensures MapLess(a, b, i) <==> EntryLess(a, b, i) || (SameUpTo(a, b, i, i + 1) && MapLess(a, b, i + 1))
  {
    hide KeyLess, Less, Equal, Clash;
    KeyTrichotomy(a.payload.entries[i].key, b.payload.entries[i].key);
  }

  lemma NothingLeft(a: Value, b: Value, i: nat)
    requires SameType(a, b) && i <= |a.payload.entries| && i <= |b.payload.entries|
    requires i == |a.payload.entries| || i == |b.payload.entries|
    ensures MapLess(a, b, i) <==> |a.payload.entries| < |b.payload.entries|
    ensures !ClashFrom(a, b, i)
    ensures EqualFrom(a, b, i) <==> |a.payload.entries| == |b.payload.entries|
  {
    hide KeyLess, Less, Clash;
  }

  /** Each of two values is less than the other exactly if the comparison comes to sizes that are 2^31 apart; neither is
      less exactly if they are equal. */
  lemma {:induction false} Trichotomy(a: Value, b: Value)
    requires Comparable(a) && Comparable(b)
    ensures Compared(a, b)
    ensures Trichotomous(a, b) <==> !Clash(a, b)
    decreases Nesting(a) + Nesting(b), 2
  {
    hide KeyLess, MapLess, ClashFrom, EqualFrom, TextLess;
    if a.payload.String? && b.payload.String? {
      TextTrichotomy(a.payload.s, b.payload.s);
    } else if SameType(a, b) {
      GapMeans(a, b);
      EqualIsEqualFrom(a, b);
      if Gap(a, b) == 0 {
        MapTrichotomy(a, b, 0);
      }
    }
  }

  /** How two sizes compare as the code subtracts them, in either order. */
  lemma GapMeans(a: Value, b: Value)
    requires IsContainer(a) && IsContainer(b)
    ensures var d, e := ToInt32(|a.payload.entries| - |b.payload.entries|),
                        ToInt32(|b.payload.entries| - |a.payload.entries|);
            && (d == 0 <==> Gap(a, b) == 0) && (e == 0 <==> Gap(a, b) == 0)
            && (d < 0 <==> TWO31 <= Gap(a, b)) && (e < 0 <==> 0 < Gap(a, b) <= TWO31)
    ensures |a.payload.entries| == |b.payload.entries| ==> Gap(a, b) == 0
  {
    hide ToInt32;
    CastMeans(|a.payload.entries| - |b.payload.entries|);
    CastMeans(|b.payload.entries| - |a.payload.entries|);
    Opposite(|a.payload.entries| - |b.payload.entries|);
  }

  lemma CastMeans(d: int)
    ensures ToInt32(d) == 0 <==> d % (2 * TWO31) == 0
    ensures ToInt32(d) < 0 <==> TWO31 <= d % (2 * TWO31)
  {
    var r := d % 0x1_0000_0000;
    assert d == d / 0x1_0000_0000 * 0x1_0000_0000 + r;
    assert (d + TWO31) % 0x1_0000_0000 == if r < TWO31 then r + TWO31 else r - TWO31;
  }

  lemma Opposite(d: int)
    ensures (-d) % (2 * TWO31) == if d % (2 * TWO31) == 0 then 0 else 2 * TWO31 - d % (2 * TWO31)
  {
    var r := d % 0x1_0000_0000;
    assert d == d / 0x1_0000_0000 * 0x1_0000_0000 + r;
  }

  lemma EqualIsEqualFrom(a: Value, b: Value)
    requires SameType(a, b)
    ensures Equal(a, b) <==> EqualFrom(a, b, 0)
  {
  }

  /** Two containers of one type with comparable elements compare as one of less, greater and equal exactly if their
      sizes are not 2^31 apart in 32 bits. */
  lemma ContainersCompareExactly(a: Value, b: Value)
    requires Comparable(a) && Comparable(b) && SameType(a, b)
    requires var es, fs := a.payload.entries, b.payload.entries;
             forall i | 0 <= i < |es| && i < |fs| :: Trichotomous(es[i].value, fs[i].value)
    ensures Trichotomous(a, b) <==> (|a.payload.entries| - |b.payload.entries|) % 0x1_0000_0000 != 0x8000_0000
  {
    hide Trichotomous, SameUpTo;
    var es, fs := a.payload.entries, b.payload.entries;
    Trichotomy(a, b);
    forall k | 0 <= k < |es| ensures !ClashAt(a, b, k) {
      if k < |fs| {
        Trichotomy(es[k].value, fs[k].value);
      }
    }
    assert !ClashFrom(a, b, 0);
  }

  // ---- where it holds ----

  /** Containers that get compared differ in size by less than 2^31. */
  predicate Near(a: Value, b: Value)
    decreases a
  {
    SameType(a, b) ==>
      var es, fs := a.payload.entries, b.payload.entries;
      && -TWO31 < |es| - |fs| < TWO31
      && (|es| == |fs| ==> forall i | 0 <= i < |es| :: Near(es[i].value, fs[i].value))
  }

  lemma {:induction false} NearNeverClashes(a: Value, b: Value)
    requires Near(a, b)
    ensures !Clash(a, b)
    decreases a
  {
    hide SameUpTo, Gap;
    if SameType(a, b) {
      NearSizes(a, b);
      if Gap(a, b) == 0 {
        var es, fs := a.payload.entries, b.payload.entries;
        forall k | 0 <= k < |es| ensures !ClashAt(a, b, k) {
          NearNeverClashes(es[k].value, fs[k].value);
        }
        assert !ClashFrom(a, b, 0);
      }
    }
  }

  lemma {:induction false} NearItself(a: Value)
    ensures Near(a, a)
    decreases a
  {
    if IsContainer(a) {
      forall i | 0 <= i < |a.payload.entries| ensures Near(a.payload.entries[i].value, a.payload.entries[i].value) {
        NearItself(a.payload.entries[i].value);
      }
    }
  }

  lemma {:induction false} NearBothWays(a: Value, b: Value)
    requires Near(a, b)
    ensures Near(b, a)
    decreases a
  {
    if SameType(a, b) && |a.payload.entries| == |b.payload.entries| {
      forall i | 0 <= i < |a.payload.entries| ensures Near(b.payload.entries[i].value, a.payload.entries[i].value) {
        NearBothWays(a.payload.entries[i].value, b.payload.entries[i].value);
      }
    }
  }

  /** Fewer than 2^31 elements in every container. */
  predicate IsSmall(v: Value) {
    IsContainer(v) ==>
      |v.payload.entries| < TWO31 && forall i | 0 <= i < |v.payload.entries| :: IsSmall(v.payload.entries[i].value)
  }

  lemma {:induction false} SmallAreNear(a: Value, b: Value)
    requires IsSmall(a) && IsSmall(b)
    ensures Near(a, b)
    decreases a
  {
    if SameType(a, b) {
      var es, fs := a.payload.entries, b.payload.entries;
      forall i | 0 <= i < |es| && |es| == |fs| ensures Near(es[i].value, fs[i].value) {
        SmallAreNear(es[i].value, fs[i].value);
      }
    }
  }

  lemma NearTrichotomous(a: Value, b: Value)
    requires Comparable(a) && Comparable(b) && Near(a, b)
    ensures Trichotomous(a, b)
  {
    NearNeverClashes(a, b);
    Trichotomy(a, b);
  }

  predicate Leq(a: Value, b: Value) {
    Less(a, b) || Equal(a, b)
  }

  predicate MapLeq(a: Value, b: Value, i: nat)
    requires IsContainer(a) && IsContainer(b)
  {
    MapLess(a, b, i) || EqualFrom(a, b, i)
  }

  predicate SameShape(a: Value, b: Value) {
    SameType(a, b) && |a.payload.entries| == |b.payload.entries|
  }

  /** Three values, each near the others. */
  predicate AllNear(a: Value, b: Value, c: Value) {
    && Comparable(a) && Comparable(b) && Comparable(c)
    && Near(a, b) && Near(b, c) && Near(a, c)
  }

  lemma AllNearBelow(a: Value, b: Value, c: Value, i: nat)
    requires AllNear(a, b, c) && SameShape(a, b) && SameShape(b, c) && i < |a.payload.entries|
    ensures AllNear(a.payload.entries[i].value, b.payload.entries[i].value, c.payload.entries[i].value)
  {
  }

  lemma {:induction false} MapTransitive(a: Value, b: Value, c: Value, i: nat)
    requires AllNear(a, b, c) && SameShape(a, b) && SameShape(b, c)
    requires i <= |a.payload.entries| && MapLeq(a, b, i) && MapLeq(b, c, i)
    ensures if EqualFrom(a, b, i) && EqualFrom(b, c, i) then EqualFrom(a, c, i) else MapLess(a, c, i)
    decreases Nesting(a) + Nesting(b) + Nesting(c), 1, |a.payload.entries| - i
  {
    hide KeyLess, Equal, Less, EqualFrom, AllNear, MapLess, EntryLess, SameUpTo;
    if i < |a.payload.entries| {
      EntriesTransitive(a, b, c, i);
      if SameUpTo(a, b, i, i + 1) && SameUpTo(b, c, i, i + 1) {
        MapTransitive(a, b, c, i + 1);
      }
    } else {
      NothingLeft(a, b, i);
      NothingLeft(b, c, i);
      NothingLeft(a, c, i);
    }
  }

  /** One step of the comparison, for three maps: what comes first, and what is left when nothing differs. */
  lemma {:induction false} EntriesTransitive(a: Value, b: Value, c: Value, i: nat)
    requires AllNear(a, b, c) && SameShape(a, b) && SameShape(b, c) && i < |a.payload.entries|
    ensures StepOf(a, b, i) && StepOf(b, c, i) && StepOf(a, c, i)
    ensures !(EntryLess(a, b, i) && SameUpTo(a, b, i, i + 1)) && !(EntryLess(b, c, i) && SameUpTo(b, c, i, i + 1))
    ensures (EntryLess(a, b, i) || SameUpTo(a, b, i, i + 1)) && (EntryLess(b, c, i) || SameUpTo(b, c, i, i + 1)) ==>
              if SameUpTo(a, b, i, i + 1) && SameUpTo(b, c, i, i + 1) then SameUpTo(a, c, i, i + 1)
              else EntryLess(a, c, i)
    decreases Nesting(a) + Nesting(b) + Nesting(c), 0, 0
  {
    hide KeyLess, Equal, Less, Near, Comparable, MapLess, EqualFrom, StepOf;
    var e, f, g := a.payload.entries[i], b.payload.entries[i], c.payload.entries[i];
    StepTaken(a, b, i);
    StepTaken(b, c, i);
    StepTaken(a, c, i);
    AllNearBelow(a, b, c, i);
    if KeyLess(e.key, f.key) && KeyLess(f.key, g.key) {
      KeyTransitive(e.key, f.key, g.key);
    } else if e.key == f.key == g.key && Leq(e.value, f.value) && Leq(f.value, g.value) {
      Transitive(e.value, f.value, g.value);
    }
  }

  /** The comparison from entry `i` on, by that entry and the ones after it. */
  predicate StepOf(a: Value, b: Value, i: nat)
    requires SameType(a, b) && i < |a.payload.entries| && i < |b.payload.entries|
  {
    && (MapLess(a, b, i) <==> EntryLess(a, b, i) || (SameUpTo(a, b, i, i + 1) && MapLess(a, b, i + 1)))
    && (EqualFrom(a, b, i) <==> SameUpTo(a, b, i, i + 1) && EqualFrom(a, b, i + 1))
  }

  lemma StepTaken(a: Value, b: Value, i: nat)
    requires Comparable(a) && Comparable(b) && SameType(a, b) && i < |a.payload.entries| && i < |b.payload.entries|
    ensures StepOf(a, b, i) && !(EntryLess(a, b, i) && SameUpTo(a, b, i, i + 1))
  {
    hide KeyLess, Equal, Less, MapLess, EqualFrom;
    EntriesCompare(a, b, i);
    MapLessStep(a, b, i);
    FirstIsHereOrLater(a, b, i);
  }

  /** Less-or-equal composes, and strictly so if either step is strict. */
  lemma {:induction false} Transitive(a: Value, b: Value, c: Value)
    requires AllNear(a, b, c) && Leq(a, b) && Leq(b, c)
    ensures if Equal(a, b) && Equal(b, c) then Equal(a, c) else Less(a, c)
    decreases Nesting(a) + Nesting(b) + Nesting(c), 2
  {
    hide KeyLess, MapLess, EqualFrom, TextLess, Valid, RealFree;
    if a.payload.String? && b.payload.String? && c.payload.String? {
      TextTrichotomy(a.payload.s, b.payload.s);
      if TextLess(a.payload.s, b.payload.s) && TextLess(b.payload.s, c.payload.s) {
        TextTransitive(a.payload.s, b.payload.s, c.payload.s);
      }
    } else if SameType(a, b) && SameType(b, c) {
      NearCompares(a, b);
      NearCompares(b, c);
      NearCompares(a, c);
      if SameShape(a, b) && SameShape(b, c) {
        MapTransitive(a, b, c, 0);
      }
    }
  }

  /** Containers near each other compare by their sizes, and then by their entries. */
  lemma NearCompares(a: Value, b: Value)
    requires SameType(a, b) && Near(a, b)
    ensures Less(a, b) <==>
            |a.payload.entries| < |b.payload.entries| || (SameShape(a, b) && MapLess(a, b, 0))
    ensures Equal(a, b) <==> EqualFrom(a, b, 0)
  {
    hide MapLess, Near;
    GapMeans(a, b);
    NearSizes(a, b);
    EqualIsEqualFrom(a, b);
  }

  lemma NearSizes(a: Value, b: Value)
    requires SameType(a, b) && Near(a, b)
    ensures Shorter(a, b) <==> |a.payload.entries| < |b.payload.entries|
    ensures Gap(a, b) == 0 <==> |a.payload.entries| == |b.payload.entries|
    ensures Gap(a, b) != TWO31
  {
  }

  // ---- what is compared ----

  /** `a` has fewer elements, by the difference in 32 bits. */
  predicate Shorter(a: Value, b: Value)
    requires IsContainer(a) && IsContainer(b)
  {
    ToInt32(|a.payload.entries| - |b.payload.entries|) < 0
  }

  /** The entries agree from `i` up to `k`, and there `a` ends or has the smaller key or value. */
  predicate FirstEntryAt(a: Value, b: Value, i: nat, k: nat)
    requires IsContainer(a) && IsContainer(b)
  {
    i <= k < |b.payload.entries| && SameUpTo(a, b, i, k) && (k == |a.payload.entries| || EntryLess(a, b, k))
  }

  lemma {:induction false} MapLessExactly(a: Value, b: Value, i: nat)
    requires Comparable(a) && Comparable(b) && SameType(a, b)
    requires i <= |a.payload.entries| && i <= |b.payload.entries|
    ensures MapLess(a, b, i) <==> exists k :: FirstEntryAt(a, b, i, k)
    decreases |a.payload.entries| - i
  {
    hide Comparable, MapLess, SameUpTo, EntryLess;
    if i < |a.payload.entries| && i < |b.payload.entries| {
      StepTaken(a, b, i);
      FirstIsHereOrLater(a, b, i);
      MapLessExactly(a, b, i + 1);
      FirstEntryStep(a, b, i);
    } else {
      FirstIsHere(a, b, i);
      NothingLeft(a, b, i);
    }
  }

  lemma FirstIsHere(a: Value, b: Value, i: nat)
    requires IsContainer(a) && IsContainer(b) && i <= |a.payload.entries| && i <= |b.payload.entries|
    requires i == |a.payload.entries| || i == |b.payload.entries|
    ensures (exists k :: FirstEntryAt(a, b, i, k)) <==> |a.payload.entries| < |b.payload.entries|
  {
    hide EntryLess;
    if i < |b.payload.entries| {
      assert FirstEntryAt(a, b, i, i);
    }
  }

  lemma FirstEntryStep(a: Value, b: Value, i: nat)
    requires SameType(a, b) && i < |a.payload.entries| && i < |b.payload.entries|
    ensures (exists k :: FirstEntryAt(a, b, i, k)) <==>
            var next := i + 1;
            EntryLess(a, b, i) || (SameUpTo(a, b, i, next) && exists k :: FirstEntryAt(a, b, next, k))
  {
    hide SameUpTo, EntryLess;
    var next := i + 1;
    FirstIsHereOrLater(a, b, i);
    if k: nat :| FirstEntryAt(a, b, i, k) && k > i {
      assert FirstEntryAt(a, b, next, k);
    }
    if EntryLess(a, b, i) {
      assert FirstEntryAt(a, b, i, i);
    }
    if SameUpTo(a, b, i, next) {
      if k: nat :| FirstEntryAt(a, b, next, k) {
        assert FirstEntryAt(a, b, i, k);
      }
    }
  }

  /** Whether the constructor of `p` stands before that of `q` in the enumeration of types. */
  predicate StandsBefore(p: Payload, q: Payload) {
    match p
    case Null => !q.Null?
    case Int(_) => q.UInt? || q.Real? || q.String? || q.Boolean? || q.Array? || q.Object?
    case UInt(_) => q.Real? || q.String? || q.Boolean? || q.Array? || q.Object?
    case Real(_) => q.String? || q.Boolean? || q.Array? || q.Object?
    case String(_) => q.Boolean? || q.Array? || q.Object?
    case Boolean(_) => q.Array? || q.Object?
    case Array(_) => q.Object?
    case Object(_) => false
  }

  /** What operator< compares: types first, in the order of the enumeration, then numbers by size, strings at their
      first different byte, containers by the number of their elements, subtracted in 32 bits, and then at their first
      different element, by key before value. */
  lemma LessExactly(a: Value, b: Value)
    requires Comparable(a) && Comparable(b)
    ensures Less(a, b) <==>
            if StandsBefore(a.payload, b.payload) then true
            else if StandsBefore(b.payload, a.payload) then false
            else match a.payload
              case Int(i) => i < b.payload.i
              case UInt(u) => u < b.payload.u
              case Boolean(t) => !t && b.payload.b
              case String(s) => exists k :: FirstAt(s, b.payload.s, k)
              case Null => false
              case Real(_) => false
              case Array(es) => Shorter(a, b) || (Gap(a, b) == 0 && exists k :: FirstEntryAt(a, b, 0, k))
              case Object(es) => Shorter(a, b) || (Gap(a, b) == 0 && exists k :: FirstEntryAt(a, b, 0, k))
    ensures SameType(a, b) && Near(a, b) ==> (Shorter(a, b) <==> |a.payload.entries| < |b.payload.entries|)
  {
    hide MapLess, FirstEntryAt, FirstAt, TextLess, Valid, Near;
    if a.payload.String? && b.payload.String? {
      TextLessExactly(a.payload.s, b.payload.s);
    } else if SameType(a, b) {
      GapMeans(a, b);
      MapLessExactly(a, b, 0);
      if Near(a, b) {
        NearSizes(a, b);
      }
    }
  }

  // ---- the order ----

  /** On values near each other operator< is a strict total order up to operator==, and compare reports it. */
  lemma StrictTotalOrder(a: Value, b: Value, c: Value)
    requires AllNear(a, b, c)
    ensures !Less(a, a)
    ensures Less(a, b) && Less(b, c) ==> Less(a, c)
    ensures Less(a, b) || Less(b, a) || Equal(a, b)
    ensures !(Less(a, b) && Less(b, a)) && !(Less(a, b) && Equal(a, b))
    ensures Compare(a, b) == 0 <==> Equal(a, b)
    ensures Compare(a, b) < 0 <==> Less(a, b)
    ensures Compare(b, a) == -Compare(a, b)
  {
    hide Less, Equal, Near, Comparable;
    NearItself(a);
    NearTrichotomous(a, a);
    NearTrichotomous(a, b);
    NearTrichotomous(b, c);
    if Less(a, b) && Less(b, c) {
      Transitive(a, b, c);
    }
  }

  /** Arrays of `n` nulls. */
  function Nulls(n: nat): Value {
    Value(Array(Items(seq(n, _ => NULL_VALUE))), 0, 0)
  }

  lemma NullsAre(n: nat)
    ensures |Nulls(n).payload.entries| == n && Comparable(Nulls(n))
  {
  }

  /** Without nearness nothing of it is left: two arrays each less than the other, and three in a circle although no two
      of them are 2^31 apart. */
  lemma FarApart()
    ensures var a, b := Nulls(0), Nulls(0x8000_0000);
            Comparable(a) && Comparable(b) && Less(a, b) && Less(b, a)
    ensures var a, b, c := Nulls(0), Nulls(0x6000_0000), Nulls(0xC000_0000);
            && Comparable(a) && Comparable(b) && Comparable(c)
            && Less(a, b) && Less(b, c) && Less(c, a)
            && Trichotomous(a, b) && Trichotomous(b, c) && Trichotomous(a, c)
  {
    hide Nulls, Comparable, Less, Equal, Trichotomous;
    NullsCompare(0, 0x8000_0000);
    NullsCompare(0, 0x6000_0000);
    NullsCompare(0x6000_0000, 0xC000_0000);
    NullsCompare(0, 0xC000_0000);
  }

  lemma NullsCompare(m: nat, n: nat)
    requires m != n && ToInt32(m - n) != 0 && ToInt32(n - m) != 0
    ensures Comparable(Nulls(m)) && Comparable(Nulls(n))
    ensures Less(Nulls(m), Nulls(n)) <==> ToInt32(m - n) < 0
    ensures Less(Nulls(n), Nulls(m)) <==> ToInt32(n - m) < 0
    ensures Trichotomous(Nulls(m), Nulls(n)) <==> (ToInt32(m - n) < 0) != (ToInt32(n - m) < 0)
  {
    hide MapLess, Items, ToInt32, Comparable;
    NullsAre(m);
    NullsAre(n);
  }
}
