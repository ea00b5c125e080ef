/** What parse makes of the documents that FastWriter writes. */
module RoundTripTheorems {
  import opened Bytes
  import opened Values
  import opened OrderedMap
  import opened Parsing
  import opened Spelling
  import opened RoundTrip
  import FastWriting
  import StyledWriting

  /** parse gave the value back; with strict root a scalar is refused all the same. */
  predicate ParsesTo(cfg: Config, r: Verdict, v: Value) {
    && r.Parsed?
    && Equal(r.root, v)
    && r.ok == !(cfg.strictRoot && !IsContainer(v))
    && (r.ok <==> r.errors == [])
  }

  /** Any document that spells a dense value is parsed to it, or aborts parsing if the value is too deep. */
  lemma SpelledDocumentParses(cfg: Config, drop: bool, doc: Text, q: nat, v: Value, root0: Value)
    requires IsDense(v) && Spells(doc, 0, Words(drop, v), q)
    requires drop ==> cfg.allowDropped && !v.payload.Null?
    ensures var r := Parse(cfg, doc, root0);
            if Height(drop, v) >= cfg.stackLimit then r == Aborted else ParsesTo(cfg, r, Reread(drop, v))
  {
    assert Words(drop, v) + [] == Words(drop, v);
    ValueReadsBack(cfg, drop, doc, 1, 0, root0, v, [], q);
  }

  // ---- the dense view ----

  /** The value with every hole of an array filled with a null, however large its arrays are. */
  function DenseView(v: Value): (d: Value)
    ensures d.payload.Array? == v.payload.Array? && IsContainer(d) == IsContainer(v)
    ensures v.payload.Null? == d.payload.Null?
    decreases v
  {
    match v.payload
    case Array(es) =>
      v.(payload := Array(seq(ArraySize(es), i requires 0 <= i < ArraySize(es) =>
        var n := LowerBound(es, Index(i));
        Entry(Index(i), if n < |es| && es[n].key == Index(i) then DenseView(es[n].value) else NULL_VALUE))))
    case Object(es) =>
      v.(payload := Object(seq(|es|, i requires 0 <= i < |es| => Entry(es[i].key, DenseView(es[i].value)))))
    case _ => v
  }

  /** size() tells the size of every array: none holds the last index, 2^32 - 1. */
  predicate SizesFit(v: Value) {
    match v.payload
    case Array(es) => ArraySize(es) < INDEX_RANGE && forall i | 0 <= i < |es| :: SizesFit(es[i].value)
    case Object(es) => forall i | 0 <= i < |es| :: SizesFit(es[i].value)
    case _ => true
  }

  /** What comes back of the writers' view and of the dense view is the same. */
  predicate SameView(drop: bool, v: Value) {
    Equal(Reread(drop, Dense(v)), Reread(drop, DenseView(v)))
  }

  lemma ObjectView(drop: bool, v: Value)
    requires v.payload.Object?
    ensures SameView(drop, v) <==> forall i | 0 <= i < |v.payload.entries| :: SameView(drop, v.payload.entries[i].value)
  {
    var es := v.payload.entries;
    var rs, qs := Reread(drop, Dense(v)).payload.entries, Reread(drop, DenseView(v)).payload.entries;
    assert |rs| == |qs| == |es|;
    forall i | 0 <= i < |es|
      ensures rs[i] == Entry(es[i].key, Reread(drop, Dense(es[i].value)))
      ensures qs[i] == Entry(es[i].key, Reread(drop, DenseView(es[i].value)))
    {
    }
  }

  /** The entry that stands at a place of the dense view. */
  lemma EntryAtItsIndex(es: seq<Entry>, k: nat)
    requires Sorted(es) && SameKind(es, false) && k < |es|
    ensures es[k].key.i < ArraySize(es) && LowerBound(es, Index(es[k].key.i)) == k
  {
    BoundAt(es, k);
    assert k < |es| - 1 ==> KeyLess(es[k].key, es[|es| - 1].key);
  }

  /** The element at a place of an array, or the null of a hole, in both views. */
  lemma ViewsAt(v: Value, i: nat)
    requires v.payload.Array? && i < ArraySize(v.payload.entries)
    ensures var es, n := v.payload.entries, LowerBound(v.payload.entries, Index(i));
            var there := n < |es| && es[n].key == Index(i);
            && |DenseView(v).payload.entries| == ArraySize(es) && |Dense(v).payload.entries| == Size32(es)
            && DenseView(v).payload.entries[i] == Entry(Index(i), if there then DenseView(es[n].value) else NULL_VALUE)
            && (i < Size32(es) ==>
                  Dense(v).payload.entries[i] == Entry(Index(i), if there then Dense(es[n].value) else NULL_VALUE))
  {
    hide LowerBound;
  }

  predicate SameElement(drop: bool, a: Value, b: Value, i: nat)
    requires IsContainer(a) && IsContainer(b) && i < |a.payload.entries| && i < |b.payload.entries|
  {
    Equal(Reread(drop, a.payload.entries[i].value), Reread(drop, b.payload.entries[i].value))
  }

  lemma EntryView(drop: bool, v: Value, i: nat)
    requires v.payload.Array? && i < ArraySize(v.payload.entries) < INDEX_RANGE
    ensures var es, n := v.payload.entries, LowerBound(v.payload.entries, Index(i));
            && i < |Dense(v).payload.entries| && i < |DenseView(v).payload.entries|
            && (SameElement(drop, Dense(v), DenseView(v), i) <==>
                n < |es| && es[n].key == Index(i) ==> SameView(drop, es[n].value))
  {
    hide LowerBound, Dense, DenseView, Reread, Equal;
    ViewsAt(v, i);
    NullSame(drop);
  }

  lemma ArrayEntries(drop: bool, v: Value)
    requires v.payload.Array? && Valid(v) && ArraySize(v.payload.entries) < INDEX_RANGE
    ensures |Dense(v).payload.entries| == |DenseView(v).payload.entries| == ArraySize(v.payload.entries)
    ensures (forall i | 0 <= i < ArraySize(v.payload.entries) :: SameElement(drop, Dense(v), DenseView(v), i)) <==>
            (forall k | 0 <= k < |v.payload.entries| :: SameView(drop, v.payload.entries[k].value))
  {
    hide SameElement, SameView, Dense, DenseView, LowerBound, KeyLess;
    var es := v.payload.entries;
    ViewLengths(v);
    forall i | 0 <= i < ArraySize(es)
      ensures var n := LowerBound(es, Index(i));
              SameElement(drop, Dense(v), DenseView(v), i) <==>
              n < |es| && es[n].key == Index(i) ==> SameView(drop, es[n].value)
    {
      EntryView(drop, v, i);
    }
    if forall i | 0 <= i < ArraySize(es) :: SameElement(drop, Dense(v), DenseView(v), i) {
      forall k | 0 <= k < |es| ensures SameView(drop, es[k].value) {
        EntryAtItsIndex(es, k);
        assert SameElement(drop, Dense(v), DenseView(v), es[k].key.i);
      }
    }
  }

  lemma ViewLengths(v: Value)
    requires v.payload.Array?
    ensures |Dense(v).payload.entries| == Size32(v.payload.entries)
    ensures |DenseView(v).payload.entries| == ArraySize(v.payload.entries)
  {
    hide LowerBound;
  }

  predicate SameShape(e: Entry, f: Entry) {
    e.key == f.key && e.value.payload.Null? == f.value.payload.Null?
  }

  lemma SameShapes(v: Value)
    requires v.payload.Array? && ArraySize(v.payload.entries) < INDEX_RANGE
    ensures |Dense(v).payload.entries| == |DenseView(v).payload.entries|
    ensures forall i | 0 <= i < |Dense(v).payload.entries| ::
              SameShape(Dense(v).payload.entries[i], DenseView(v).payload.entries[i])
  {
    hide Dense, DenseView, LowerBound;
    ViewLengths(v);
    forall i | 0 <= i < ArraySize(v.payload.entries)
      ensures SameShape(Dense(v).payload.entries[i], DenseView(v).payload.entries[i])
    {
      ViewsAt(v, i);
    }
  }

  lemma ArrayView(drop: bool, v: Value)
    requires v.payload.Array? && Valid(v) && ArraySize(v.payload.entries) < INDEX_RANGE
    ensures SameView(drop, v) <==> forall i | 0 <= i < |v.payload.entries| :: SameView(drop, v.payload.entries[i].value)
  {
    hide Dense, DenseView, LowerBound, Equal, Reread, Valid;
    ArrayEntries(drop, v);
    SameShapes(v);
    RereadArrays(drop, Dense(v), DenseView(v));
    if drop && IsLoneNull(Dense(v)) {
      assert SameShape(Dense(v).payload.entries[0], DenseView(v).payload.entries[0]);
      NullsSame(drop, Dense(v).payload.entries[0].value, DenseView(v).payload.entries[0].value);
    }
  }

  /** Two arrays of one size come back the same exactly if their elements do; lone nulls come back the same anyway. */
  lemma RereadArrays(drop: bool, a: Value, b: Value)
    requires a.payload.Array? && b.payload.Array? && |a.payload.entries| == |b.payload.entries|
    requires forall i | 0 <= i < |a.payload.entries| :: SameShape(a.payload.entries[i], b.payload.entries[i])
    ensures Equal(Reread(drop, a), Reread(drop, b)) <==>
            (drop && IsLoneNull(a)) ||
            forall i | 0 <= i < |a.payload.entries| :: SameElement(drop, a, b, i)
  {
    hide Reread, Equal;
    RereadLength(drop, a);
    RereadLength(drop, b);
    var x, y := Reread(drop, a), Reread(drop, b);
    if drop && IsLoneNull(a) {
      assert SameShape(a.payload.entries[0], b.payload.entries[0]);
    } else {
      assert |a.payload.entries| == 1 ==> SameShape(a.payload.entries[0], b.payload.entries[0]);
      forall i | 0 <= i < |a.payload.entries|
        ensures x.payload.entries[i].key == y.payload.entries[i].key
        ensures Equal(x.payload.entries[i].value, y.payload.entries[i].value) <==> SameElement(drop, a, b, i)
      {
        assert SameShape(a.payload.entries[i], b.payload.entries[i]);
        RereadAt(drop, a, i);
        RereadAt(drop, b, i);
      }
    }
    EqualArrays(x, y);
  }

  function RereadEntry(drop: bool, v: Value, i: nat): Entry
    requires IsContainer(v) && i < |v.payload.entries|
  {
    Entry(v.payload.entries[i].key, Reread(drop, v.payload.entries[i].value))
  }

  lemma RereadAt(drop: bool, v: Value, i: nat)
    requires v.payload.Array? && !(drop && IsLoneNull(v)) && i < |v.payload.entries|
    ensures |Reread(drop, v).payload.entries| == |v.payload.entries|
    ensures Reread(drop, v).payload.entries[i] == RereadEntry(drop, v, i)
  {
  }

  lemma NullsSame(drop: bool, a: Value, b: Value)
    requires a.payload.Null? && b.payload.Null?
    ensures Equal(Reread(drop, a), Reread(drop, b))
  {
  }

  lemma NullSame(drop: bool)
    ensures Equal(Reread(drop, NULL_VALUE), Reread(drop, NULL_VALUE))
  {
  }

  /** What is written and read back is the dense view exactly if no array holds the last index. */
  lemma {:induction false} DenseViewExactly(drop: bool, v: Value)
    requires Valid(v)
    ensures SameView(drop, v) <==> SizesFit(v)
  {
    hide SameView;
    if !IsContainer(v) {
      ScalarView(drop, v);
    } else {
      var es := v.payload.entries;
      forall i | 0 <= i < |es| ensures SameView(drop, es[i].value) <==> SizesFit(es[i].value) {
        DenseViewExactly(drop, es[i].value);
      }
      if v.payload.Object? {
        ObjectView(drop, v);
      } else if ArraySize(es) < INDEX_RANGE {
        ArrayView(drop, v);
      } else {
        LastIndexLost(drop, v);
      }
    }
  }

  lemma ScalarView(drop: bool, v: Value)
    requires !IsContainer(v)
    ensures SameView(drop, v)
  {
  }

  /** An array that holds the last index comes back with fewer elements: size() has wrapped around. */
  lemma LastIndexLost(drop: bool, v: Value)
    requires v.payload.Array? && ArraySize(v.payload.entries) >= INDEX_RANGE
    ensures |Dense(v).payload.entries| < |DenseView(v).payload.entries| && !SameView(drop, v)
  {
    hide Dense, DenseView, LowerBound, Equal, Reread;
    ViewLengths(v);
    RereadLength(drop, Dense(v));
    RereadLength(drop, DenseView(v));
    EqualLengths(Reread(drop, Dense(v)), Reread(drop, DenseView(v)));
  }

  lemma RereadLength(drop: bool, v: Value)
    requires v.payload.Array?
    ensures |Reread(drop, v).payload.entries| == if drop && IsLoneNull(v) then 0 else |v.payload.entries|
  {
  }

  lemma EqualLengths(a: Value, b: Value)
    requires a.payload.Array? && b.payload.Array? && |a.payload.entries| != |b.payload.entries|
    ensures !Equal(a, b)
  {
  }

  /** One element at the last index: the array is written as an empty one. */
  lemma LastIndexWritten(o: FastWriting.Options, child: Value)
    ensures var v := Value(Array([Entry(Index(INDEX_RANGE - 1), child)]), 0, 0);
            FastWriting.Written(o, v) ==
            [LBRACKET, RBRACKET] + if o.omitEndingLineFeed then [] else [LF]
  {
    var v := Value(Array([Entry(Index(INDEX_RANGE - 1), child)]), 0, 0);
    assert Size32(v.payload.entries) == 0;
    assert Dense(v).payload.entries == [];
    assert FastWriting.ElementTexts(o, Dense(v)) == [];
  }

  // ---- the theorems ----

  /** What parse makes of a document written for `v`: the exception, a refusal where a null root was not written, or
      what comes back of the value, which is its dense view exactly if no array holds the last index. */
  predicate ComesBack(cfg: Config, drop: bool, v: Value, r: Verdict) {
    if Height(drop, Dense(v)) >= cfg.stackLimit then r == Aborted
    else if drop && v.payload.Null? then r.Parsed? && !r.ok
    else
      && ParsesTo(cfg, r, Reread(drop, Dense(v)))
      && (Equal(r.root, Reread(drop, DenseView(v))) <==> SizesFit(v))
  }

  lemma Returned(cfg: Config, drop: bool, v: Value, r: Verdict)
    requires Valid(v) && ParsesTo(cfg, r, Reread(drop, Dense(v))) && Height(drop, Dense(v)) < cfg.stackLimit
    requires !(drop && v.payload.Null?)
    ensures ComesBack(cfg, drop, v, r)
  {
    hide Dense, DenseView, Reread, Equal, SizesFit, Height;
    DenseViewExactly(drop, v);
    EqualReplaces(r.root, Reread(drop, Dense(v)), Reread(drop, DenseView(v)));
  }

  /** The full round trip, for every valid real-free value, any options and any limit. */
  lemma FastRoundTrip(cfg: Config, o: FastWriting.Options, v: Value, root0: Value)
    requires Valid(v) && RealFree(v) && (o.dropNull ==> cfg.allowDropped)
    ensures ComesBack(cfg, o.dropNull, v, Parse(cfg, FastWriting.Written(o, v), root0))
  {
    hide ComesBack, Dense, Height, ReadValue, FastWriting.Written, Words;
    var doc := FastWriting.Written(o, v);
    if o.dropNull && v.payload.Null? {
      BlankRootFails(cfg, doc, root0) by { NullWritten(o, v); }
      NullComesBack(cfg, v, Parse(cfg, doc, root0));
    } else {
      DenseIsDense(v);
      FastWriting.WrittenSpells(o, v);
      SpelledDocumentParses(cfg, o.dropNull, doc, |doc|, Dense(v), root0);
      RoundTripDone(cfg, o.dropNull, v, Parse(cfg, doc, root0));
    }
  }

  /** The same for the styled writer: its documents read back as the compact ones do. */
  lemma StyledRoundTrip(cfg: Config, s: StyledWriting.Style, v: Value, root0: Value)
    requires Valid(v) && RealFree(v) && StyledWriting.IsPlain(s) && (s.dropNull ==> cfg.allowDropped)
    ensures ComesBack(cfg, s.dropNull, v, Parse(cfg, StyledWriting.Written(s, v), root0))
  {
    hide ComesBack, Dense, Height, ReadValue, StyledWriting.Written, Words;
    var doc := StyledWriting.Written(s, v);
    if s.dropNull && v.payload.Null? {
      BlankRootFails(cfg, doc, root0) by { NullStyled(s, v); }
      NullComesBack(cfg, v, Parse(cfg, doc, root0));
    } else {
      DenseIsDense(v);
      StyledWriting.LayoutKeepsTokens(s, FastWriting.Options(false, s.dropNull, false), v);
      SpelledDocumentParses(cfg, s.dropNull, doc, |doc|, Dense(v), root0);
      RoundTripDone(cfg, s.dropNull, v, Parse(cfg, doc, root0));
    }
  }

  lemma RoundTripDone(cfg: Config, drop: bool, v: Value, r: Verdict)
    requires Valid(v) && !(drop && v.payload.Null?)
    requires if Height(drop, Dense(v)) >= cfg.stackLimit then r == Aborted else ParsesTo(cfg, r, Reread(drop, Dense(v)))
    ensures ComesBack(cfg, drop, v, r)
  {
    hide Dense, DenseView, Reread, Equal, SizesFit, Height;
    if Height(drop, Dense(v)) < cfg.stackLimit {
      Returned(cfg, drop, v, r);
    }
  }

  /** A document of white space has no root. */
  lemma BlankRootFails(cfg: Config, doc: Text, root0: Value)
    requires AllSpaces(doc)
    ensures var r := Parse(cfg, doc, root0); if cfg.stackLimit == 0 then r == Aborted else r.Parsed? && !r.ok
  {
    BlankSkipped(doc, 0, |doc|);
  }

  lemma NullWritten(o: FastWriting.Options, v: Value)
    requires o.dropNull && v.payload.Null?
    ensures AllSpaces(FastWriting.Written(o, v))
  {
  }

  lemma NullStyled(s: StyledWriting.Style, v: Value)
    requires s.dropNull && v.payload.Null? && StyledWriting.IsPlain(s)
    ensures AllSpaces(StyledWriting.Written(s, v))
  {
  }

  lemma NullComesBack(cfg: Config, v: Value, r: Verdict)
    requires v.payload.Null? && if cfg.stackLimit == 0 then r == Aborted else r.Parsed? && !r.ok
    ensures ComesBack(cfg, true, v, r)
  {
  }

  /** No holes, integers of canonical type and, without null placeholders, no array of one null. */
  predicate Faithful(drop: bool, v: Value) {
    match v.payload
    case Int(i) => i <= INT32_MAX
    case UInt(u) => u > INT32_MAX
    case Array(es) =>
      && Contiguous(es) && |es| < INDEX_RANGE && !(drop && IsLoneNull(v))
      && forall i | 0 <= i < |es| :: Faithful(drop, es[i].value)
    case Object(es) => forall i | 0 <= i < |es| :: Faithful(drop, es[i].value)
    case _ => true
  }

  lemma ContiguousDense(v: Value, i: nat)
    requires v.payload.Array? && Contiguous(v.payload.entries) && i < |v.payload.entries| < INDEX_RANGE
    ensures ArraySize(v.payload.entries) == |v.payload.entries|
    ensures Dense(v).payload.entries[i] == Entry(Index(i), Dense(v.payload.entries[i].value))
  {
    hide Dense, DenseView, LowerBound;
    ContiguousBound(v.payload.entries, i);
    ViewsAt(v, i);
  }

  lemma ContiguousBound(es: seq<Entry>, i: nat)
    requires Contiguous(es) && i < |es|
    ensures LowerBound(es, Index(i)) == i && ArraySize(es) == |es|
  {
    hide LowerBound;
  }

  lemma ObjectIdentity(drop: bool, v: Value)
    requires v.payload.Object?
    requires forall i | 0 <= i < |v.payload.entries| ::
               Equal(Reread(drop, Dense(v.payload.entries[i].value)), v.payload.entries[i].value)
               <==> Faithful(drop, v.payload.entries[i].value)
    ensures Equal(Reread(drop, Dense(v)), v) <==> Faithful(drop, v)
  {
    var es, rs := v.payload.entries, Reread(drop, Dense(v)).payload.entries;
    assert |rs| == |es|;
    assert forall i | 0 <= i < |es| :: rs[i] == Entry(es[i].key, Reread(drop, Dense(es[i].value)));
  }

  lemma SparseNotIdentity(drop: bool, v: Value, i: nat)
    requires v.payload.Array? && i < |v.payload.entries| && v.payload.entries[i].key != Index(i)
    ensures !Equal(Reread(drop, Dense(v)), v)
  {
  }

  lemma LongNotIdentity(drop: bool, v: Value)
    requires v.payload.Array? && |v.payload.entries| >= INDEX_RANGE
    ensures !Equal(Reread(drop, Dense(v)), v)
  {
    assert |Reread(drop, Dense(v)).payload.entries| < INDEX_RANGE;
  }

  lemma LoneNullNotIdentity(drop: bool, v: Value)
    requires drop && IsLoneNull(v) && Contiguous(v.payload.entries)
    ensures !Equal(Reread(drop, Dense(v)), v)
  {
  }

  lemma ContiguousIdentity(drop: bool, v: Value)
    requires v.payload.Array? && Contiguous(v.payload.entries) && !(drop && IsLoneNull(v))
    requires |v.payload.entries| < INDEX_RANGE
    ensures Equal(Reread(drop, Dense(v)), v) <==>
            forall i | 0 <= i < |v.payload.entries| ::
              Equal(Reread(drop, Dense(v.payload.entries[i].value)), v.payload.entries[i].value)
  {
    hide Dense, DenseView, LowerBound, Equal, Reread;
    var es, d := v.payload.entries, Dense(v);
    ViewLengths(v);
    if es != [] {
      ContiguousBound(es, 0);
    }
    forall i | 0 <= i < |es| ensures d.payload.entries[i] == Entry(Index(i), Dense(es[i].value)) {
      ContiguousDense(v, i);
    }
    RereadEntries(drop, d);
    EqualArrays(Reread(drop, d), v);
  }

  lemma RereadEntries(drop: bool, d: Value)
    requires d.payload.Array? && !(drop && IsLoneNull(d))
    ensures var r := Reread(drop, d);
            && r.payload.Array? && |r.payload.entries| == |d.payload.entries|
            && forall i | 0 <= i < |d.payload.entries| ::
                 r.payload.entries[i] == Entry(d.payload.entries[i].key, Reread(drop, d.payload.entries[i].value))
  {
  }

  lemma EqualArrays(a: Value, b: Value)
    requires a.payload.Array? && b.payload.Array? && |a.payload.entries| == |b.payload.entries|
    requires forall i | 0 <= i < |a.payload.entries| :: a.payload.entries[i].key == b.payload.entries[i].key
    ensures Equal(a, b) <==>
            forall i | 0 <= i < |a.payload.entries| :: Equal(a.payload.entries[i].value, b.payload.entries[i].value)
  {
  }

  /** What comes back equals the value exactly for the faithful values. */
  lemma {:induction false} IdentityExactly(drop: bool, v: Value)
    requires Valid(v) && RealFree(v)
    ensures Equal(Reread(drop, Dense(v)), v) <==> Faithful(drop, v)
  {
    if IsContainer(v) {
      var es := v.payload.entries;
      forall i | 0 <= i < |es|
        ensures Equal(Reread(drop, Dense(es[i].value)), es[i].value) <==> Faithful(drop, es[i].value)
      {
        IdentityExactly(drop, es[i].value);
      }
      if v.payload.Object? {
        ObjectIdentity(drop, v);
      } else if !Contiguous(es) {
        var i :| 0 <= i < |es| && es[i].key != Index(i);
        SparseNotIdentity(drop, v, i);
      } else if |es| >= INDEX_RANGE {
        LongNotIdentity(drop, v);
      } else if drop && IsLoneNull(v) {
        LoneNullNotIdentity(drop, v);
      } else {
        ContiguousIdentity(drop, v);
      }
    }
  }

  /** No holes, and integers of canonical type: what the reader builds. */
  predicate IsCompact(v: Value) {
    match v.payload
    case Int(i) => i <= INT32_MAX
    case UInt(u) => u > INT32_MAX
    case Array(es) => Contiguous(es) && forall i | 0 <= i < |es| :: IsCompact(es[i].value)
    case Object(es) => forall i | 0 <= i < |es| :: IsCompact(es[i].value)
    case _ => true
  }

  lemma {:induction false} FaithfulExactly(v: Value)
    requires IsCompact(v)
    ensures Faithful(false, v) <==> SizesFit(v)
  {
    if IsContainer(v) {
      forall i | 0 <= i < |v.payload.entries|
        ensures Faithful(false, v.payload.entries[i].value) <==> SizesFit(v.payload.entries[i].value)
      {
        FaithfulExactly(v.payload.entries[i].value);
      }
    }
  }

  // ---- operator== is an equivalence ----

  lemma {:induction false} EqualBack(a: Value, b: Value)
    requires Equal(a, b)
    ensures Equal(b, a)
  {
    if IsContainer(a) {
      var es, fs := a.payload.entries, b.payload.entries;
      forall i | 0 <= i < |es| ensures fs[i].key == es[i].key && Equal(fs[i].value, es[i].value) {
        assert es[i].key == fs[i].key;
        EqualBack(es[i].value, fs[i].value);
      }
    }
  }

  lemma {:induction false} EqualThrough(a: Value, b: Value, c: Value)
    requires Equal(a, b) && Equal(b, c)
    ensures Equal(a, c)
  {
    if IsContainer(a) {
      var es, fs, gs := a.payload.entries, b.payload.entries, c.payload.entries;
      forall i | 0 <= i < |es| ensures es[i].key == gs[i].key && Equal(es[i].value, gs[i].value) {
        assert es[i].key == fs[i].key;
        EqualThrough(es[i].value, fs[i].value, gs[i].value);
      }
    }
  }

  lemma EqualReplaces(a: Value, b: Value, c: Value)
    requires Equal(a, b)
    ensures Equal(a, c) <==> Equal(b, c)
  {
    hide Equal;
    EqualBack(a, b);
    if Equal(a, c) {
      EqualThrough(b, a, c);
    }
    if Equal(b, c) {
      EqualThrough(a, b, c);
    }
  }
}
