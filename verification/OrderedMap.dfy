/** The laws of the ordered map: keys are totally ordered, and entries stay sorted and are found by key. */
module OrderedMap {
  import opened Bytes
  import opened Values

  // ---- strings and keys ----

  lemma {:induction false} TextTrichotomy(a: Text, b: Text)
    ensures !(TextLess(a, b) && TextLess(b, a))
    ensures !TextLess(a, b) && !TextLess(b, a) <==> a == b
  {
    if a != [] && b != [] {
      TextTrichotomy(a[1..], b[1..]);
      assert a == [a[0]] + a[1..] && b == [b[0]] + b[1..];
    }
  }

  lemma {:induction false} TextTransitive(a: Text, b: Text, c: Text)
    requires TextLess(a, b) && TextLess(b, c)
    ensures TextLess(a, c)
  {
    if a != [] && a[0] == b[0] == c[0] {
      TextTransitive(a[1..], b[1..], c[1..]);
    }
  }

  /** `a` comes first at byte `k`: up to there they agree, and then it ends or has the smaller byte. */
  predicate FirstAt(a: Text, b: Text, k: nat) {
    k <= |a| && k < |b| && a[..k] == b[..k] && (k == |a| || a[k] < b[k])
  }

  /** The recursive order is the byte order at the first difference. */
  lemma {:induction false} TextLessExactly(a: Text, b: Text)
    ensures TextLess(a, b) <==> exists k :: FirstAt(a, b, k)
  {
    forall k: nat | FirstAt(a, b, k) && k > 0 ensures a != [] && b != [] && a[0] == b[0] {
      assert a[0] == a[..k][0] && b[0] == b[..k][0];
    }
    if a == [] || b == [] || a[0] != b[0] {
      if TextLess(a, b) {
        assert FirstAt(a, b, 0);
      }
    } else {
      TextLessExactly(a[1..], b[1..]);
      if k: nat :| FirstAt(a[1..], b[1..], k) {
        assert a[..k + 1] == [a[0]] + a[1..][..k] && b[..k + 1] == [b[0]] + b[1..][..k];
        assert FirstAt(a, b, k + 1);
      }
      if k: nat :| FirstAt(a, b, k) {
        assert a[1..][..k - 1] == a[..k][1..] && b[1..][..k - 1] == b[..k][1..];
        assert FirstAt(a[1..], b[1..], k - 1);
      }
    }
  }

  lemma KeyTrichotomy(a: Key, b: Key)
    requires a.Name? == b.Name?
    ensures !(KeyLess(a, b) && KeyLess(b, a))
    ensures !KeyLess(a, b) && !KeyLess(b, a) <==> a == b
  {
    if a.Name? {
      TextTrichotomy(a.name, b.name);
    }
  }

  lemma KeyTransitive(a: Key, b: Key, c: Key)
    requires KeyLess(a, b) && KeyLess(b, c)
    ensures KeyLess(a, c)
  {
    if a.Name? {
      TextTransitive(a.name, b.name, c.name);
    }
  }

  // ---- entries ----

  /** Where entry `i` of the map with `k` put was before, unless it is the entry of `k`. */
  function Origin(es: seq<Entry>, k: Key, i: nat): Option<nat> {
    var n := LowerBound(es, k);
    if i == n then None else if i < n || Has(es, k) then Some(i) else Some(i - 1)
  }

  lemma PutOrigins(es: seq<Entry>, k: Key, child: Value)
    ensures |Put(es, k, child)| == if Has(es, k) then |es| else |es| + 1
    ensures var rs := Put(es, k, child);
            forall i | 0 <= i < |rs| ::
              var o := Origin(es, k, i);
              if o.None? then rs[i] == Entry(k, child) else o.value < |es| && rs[i] == es[o.value]
    ensures forall i: nat, j: nat | i < j && Origin(es, k, i).Some? && Origin(es, k, j).Some? ::
              Origin(es, k, i).value < Origin(es, k, j).value
    ensures forall i: nat, j: nat | i < j :: Origin(es, k, i).Some? || Origin(es, k, j).Some?
  {
  }

  /** In a sorted map the entries before the lower bound are less, the others greater or equal. */
  lemma Bounds(es: seq<Entry>, k: Key, named: bool)
    requires Sorted(es) && SameKind(es, named) && k.Name? == named
    ensures var n := LowerBound(es, k);
            forall i | n <= i < |es| :: (es[i].key == k && i == n) || KeyLess(k, es[i].key)
  {
    var n := LowerBound(es, k);
    if n < |es| {
      KeyTrichotomy(es[n].key, k);
      forall i | n < i < |es| ensures KeyLess(k, es[i].key) {
        assert KeyLess(es[n].key, es[i].key);
        if es[n].key != k {
          KeyTransitive(k, es[n].key, es[i].key);
        }
      }
    }
  }

  /** Where an entry with the key stands, there is the lower bound. */
  lemma BoundAt(es: seq<Entry>, i: nat)
    requires Sorted(es) && i < |es|
    ensures LowerBound(es, es[i].key) == i
  {
    KeyTrichotomy(es[i].key, es[i].key);
  }

  /** A value is found exactly when its entry is there. */
  lemma FoundExactly(es: seq<Entry>, k: Key, v: Value)
    requires Sorted(es)
    ensures Find(es, k) == Some(v) <==> Entry(k, v) in es
  {
    if Entry(k, v) in es {
      var i :| 0 <= i < |es| && es[i] == Entry(k, v);
      BoundAt(es, i);
    }
  }

  lemma PutSorted(es: seq<Entry>, k: Key, v: Value, named: bool)
    requires Sorted(es) && SameKind(es, named) && k.Name? == named
    ensures Sorted(Put(es, k, v)) && SameKind(Put(es, k, v), named)
  {
    hide KeyLess, LowerBound;
    Bounds(es, k, named);
  }

  /** In a contiguous array the next index goes to the end. */
  lemma PutLast(es: seq<Entry>, child: Value)
    requires Contiguous(es)
    ensures Put(es, Index(|es|), child) == es + [Entry(Index(|es|), child)]
  {
  }

  /** Put changes what is found under its key, and nothing else. */
  lemma PutFinds(es: seq<Entry>, k: Key, v: Value, named: bool, other: Key)
    requires Sorted(es) && SameKind(es, named) && k.Name? == named
    ensures Find(Put(es, k, v), other) == if other == k then Some(v) else Find(es, other)
  {
    PutSorted(es, k, v, named);
    var rs, n := Put(es, k, v), LowerBound(es, k);
    if other == k {
      assert rs[n] == Entry(k, v);
      BoundAt(rs, n);
    } else {
      forall e: Entry | e.key == other ensures e in es <==> e in rs {
        if e in es {
          var i :| 0 <= i < |es| && es[i] == e;
          assert rs[if i < n || |rs| == |es| then i else i + 1] == e;
        }
      }
      OthersKept(es, rs, other);
    }
  }

  lemma OthersKept(es: seq<Entry>, rs: seq<Entry>, other: Key)
    requires Sorted(es) && Sorted(rs)
    requires forall e: Entry | e.key == other :: e in es <==> e in rs
    ensures Find(rs, other) == Find(es, other)
  {
  }

  /** Erasing leaves no entry of the key. */
  lemma ErasedGone(es: seq<Entry>, k: Key, i: nat)
    requires Sorted(es) && i < |Erase(es, k)| && Has(es, k)
    ensures Erase(es, k)[i].key != k
  {
  }

  lemma EraseFinds(es: seq<Entry>, k: Key, other: Key)
    requires Sorted(es)
    ensures Sorted(Erase(es, k))
    ensures Find(Erase(es, k), other) == if other == k then None else Find(es, other)
  {
    var rs := Erase(es, k);
    if other != k {
      OthersKept(es, rs, other);
    } else if Has(es, k) {
      forall i | 0 <= i < |rs| ensures rs[i].key != k {
        ErasedGone(es, k, i);
      }
    }
  }
}
