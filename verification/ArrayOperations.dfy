/** Array operations on the ordered map, and the plain sequences they stand for. */
module ArrayOperations {
  import opened Bytes
  import opened Values
  import opened OrderedMap

  /** What every array's map satisfies. */
  predicate IsArrayMap(es: seq<Entry>) {
    Sorted(es) && SameKind(es, false) && forall i | 0 <= i < |es| :: es[i].key.i < INDEX_RANGE
  }

  /** The map with an element at `i`, a null if there was none: what operator[] leaves. */
  function Grown(es: seq<Entry>, i: nat): seq<Entry> {
    if Has(es, Index(i)) then es else Put(es, Index(i), NULL_VALUE)
  }

  /** The map without the indices from `i` to `stop`. */
  function Truncated(es: seq<Entry>, i: nat, stop: nat): seq<Entry>
    decreases stop - i
  {
    if i >= stop then es else Truncated(Erase(es, Index(i)), i + 1, stop)
  }

  /** One step of removeIndex's loop: the assignment swaps two neighbours, and creates those that are not there. */
  function Swapped(es: seq<Entry>, i: nat): seq<Entry> {
    Put(Put(es, Index(i), At(es, i + 1)), Index(i + 1), At(es, i))
  }

  function ShiftedLeft(es: seq<Entry>, i: nat, last: nat): seq<Entry>
    decreases last - i
  {
    if i >= last then es else ShiftedLeft(Swapped(es, i), i + 1, last)
  }

  /** removeIndex of an element that is there, with `junk` in the variable that receives it. */
  function Removed(es: seq<Entry>, index: nat, junk: Value): seq<Entry>
    requires es != []
  {
    var last := (Size32(es) + INDEX_RANGE - 1) % INDEX_RANGE;
    Erase(ShiftedLeft(Put(es, Index(index), junk), index, last), Index(last))
  }

  // ---- what is found afterwards ----

  lemma PutIndex(es: seq<Entry>, i: nat, v: Value)
    requires IsArrayMap(es) && i < INDEX_RANGE
    ensures IsArrayMap(Put(es, Index(i), v))
  {
    PutSorted(es, Index(i), v, false);
  }

  lemma EraseIndex(es: seq<Entry>, i: nat)
    requires IsArrayMap(es)
    ensures IsArrayMap(Erase(es, Index(i)))
  {
  }

  lemma FoundInRange(es: seq<Entry>, j: nat)
    requires IsArrayMap(es) && Find(es, Index(j)).Some?
    ensures j < ArraySize(es) <= INDEX_RANGE
  {
  }

  lemma LastFound(es: seq<Entry>)
    requires IsArrayMap(es) && es != []
    ensures 0 < ArraySize(es) <= INDEX_RANGE && Find(es, Index(ArraySize(es) - 1)).Some?
    ensures (Size32(es) + INDEX_RANGE - 1) % INDEX_RANGE == ArraySize(es) - 1
  {
  }

  lemma SizeExactly(es: seq<Entry>, n: nat)
    requires IsArrayMap(es) && forall j: nat | n <= j :: Find(es, Index(j)).None?
    ensures ArraySize(es) <= n
    ensures ArraySize(es) == n <==> n == 0 || Find(es, Index(n - 1)).Some?
  {
    if es != [] {
      LastFound(es);
    }
    if n > 0 && Find(es, Index(n - 1)).Some? {
      FoundInRange(es, n - 1);
    }
  }

  lemma GrownFinds(es: seq<Entry>, i: nat, j: nat)
    requires IsArrayMap(es) && i < INDEX_RANGE
    ensures IsArrayMap(Grown(es, i))
    ensures Find(Grown(es, i), Index(j)) == if j == i then Some(At(es, i)) else Find(es, Index(j))
  {
    if !Has(es, Index(i)) {
      PutIndex(es, i, NULL_VALUE);
      PutFinds(es, Index(i), NULL_VALUE, false, Index(j));
    }
  }

  lemma {:induction false} TruncatedFinds(es: seq<Entry>, i: nat, stop: nat, j: nat)
    requires IsArrayMap(es)
    ensures IsArrayMap(Truncated(es, i, stop))
    ensures Find(Truncated(es, i, stop), Index(j)) == if i <= j < stop then None else Find(es, Index(j))
    decreases stop - i
  {
    hide IsArrayMap, Find, Erase;
    if i < stop {
      EraseIndex(es, i);
      IsMap(es);
      EraseFinds(es, Index(i), Index(j));
      TruncatedFinds(Erase(es, Index(i)), i + 1, stop, j);
    }
  }

  lemma SwappedFinds(es: seq<Entry>, i: nat, j: nat)
    requires IsArrayMap(es) && i + 1 < INDEX_RANGE
    ensures IsArrayMap(Swapped(es, i))
    ensures Find(Swapped(es, i), Index(j)) ==
            if j == i then Some(At(es, i + 1)) else if j == i + 1 then Some(At(es, i)) else Find(es, Index(j))
  {
    hide Put, Find, Slot, IsArrayMap;
    assert Sorted(es) && SameKind(es, false) by { IsMap(es); }
    var half := Put(es, Index(i), At(es, i + 1));
    PutIndex(es, i, At(es, i + 1));
    IsMap(half);
    PutIndex(half, i + 1, At(es, i));
    PutFinds(es, Index(i), At(es, i + 1), false, Index(j));
    PutFinds(half, Index(i + 1), At(es, i), false, Index(j));
  }

  lemma IsMap(es: seq<Entry>)
    requires IsArrayMap(es)
    ensures Sorted(es) && SameKind(es, false)
  {
  }

  /** The element at `i` travels to the end, and every other one moves up by one. */
  lemma {:induction false} ShiftedFinds(es: seq<Entry>, i: nat, last: nat, j: nat)
    requires IsArrayMap(es) && i <= last < INDEX_RANGE && Find(es, Index(i)).Some?
    ensures IsArrayMap(ShiftedLeft(es, i, last))
    ensures Find(ShiftedLeft(es, i, last), Index(j)) ==
            if i <= j < last then Some(At(es, j + 1)) else if j == last then Some(At(es, i)) else Find(es, Index(j))
    decreases last - i
  {
    hide IsArrayMap, Swapped, Find;
    if i < last {
      SwappedFinds(es, i, i + 1);
      SwappedFinds(es, i, j);
      SwappedFinds(es, i, j + 1);
      ShiftedFinds(Swapped(es, i), i + 1, last, j);
    }
  }

  /** removeIndex on any array, sparse or not: every element after the removed one moves up by one,
      holes after it become nulls, and nothing is left of the receiver's old content. */
  lemma RemovedFinds(es: seq<Entry>, index: nat, junk: Value, j: nat)
    requires IsArrayMap(es) && Has(es, Index(index))
    ensures IsArrayMap(Removed(es, index, junk))
    ensures Find(Removed(es, index, junk), Index(j)) ==
            if index <= j < ArraySize(es) - 1 then Some(At(es, j + 1))
            else if j < index then Find(es, Index(j))
            else None
  {
    hide IsArrayMap, Find, ArraySize, ShiftedLeft, Put, Erase, Slot;
    HasFound(es, Index(index));
    FoundInRange(es, index);
    LastFound(es);
    var last := ArraySize(es) - 1;
    if Find(es, Index(j)).Some? {
      FoundInRange(es, j);
    }
    Removal(es, index, junk, last, j);
  }

  lemma Removal(es: seq<Entry>, index: nat, junk: Value, last: nat, j: nat)
    requires IsArrayMap(es) && index <= last < INDEX_RANGE
    ensures var rs := Erase(ShiftedLeft(Put(es, Index(index), junk), index, last), Index(last));
            && IsArrayMap(rs)
            && Find(rs, Index(j)) == if index <= j < last then Some(At(es, j + 1))
                                     else if j == last then None
                                     else if j == index then Some(junk)
                                     else Find(es, Index(j))
  {
    hide IsArrayMap, Find, Put, Erase, ShiftedLeft;
    IsMap(es);
    var es1 := Put(es, Index(index), junk);
    PutIndex(es, index, junk);
    PutFinds(es, Index(index), junk, false, Index(index));
    PutFinds(es, Index(index), junk, false, Index(j));
    PutFinds(es, Index(index), junk, false, Index(j + 1));
    ShiftedFinds(es1, index, last, j);
    var es2 := ShiftedLeft(es1, index, last);
    IsMap(es2);
    EraseIndex(es2, last);
    EraseFinds(es2, Index(last), Index(j));
  }

  /** removeIndex lowers the size by one exactly if the last element goes on being there: when the removed one
      was not the last, or the one before it is not a hole. */
  lemma RemovedSizeExactly(es: seq<Entry>, index: nat, junk: Value)
    requires IsArrayMap(es) && Has(es, Index(index))
    ensures ArraySize(Removed(es, index, junk)) <= ArraySize(es) - 1
    ensures ArraySize(Removed(es, index, junk)) == ArraySize(es) - 1 <==>
            index + 1 < ArraySize(es) || index == 0 || Has(es, Index(index - 1))
  {
    hide Removed, IsArrayMap, LowerBound;
    var n := ArraySize(es) - 1;
    FoundInRange(es, index);
    RemovedFinds(es, index, junk, 0);
    forall j: nat | n <= j ensures Find(Removed(es, index, junk), Index(j)).None? {
      RemovedFinds(es, index, junk, j);
    }
    if n > 0 {
      RemovedFinds(es, index, junk, n - 1);
    }
    SizeExactly(Removed(es, index, junk), n);
  }

  /** Shrinking meets its assertion exactly if the element that becomes the last is there. */
  lemma ShrinkSizeExactly(es: seq<Entry>, newSize: nat)
    requires IsArrayMap(es) && 0 < newSize <= ArraySize(es) < INDEX_RANGE
    ensures Size32(Truncated(es, newSize, Size32(es))) == newSize <==> Has(es, Index(newSize - 1))
  {
    hide IsArrayMap, Find, ArraySize, Truncated;
    var n := ArraySize(es);
    HasFound(es, Index(newSize - 1));
    var rs := Truncated(es, newSize, n);
    forall j: nat | newSize <= j ensures Find(rs, Index(j)).None? {
      TruncatedFinds(es, newSize, n, j);
      if Find(es, Index(j)).Some? {
        FoundInRange(es, j);
      }
    }
    TruncatedFinds(es, newSize, n, newSize - 1);
    TruncatedFinds(es, newSize, n, newSize - 1);
    SizeExactly(rs, newSize);
  }

  // ---- contiguous arrays are sequences ----

  lemma {:induction false} SameEntries(es: seq<Entry>, fs: seq<Entry>)
    requires Sorted(es) && Sorted(fs) && forall e :: e in es <==> e in fs
    ensures es == fs
  {
    if es != [] {
      BothInhabited(fs, es);
    }
    if fs != [] {
      BothInhabited(es, fs);
      FirstSame(es, fs);
      forall e: Entry ensures e in es[1..] <==> e in fs[1..] {
        TailMember(es, e);
        TailMember(fs, e);
      }
      SameEntries(es[1..], fs[1..]);
      assert es == [es[0]] + es[1..] && fs == [fs[0]] + fs[1..];
    }
  }

  lemma BothInhabited(es: seq<Entry>, fs: seq<Entry>)
    requires fs != [] && forall e :: e in es <==> e in fs
    ensures es != []
  {
    assert fs[0] in es;
  }

  lemma FirstSame(es: seq<Entry>, fs: seq<Entry>)
    requires Sorted(es) && Sorted(fs) && es != [] && fs != [] && forall e :: e in es <==> e in fs
    ensures es[0] == fs[0]
  {
    assert es[0] in fs && fs[0] in es;
    var i :| 0 <= i < |es| && es[i] == fs[0];
    var j :| 0 <= j < |fs| && fs[j] == es[0];
    if i > 0 && j > 0 {
      KeyTrichotomy(es[0].key, es[0].key);
      KeyTransitive(es[0].key, fs[0].key, es[0].key);
    }
  }

  lemma TailMember(es: seq<Entry>, e: Entry)
    requires Sorted(es) && es != []
    ensures e in es[1..] <==> e in es && e != es[0]
  {
    KeyTrichotomy(es[0].key, es[0].key);
    if e in es && e != es[0] {
      var i :| 0 <= i < |es| && es[i] == e;
      assert es[1..][i - 1] == e;
    }
  }

  /** An array map is determined by what is found in it. */
  lemma MapOfItems(es: seq<Entry>, vs: seq<Value>)
    requires IsArrayMap(es)
    requires forall j: nat :: Find(es, Index(j)) == if j < |vs| then Some(vs[j]) else None
    ensures es == Items(vs)
  {
    var fs := Items(vs);
    forall e ensures e in es <==> e in fs {
      if e in es {
        FoundExactly(es, e.key, e.value);
        assert e.key.i < |vs|;
        assert fs[e.key.i] == e;
      }
      if e in fs {
        var i :| 0 <= i < |fs| && fs[i] == e;
        FoundExactly(es, e.key, e.value);
      }
    }
    SameEntries(es, fs);
  }

  lemma ItemsFound(vs: seq<Value>, j: nat)
    requires |vs| <= INDEX_RANGE
    ensures IsArrayMap(Items(vs)) && ArraySize(Items(vs)) == |vs|
    ensures Find(Items(vs), Index(j)) == if j < |vs| then Some(vs[j]) else None
  {
  }

  /** removeIndex on a contiguous array removes exactly that element. */
  lemma RemovedItems(vs: seq<Value>, index: nat, junk: Value)
    requires |vs| <= INDEX_RANGE && index < |vs|
    ensures Removed(Items(vs), index, junk) == Items(vs[..index] + vs[index + 1..])
  {
    hide Removed, IsArrayMap, Find;
    ItemsFound(vs, index);
    HasFound(Items(vs), Index(index));
    var rs, ws := Removed(Items(vs), index, junk), vs[..index] + vs[index + 1..];
    RemovedFinds(Items(vs), index, junk, 0);
    forall j: nat ensures Find(rs, Index(j)) == if j < |ws| then Some(ws[j]) else None {
      RemovedFinds(Items(vs), index, junk, j);
      ItemsFound(vs, j);
      ItemsFound(vs, j + 1);
    }
    MapOfItems(rs, ws);
  }

  lemma HasFound(es: seq<Entry>, k: Key)
    ensures Has(es, k) <==> Find(es, k).Some?
  {
  }

  /** An element put just past the end is appended. */
  lemma AppendedItems(vs: seq<Value>, v: Value)
    requires |vs| < INDEX_RANGE
    ensures Put(Grown(Items(vs), |vs|), Index(|vs|), v) == Items(vs + [v])
  {
  }

  /** Shrinking a contiguous array takes a prefix. */
  lemma TruncatedItems(vs: seq<Value>, n: nat)
    requires n <= |vs| <= INDEX_RANGE
    ensures Truncated(Items(vs), n, |vs|) == Items(vs[..n])
  {
    hide IsArrayMap, Find, Truncated;
    ItemsFound(vs, 0);
    TruncatedFinds(Items(vs), n, |vs|, 0);
    forall j: nat ensures Find(Truncated(Items(vs), n, |vs|), Index(j)) == if j < n then Some(vs[..n][j]) else None {
      TruncatedFinds(Items(vs), n, |vs|, j);
      ItemsFound(vs, j);
    }
    MapOfItems(Truncated(Items(vs), n, |vs|), vs[..n]);
  }

  // ---- the operations as a caller sees them ----

  /** What append makes of the map. */
  function Appended(es: seq<Entry>, v: Value): seq<Entry> {
    Put(Grown(es, Size32(es)), Index(Size32(es)), v)
  }

  /** What resize makes of the map. */
  function Resized(es: seq<Entry>, newSize: nat): seq<Entry> {
    if newSize == 0 then []
    else if newSize > Size32(es) then Grown(es, newSize - 1)
    else Truncated(es, newSize, Size32(es))
  }

  lemma AppendsToSequence(vs: seq<Value>, v: Value)
    requires |vs| + 1 < INDEX_RANGE
    ensures Appended(Items(vs), v) == Items(vs + [v])
    ensures At(Grown(Items(vs), Size32(Items(vs))), Size32(Items(vs))) == NULL_VALUE
  {
    hide Put, Grown, IsArrayMap, ArraySize, Find;
    AppendedItems(vs, v);
    ItemsFound(vs, |vs|);
    GrownFinds(Items(vs), |vs|, |vs|);
  }

  lemma ResizesSequence(vs: seq<Value>, n: nat)
    requires n <= |vs| < INDEX_RANGE
    ensures Resized(Items(vs), n) == Items(vs[..n]) && Size32(Resized(Items(vs), n)) == n
  {
    hide Truncated, IsArrayMap, ArraySize, Find, Grown;
    ItemsFound(vs, 0);
    TruncatedItems(vs, n);
    ItemsFound(vs[..n], 0);
  }

  /** Append stores at the size, in 32 bits, on any array, and changes nothing else. */
  lemma AppendedFinds(es: seq<Entry>, v: Value, j: nat)
    requires IsArrayMap(es)
    ensures IsArrayMap(Appended(es, v))
    ensures Find(Appended(es, v), Index(j)) ==
            if j == ArraySize(es) % 0x1_0000_0000 then Some(v) else Find(es, Index(j))
  {
    hide Grown, Put, Find, ArraySize, IsArrayMap;
    GrownFinds(es, Size32(es), j);
    PutIndex(Grown(es, Size32(es)), Size32(es), v);
    IsMap(Grown(es, Size32(es)));
    PutFinds(Grown(es, Size32(es)), Index(Size32(es)), v, false, Index(j));
  }

  /** What resize leaves: nothing from the new size on, the rest as it was, and when it grows a null at the end; on an
      array that holds the last index, whose size() is 0, it only makes sure of that one element. */
  lemma ResizedFinds(es: seq<Entry>, newSize: nat, j: nat)
    requires IsArrayMap(es) && newSize < INDEX_RANGE
    ensures IsArrayMap(Resized(es, newSize))
    ensures Find(Resized(es, newSize), Index(j)) ==
            if newSize == 0 then None
            else if ArraySize(es) == INDEX_RANGE then if j == newSize - 1 then Some(At(es, j)) else Find(es, Index(j))
            else if j >= newSize then None
            else if j == newSize - 1 && newSize > ArraySize(es) then Some(NULL_VALUE)
            else Find(es, Index(j))
  {
    hide Grown, Truncated, ArraySize, Find;
    SizeInRange(es);
    BeyondSize(es, j);
    if newSize == 0 {
      NothingFound(j);
    } else if newSize > Size32(es) {
      GrownFinds(es, newSize - 1, j);
    } else {
      TruncatedFinds(es, newSize, Size32(es), j);
    }
  }

  lemma NothingFound(j: nat)
    ensures IsArrayMap([]) && Find([], Index(j)) == None
  {
  }

  lemma SizeInRange(es: seq<Entry>)
    requires IsArrayMap(es)
    ensures ArraySize(es) <= INDEX_RANGE
  {
  }

  lemma BeyondSize(es: seq<Entry>, j: nat)
    requires IsArrayMap(es)
    ensures j >= ArraySize(es) ==> Find(es, Index(j)).None? && At(es, j) == NULL_VALUE
  {
    if Find(es, Index(j)).Some? {
      FoundInRange(es, j);
    }
  }

  /** The size asked for is reached exactly if the array does not hold the last index and either grows or has an element
      to end with. */
  lemma ResizedSizeExactly(es: seq<Entry>, newSize: nat)
    requires IsArrayMap(es) && newSize < INDEX_RANGE
    ensures Size32(Resized(es, newSize)) == newSize <==>
            || newSize == 0
            || (ArraySize(es) < INDEX_RANGE && (newSize > ArraySize(es) || Find(es, Index(newSize - 1)).Some?))
  {
    hide Resized, ArraySize, Find, IsArrayMap;
    var rs := Resized(es, newSize);
    SizeInRange(es);
    ResizedFinds(es, newSize, 0);
    SizeInRange(rs);
    if ArraySize(es) == INDEX_RANGE && newSize > 0 {
      ResizedFinds(es, newSize, INDEX_RANGE - 1);
      LastIndexThere(es);
      FoundInRange(rs, INDEX_RANGE - 1);
    } else {
      forall j: nat | newSize <= j ensures Find(rs, Index(j)).None? {
        ResizedFinds(es, newSize, j);
      }
      SizeExactly(rs, newSize);
      if newSize > 0 {
        ResizedFinds(es, newSize, newSize - 1);
      }
    }
  }

  lemma LastIndexThere(es: seq<Entry>)
    requires IsArrayMap(es) && ArraySize(es) == INDEX_RANGE
    ensures Find(es, Index(INDEX_RANGE - 1)).Some?
  {
    LastFound(es);
  }

  /** After growing, shrinking reaches exactly the sizes up to the old one. */
  lemma GrowThenShrinkExactly(vs: seq<Value>, n: nat, m: nat)
    requires 0 < m < n < INDEX_RANGE && |vs| < n
    ensures var es := Resized(Items(vs), n);
            Size32(es) == n && (Size32(Resized(es, m)) == m <==> m <= |vs|)
  {
    hide IsArrayMap, Find, Resized, ArraySize;
    var es := Resized(Items(vs), n);
    ItemsFound(vs, m - 1);
    ResizedFinds(Items(vs), n, m - 1);
    ResizedSizeExactly(Items(vs), n);
    ResizedSize(Items(vs), n);
    ResizedSizeExactly(es, m);
  }

  /** The whole size, where an array does not hold the last index. */
  lemma ResizedSize(es: seq<Entry>, newSize: nat)
    requires IsArrayMap(es) && newSize < INDEX_RANGE && ArraySize(es) < INDEX_RANGE
    ensures ArraySize(Resized(es, newSize)) <= newSize
  {
    hide IsArrayMap, Find, Resized, ArraySize;
    var rs := Resized(es, newSize);
    ResizedFinds(es, newSize, 0);
    forall j: nat | newSize <= j ensures Find(rs, Index(j)).None? {
      ResizedFinds(es, newSize, j);
    }
    SizeExactly(rs, newSize);
  }

  lemma RemovesFromSequence(vs: seq<Value>, index: nat, junk: Value)
    requires index < |vs| < INDEX_RANGE
    ensures Has(Items(vs), Index(index)) && At(Items(vs), index) == vs[index]
    ensures Removed(Items(vs), index, junk) == Items(vs[..index] + vs[index + 1..])
  {
    hide Removed;
    ItemsFound(vs, index);
    HasFound(Items(vs), Index(index));
    RemovedItems(vs, index, junk);
  }
}
