/** A Value object whose content the array operations change in place. */
module ValueCells {
  import opened Values
  import opened ArrayOperations

  /** The element map of an array, or of the array that a null is turned into. */
  function ElementsOf(p: Payload): seq<Entry> {
    if p.Array? then p.entries else []
  }

  class ValueCell {
    var payload: Payload
    var start: int
    var limit: int

    function Content(): Value
      reads this
    {
      Value(payload, start, limit)
    }

    predicate Valid()
      reads this
    {
      payload.Array? ==> IsArrayMap(payload.entries)
    }

    /** Operations on elements demand an array, or a null that becomes one. */
    predicate IsArrayable()
      reads this
    {
      payload.Null? || payload.Array?
    }

    /** The array `vs`, without holes. */
    predicate Holds(vs: seq<Value>)
      reads this
    {
      |vs| < INDEX_RANGE && payload == Array(Items(vs))
    }

    constructor (v: Value)
      requires v.payload.Array? ==> IsArrayMap(v.payload.entries)
      ensures Valid() && Content() == v
    {
      payload, start, limit := v.payload, v.start, v.limit;
    }

    /** operator=(const Value&): the argument gets what was here. */
    method Assign(other: ValueCell)
      modifies this, other
      ensures Content() == old(other.Content()) && other.Content() == old(Content())
    {
      payload, other.payload := other.payload, payload;
      start, other.start := other.start, start;
      limit, other.limit := other.limit, limit;
    }

    /** The element at `i` is assigned to from this cell: they swap. An array that is assigned to its own element is
        left with what the element held, and the rest of it is lost. */
    method SwapElement(i: nat, cell: ValueCell)
      requires payload.Array? && Has(payload.entries, Index(i))
      modifies this`payload, cell
      ensures cell != this ==> payload == Array(Put(old(payload.entries), Index(i), old(cell.Content())))
      ensures cell.Content() == At(old(payload.entries), i)
    {
      var element := At(payload.entries, i);
      payload := Array(Put(payload.entries, Index(i), cell.Content()));
      cell.payload, cell.start, cell.limit := element.payload, element.start, element.limit;
    }

    method Size() returns (n: nat)
      ensures n == if payload.Array? then Size32(payload.entries)
                   else if payload.Object? then |payload.entries| % INDEX_RANGE else 0
    {
      if payload.Array? {
        n := if payload.entries == [] || !payload.entries[|payload.entries| - 1].key.Index? then 0
             else (payload.entries[|payload.entries| - 1].key.i + 1) % INDEX_RANGE;
      } else if payload.Object? {
        n := |payload.entries| % INDEX_RANGE;
      } else {
        n := 0;
      }
    }

    /** Fails on scalars; the type stays, the offsets go back to 0. */
    method Clear() returns (ok: bool)
      requires Valid()
      modifies this
      ensures ok <==> old(payload.Null? || IsContainer(Content()))
      ensures Valid()
      ensures Content() == if !ok then old(Content())
                           else Value(if old(payload.Array?) then Array([])
                                      else if old(payload.Object?) then Object([]) else Null, 0, 0)
    {
      ok := payload.Null? || payload.Array? || payload.Object?;
      if ok {
        start, limit := 0, 0;
        if payload.Array? {
          payload := Array([]);
        } else if payload.Object? {
          payload := Object([]);
        }
      }
    }

    /** A null becomes an empty array. */
    method BecomeArray()
      requires Valid() && IsArrayable()
      modifies this
      ensures Valid() && payload == Array(ElementsOf(old(payload)))
      ensures old(payload.Array?) ==> Content() == old(Content())
      ensures old(payload.Null?) ==> Content() == Value(Array([]), 0, 0)
    {
      if payload.Null? {
        payload, start, limit := Array([]), 0, 0;
      }
    }

    /** operator[](ArrayIndex): makes sure that there is an element at the index. */
    method Subscript(index: nat) returns (ok: bool)
      requires Valid() && index < INDEX_RANGE
      modifies this
      ensures ok <==> old(IsArrayable())
      ensures Valid()
      ensures ok ==> payload == Array(Grown(ElementsOf(old(payload)), index)) && Has(payload.entries, Index(index))
      ensures !ok ==> Content() == old(Content())
      ensures old(payload.Array?) ==> start == old(start) && limit == old(limit)
    {
      ok := payload.Null? || payload.Array?;
      if ok {
        BecomeArray();
        var es := payload.entries;
        GrownFinds(es, index, index);
        var at := LowerBound(es, Index(index));
        if !(at < |es| && es[at].key == Index(index)) {
          payload := Array(es[..at] + [Entry(Index(index), NULL_VALUE)] + es[at..]);
        }
        HasFound(payload.entries, Index(index));
      }
    }

    /** The argument is left with what the assignment found in the new element: a null. Appended to itself, an array
        becomes that null. */
    method Append(value: ValueCell) returns (ok: bool)
      requires Valid()
      modifies this, value
      ensures ok <==> old(IsArrayable())
      ensures value != this ==> Valid()
      ensures !ok ==> Content() == old(Content()) && value.Content() == old(value.Content())
      ensures var es := ElementsOf(old(payload));
              ok ==> (value != this ==> payload == Array(Appended(es, old(value.Content())))) &&
                     value.Content() == At(Grown(es, Size32(es)), Size32(es))
      ensures forall vs: seq<Value> | old(Holds(vs)) && |vs| + 1 < INDEX_RANGE ::
                value.Content() == NULL_VALUE && (value != this ==> Holds(vs + [old(value.Content())]))
    {
      hide Put, Grown, IsArrayMap, Appended;
      var n := Size();
      ghost var es, v := ElementsOf(payload), value.Content();
      forall vs: seq<Value> | es == Items(vs) && |vs| + 1 < INDEX_RANGE
        ensures Appended(es, v) == Items(vs + [v]) && At(Grown(es, Size32(es)), Size32(es)) == NULL_VALUE
      {
        AppendsToSequence(vs, v);
      }
      ok := Subscript(n);
      if ok {
        EmptySize();
        ghost var grown := payload.entries;
        SwapElement(n, value);
        AppendedIs(es, v);
        GrownIndex(es, n);
        PutIndex(grown, n, v);
      }
    }

    lemma EmptySize()
      ensures Size32([]) == 0 && IsArrayMap([])
    {
    }

    lemma AppendedIs(es: seq<Entry>, v: Value)
      ensures Appended(es, v) == Put(Grown(es, Size32(es)), Index(Size32(es)), v)
    {
    }

    lemma GrownIndex(es: seq<Entry>, i: nat)
      requires IsArrayMap(es) && i < INDEX_RANGE
      ensures IsArrayMap(Grown(es, i))
    {
    }

    /** The loop of resize that erases the indices from `newSize` on. */
    method EraseFrom(newSize: nat, oldSize: nat)
      requires Valid() && payload.Array? && newSize <= oldSize
      modifies this`payload
      ensures Valid() && payload == Array(Truncated(old(payload.entries), newSize, oldSize))
    {
      var index := newSize;
      while index < oldSize
        invariant newSize <= index <= oldSize && payload.Array? && Valid()
        invariant Truncated(payload.entries, index, oldSize) == Truncated(old(payload.entries), newSize, oldSize)
      {
        EraseIndex(payload.entries, index);
        payload := Array(Erase(payload.entries, Index(index)));
        index := index + 1;
      }
    }

    /** Fails on what is no array, and after the fact on an array that does not shrink to the size asked for. */
    method Resize(newSize: nat) returns (ok: bool)
      requires Valid() && newSize < INDEX_RANGE
      modifies this
      ensures Valid()
      ensures !old(IsArrayable()) ==> !ok && Content() == old(Content())
      ensures var es := ElementsOf(old(payload));
              old(IsArrayable()) ==>
                && payload == Array(Resized(es, newSize))
                && (ok <==> newSize == 0 || newSize > Size32(es) || Size32(payload.entries) == newSize)
                && (ok ==> (Size32(payload.entries) == newSize <==> newSize == 0 || ArraySize(es) < INDEX_RANGE))
      ensures forall vs: seq<Value> | old(Holds(vs)) :: newSize <= |vs| ==> ok && Holds(vs[..newSize])
    {
      hide Grown, Truncated, IsArrayMap, Put;
      ghost var es := ElementsOf(payload);
      forall vs: seq<Value> | es == Items(vs) && newSize <= |vs| < INDEX_RANGE
        ensures Resized(es, newSize) == Items(vs[..newSize]) && Size32(Resized(es, newSize)) == newSize
      {
        ResizesSequence(vs, newSize);
      }
      ok := payload.Null? || payload.Array?;
      if ok {
        BecomeArray();
        ok := ResizeArray(newSize);
      }
    }

    method ResizeArray(newSize: nat) returns (ok: bool)
      requires Valid() && payload.Array? && newSize < INDEX_RANGE
      modifies this
      ensures Valid() && payload == Array(Resized(old(payload.entries), newSize))
      ensures ok <==> newSize == 0 || newSize > Size32(old(payload.entries)) || Size32(payload.entries) == newSize
      ensures ok ==> (Size32(payload.entries) == newSize <==>
                      newSize == 0 || ArraySize(old(payload.entries)) < INDEX_RANGE)
    {
      hide Grown, Truncated, IsArrayMap, Put, ArraySize, Find;
      ResizedSizeExactly(payload.entries, newSize);
      SizeInRange(payload.entries);
      var oldSize := Size();
      if newSize == 0 {
        ok := Clear();
      } else if newSize > oldSize {
        ok := Subscript(newSize - 1);
      } else {
        EraseFrom(newSize, oldSize);
        var size := Size();
        ok := size == newSize;
      }
    }

    /** One assignment of removeIndex's loop: each side is created if it is not there, then they swap. */
    method ShiftOne(i: nat)
      requires Valid() && payload.Array? && i + 1 < INDEX_RANGE
      modifies this`payload
      ensures Valid() && payload == Array(Swapped(old(payload.entries), i))
    {
      ghost var es := payload.entries;
      var left, right := At(payload.entries, i), At(payload.entries, i + 1);
      payload := Array(Put(Put(payload.entries, Index(i), right), Index(i + 1), left));
      SwappedFinds(es, i, i);
    }

    /** The loop of removeIndex. */
    method ShiftLeft(index: nat, last: nat)
      requires Valid() && payload.Array? && index <= last < INDEX_RANGE
      modifies this`payload
      ensures Valid() && payload == Array(ShiftedLeft(old(payload.entries), index, last))
    {
      hide Swapped, IsArrayMap;
      var i := index;
      while i < last
        invariant index <= i <= last && payload.Array? && Valid()
        invariant ShiftedLeft(payload.entries, i, last) == ShiftedLeft(old(payload.entries), index, last)
      {
        ShiftOne(i);
        i := i + 1;
      }
    }

    /** The removed element goes to the receiver; what the receiver held is shifted to the end and erased. */
    method RemoveIndex(index: nat, removed: ValueCell) returns (ok: bool)
      requires Valid() && index < INDEX_RANGE && removed != this
      modifies this`payload, removed
      ensures Valid()
      ensures ok <==> old(payload.Array? && Has(payload.entries, Index(index)))
      ensures !ok ==> payload == old(payload) && removed.Content() == old(removed.Content())
      ensures ok ==> payload == Array(Removed(old(payload.entries), index, old(removed.Content())))
      ensures ok ==> removed.Content() == At(old(payload.entries), index)
      ensures forall vs: seq<Value> | old(Holds(vs)) ::
                index < |vs| ==> ok && Holds(vs[..index] + vs[index + 1..]) && removed.Content() == vs[index]
    {
      hide Removed, IsArrayMap, Put, Has, Slot;
      ghost var es, junk := ElementsOf(payload), removed.Content();
      forall vs: seq<Value> | es == Items(vs) && index < |vs| < INDEX_RANGE
        ensures Has(es, Index(index)) && At(es, index) == vs[index]
        ensures Removed(es, index, junk) == Items(vs[..index] + vs[index + 1..])
      {
        RemovesFromSequence(vs, index, junk);
      }
      ok := payload.Array? && Has(payload.entries, Index(index));
      if ok {
        RemovedFinds(es, index, junk, 0);
        PutIndex(es, index, junk);
        SwapElement(index, removed);
        ShiftAndErase(es, index, junk);
      }
    }

    /** The rest of removeIndex, after the assignment to the receiver. */
    method ShiftAndErase(ghost es: seq<Entry>, index: nat, ghost junk: Value)
      requires Valid() && IsArrayMap(es) && Has(es, Index(index))
      requires payload == Array(Put(es, Index(index), junk))
      modifies this`payload
      ensures payload == Array(Removed(es, index, junk))
    {
      hide IsArrayMap, Put, Has, ShiftedLeft, Erase;
      PutKeepsSize(es, index, junk);
      LastInRange(es, index);
      RemovedIs(es, index, junk);
      var oldSize := Size();
      var last := (oldSize + INDEX_RANGE - 1) % INDEX_RANGE;
      ShiftLeft(index, last);
      payload := Array(Erase(payload.entries, Index(last)));
    }

    lemma RemovedIs(es: seq<Entry>, index: nat, junk: Value)
      requires IsArrayMap(es) && Has(es, Index(index))
      ensures es != []
      ensures var last := (Size32(es) + INDEX_RANGE - 1) % INDEX_RANGE;
              Removed(es, index, junk) == Erase(ShiftedLeft(Put(es, Index(index), junk), index, last), Index(last))
    {
    }

    lemma LastInRange(es: seq<Entry>, index: nat)
      requires IsArrayMap(es) && Has(es, Index(index))
      ensures index <= (Size32(es) + INDEX_RANGE - 1) % INDEX_RANGE < INDEX_RANGE
    {
    }

    lemma PutKeepsSize(es: seq<Entry>, i: nat, v: Value)
      requires IsArrayMap(es) && Has(es, Index(i))
      ensures ArraySize(Put(es, Index(i), v)) == ArraySize(es)
    {
    }
  }
}
