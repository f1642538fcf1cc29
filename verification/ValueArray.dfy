/**
 Array operations of Json::Value. On a dense array, one whose keys are exactly
 0..n-1, they act as the matching operations on the sequence of elements.
 */
module ValueArray {
  import opened Values

  const ARRAY_INDEX_RANGE: int := 0x1_0000_0000

  predicate Dense(es: seq<Member>) {
    |es| < ARRAY_INDEX_RANGE && forall i | 0 <= i < |es| :: es[i].key == Index(i)
  }

  function Elements(es: seq<Member>): (s: seq<Value>)
    ensures |s| == |es|
  {
    seq(|es|, i requires 0 <= i < |es| => es[i].value)
  }

  /** Value::size of an array: highest index + 1, in ArrayIndex arithmetic. */
  function Size(es: seq<Member>): nat {
    if es == [] then 0
    else match es[|es| - 1].key
      case Index(i) => (i + 1) % ARRAY_INDEX_RANGE
      case Name(_) => 0
  }

  lemma DenseLookup(es: seq<Member>, i: nat)
    requires Dense(es) && i <= |es|
    ensures Size(es) == |es|
    ensures LowerBound(es, Index(i)) == i
    ensures Has(es, Index(i)) <==> i < |es|
  {
    LowerBoundUnique(es, Index(i), i);
  }

  /** Writing to a present index replaces one element; to the next index, appends. */
  lemma DensePut(es: seq<Member>, i: nat, x: Value)
    requires Dense(es) && i <= |es| && i + 1 < ARRAY_INDEX_RANGE
    ensures Dense(Put(es, Index(i), x))
    ensures i < |es| ==> Elements(Put(es, Index(i), x)) == Elements(es)[i := x]
    ensures i == |es| ==> Elements(Put(es, Index(i), x)) == Elements(es) + [x]
  {
    DenseLookup(es, i);
    if i == |es| {
      PutAppends(es, Index(i), x);
    }
  }

  lemma DenseGet(es: seq<Member>, i: nat)
    requires Dense(es)
    ensures Has(es, Index(i)) <==> i < |es|
    ensures i < |es| ==> Get(es, Index(i)) == es[i].value
  {
    if i <= |es| {
      DenseLookup(es, i);
    } else {
      LowerBoundUnique(es, Index(i), |es|);
    }
  }

  // ---- Arrays with gaps ----

  /** The entries of any array: sorted indexes of the width of ArrayIndex. */
  predicate Indexed(es: seq<Member>) {
    Sorted(es) && forall i | 0 <= i < |es| :: es[i].key.Index? && es[i].key.index < ARRAY_INDEX_RANGE
  }

  function Last(es: seq<Member>): nat
    requires es != [] && Indexed(es)
  {
    es[|es| - 1].key.index
  }

  /** What reading an index through a const reference gives: null in a gap. */
  function ItemAt(es: seq<Member>, i: nat): Value {
    Child(Array(es), Index(i))
  }

  /** operator[] on a value that may be written: a gap is filled with null first. */
  function Resolve(es: seq<Member>, i: nat): seq<Member> {
    if Has(es, Index(i)) then es else Put(es, Index(i), Null)
  }

  /** One turn of removeIndex's loop: element i + 1 is copied onto element i. */
  function ShiftOne(es: seq<Member>, i: nat): seq<Member> {
    var r := Resolve(es, i + 1);
    Put(r, Index(i), ItemAt(r, i + 1))
  }

  lemma DenseIndexed(es: seq<Member>)
    requires Dense(es)
    ensures Indexed(es) && (es != [] ==> Last(es) == |es| - 1)
    ensures forall i | 0 <= i :: Has(es, Index(i)) <==> i < |es|
    ensures forall i | 0 <= i < |es| :: ItemAt(es, i) == Elements(es)[i]
  {
    forall i: nat
      ensures Has(es, Index(i)) <==> i < |es|
      ensures i < |es| ==> ItemAt(es, i) == Elements(es)[i]
    {
      DenseGet(es, i);
    }
  }

  /** Entries with the keys below n and no others are dense. */
  lemma DenseByKeys(es: seq<Member>, n: nat)
    requires Indexed(es) && n < ARRAY_INDEX_RANGE
    requires forall i | 0 <= i :: Has(es, Index(i)) <==> i < n
    ensures Dense(es) && |es| == n
  {
    var k := 0;
    while k < n
      invariant k <= n && k <= |es|
      invariant forall i | 0 <= i < k :: es[i].key == Index(i)
    {
      assert Has(es, Index(k));
      var q := LowerBound(es, Index(k));
      assert q >= k && es[q].key == Index(k);
      assert q > k ==> KeyLess(es[k].key, es[q].key) && (k > 0 ==> KeyLess(es[k - 1].key, es[k].key));
      k := k + 1;
    }
    if n < |es| {
      HasIff(es, es[n].key);
    }
  }

  /** No key is above the last one, and that is present. */
  lemma LastIsHighest(es: seq<Member>, i: nat)
    requires es != [] && Indexed(es)
    ensures Has(es, Index(Last(es)))
    ensures Has(es, Index(i)) ==> i <= Last(es)
  {
    HasIff(es, Index(Last(es)));
    assert es[|es| - 1].key == Index(Last(es));
  }

  lemma LastIs(es: seq<Member>, last: nat)
    requires Indexed(es) && Has(es, Index(last))
    requires forall i | 0 <= i :: Has(es, Index(i)) ==> i <= last
    ensures es != [] && Last(es) == last
  {
    LastIsHighest(es, last);
  }

  lemma PutIndexed(es: seq<Member>, i: nat, x: Value)
    requires Indexed(es) && i < ARRAY_INDEX_RANGE
    ensures Indexed(Put(es, Index(i), x))
  {
    PutSorted(es, Index(i), x);
  }

  /** What a write through operator[] does to every index. */
  lemma PutItem(es: seq<Member>, i: nat, x: Value, j: nat)
    requires Indexed(es)
    ensures Has(Put(es, Index(i), x), Index(j)) <==> j == i || Has(es, Index(j))
    ensures ItemAt(Put(es, Index(i), x), j) == if j == i then x else ItemAt(es, j)
  {
    hide Put;
    PutLaws(es, Index(i), x, Index(j));
  }

  lemma ShiftOneItem(es: seq<Member>, i: nat, j: nat)
    requires Indexed(es) && i + 1 < ARRAY_INDEX_RANGE
    ensures Indexed(ShiftOne(es, i))
    ensures Has(ShiftOne(es, i), Index(j)) <==> j == i || j == i + 1 || Has(es, Index(j))
    ensures ItemAt(ShiftOne(es, i), j) == ItemAt(es, if j == i then i + 1 else j)
  {
    hide Put, Has, Sorted;
    var r := Resolve(es, i + 1);
    PutIndexed(es, i + 1, Null);
    PutItem(es, i + 1, Null, j);
    PutItem(es, i + 1, Null, i + 1);
    PutIndexed(r, i, ItemAt(r, i + 1));
    PutItem(r, i, ItemAt(r, i + 1), j);
  }

  /** removeIndex's state when its loop has come to i. */
  ghost predicate ShiftedTo(es: seq<Member>, was: seq<Member>, index: nat, i: nat) {
    && Indexed(es)
    && (forall j | 0 <= j :: Has(es, Index(j)) <==> index <= j <= i || Has(was, Index(j)))
    && (forall j | 0 <= j :: ItemAt(es, j) == ItemAt(was, if index <= j < i then j + 1 else j))
  }

  lemma ShiftStep(es: seq<Member>, was: seq<Member>, index: nat, i: nat)
    requires ShiftedTo(es, was, index, i) && index <= i && i + 1 < ARRAY_INDEX_RANGE
    ensures ShiftedTo(ShiftOne(es, i), was, index, i + 1)
  {
    hide Has, ItemAt, ShiftOne, Indexed;
    var r := ShiftOne(es, i);
    ShiftOneItem(es, i, 0);
    forall j: nat
      ensures Has(r, Index(j)) <==> index <= j <= i + 1 || Has(was, Index(j))
      ensures ItemAt(r, j) == ItemAt(was, if index <= j < i + 1 then j + 1 else j)
    {
      ShiftOneItem(es, i, j);
    }
  }

  /** Everything above the index has moved down by one; a gap has become a null if it was above the index. */
  ghost predicate RemovedAt(es: seq<Member>, was: seq<Member>, index: nat)
    requires was != [] && Indexed(was)
  {
    && Indexed(es)
    && (forall j | 0 <= j :: Has(es, Index(j)) <==> if j < index then Has(was, Index(j)) else j < Last(was))
    && (forall j | 0 <= j :: ItemAt(es, j) == ItemAt(was, if j < index then j else j + 1))
  }

  /** The last key is still there when the loop ends, and erasing it completes the removal. */
  lemma ShiftedThenErased(es: seq<Member>, was: seq<Member>, index: nat)
    requires Indexed(was) && Has(was, Index(index)) && was != [] && ShiftedTo(es, was, index, Last(was))
    ensures Has(es, Index(Last(was))) && RemovedAt(Erase(es, Index(Last(was))), was, index)
  {
    hide Erase, Indexed, Has;
    var last := Last(was);
    LastIsHighest(was, index);
    forall j: nat
      ensures Has(was, Index(j)) ==> j <= last
    {
      LastIsHighest(was, j);
    }
    LastIs(es, last);
    EraseLast(es);
    var r := Erase(es, Index(last));
    forall j: nat
      ensures Has(r, Index(j)) <==> j < last && Has(es, Index(j))
      ensures ItemAt(r, j) == if j < last then ItemAt(es, j) else Null
    {
      EraseLastItem(es, j);
    }
    forall j: nat
      ensures ItemAt(r, j) == ItemAt(was, if j < index then j else j + 1)
    {
      assert j + 1 > last ==> !Has(was, Index(j + 1));
    }
  }

  lemma EraseLast(es: seq<Member>)
    requires Indexed(es) && es != []
    ensures Erase(es, Index(Last(es))) == es[..|es| - 1] && Indexed(es[..|es| - 1])
  {
    LowerBoundUnique(es, Index(Last(es)), |es| - 1);
  }

  lemma EraseLastItem(es: seq<Member>, j: nat)
    requires Indexed(es) && es != []
    ensures var r := es[..|es| - 1];
            && (Has(r, Index(j)) <==> j < Last(es) && Has(es, Index(j)))
            && ItemAt(r, j) == (if j < Last(es) then ItemAt(es, j) else Null)
  {
    hide Has, LowerBound;
    var r := es[..|es| - 1];
    HasIff(es, Index(j));
    HasIff(r, Index(j));
    if Has(es, Index(j)) && j < Last(es) {
      var p :| 0 <= p < |es| && es[p].key == Index(j);
      assert r[p] == es[p];
    }
  }

  /** Unless it was the last one, removing an index makes the array smaller by one. */
  lemma RemovedSize(es: seq<Member>, was: seq<Member>, index: nat)
    requires was != [] && Indexed(was) && Has(was, Index(index)) && RemovedAt(es, was, index)
    ensures index < Last(was) ==> Size(es) == Last(was) == (Size(was) - 1) % ARRAY_INDEX_RANGE
  {
    hide Has, LowerBound, Child;
    if index < Last(was) {
      assert Has(es, Index(Last(was) - 1));
      forall j: nat | Has(es, Index(j))
        ensures j <= Last(was) - 1
      {
        LastIsHighest(was, j);
      }
      LastIs(es, Last(was) - 1);
    }
  }

  /** On a dense array removing an index is removing that element. */
  lemma RemovedDense(es: seq<Member>, was: seq<Member>, index: nat)
    requires Dense(was) && index < |was| && Indexed(was) && RemovedAt(es, was, index)
    ensures Dense(es) && Elements(es) == Elements(was)[..index] + Elements(was)[index + 1..]
  {
    hide Has, ItemAt, Indexed, Elements;
    DenseIndexed(was);
    DenseByKeys(es, |was| - 1);
    DenseIndexed(es);
    var r, t := Elements(es), Elements(was)[..index] + Elements(was)[index + 1..];
    forall j | 0 <= j < |es|
      ensures r[j] == t[j]
    {
      assert r[j] == ItemAt(es, j);
    }
    assert r == t;
  }

  lemma LastAbove(es: seq<Member>)
    requires es != [] && Indexed(es)
    ensures forall i | 0 <= i < |es| :: KeyLess(es[i].key, Index(Last(es) + 1))
  {
    assert forall i | 0 <= i < |es| - 1 :: KeyLess(es[i].key, es[|es| - 1].key);
  }

  /** Appending goes behind the last key; behind the highest index there is, it comes round to the first. */
  lemma AppendsBehind(es: seq<Member>, x: Value)
    requires es != [] && Indexed(es)
    ensures Put(es, Index(Size(es)), x)
         == if Last(es) + 1 < ARRAY_INDEX_RANGE then es + [Member(Index(Last(es) + 1), x)] else Put(es, Index(0), x)
  {
    hide Put, LowerBound, Sorted;
    if Last(es) + 1 < ARRAY_INDEX_RANGE {
      assert Size(es) == Last(es) + 1;
      LastAbove(es);
      PutAppends(es, Index(Size(es)), x);
    }
  }

  /** The entries that are left when resize's erasing loop has come to an index. */
  ghost function ErasedTo(was: seq<Member>, newSize: nat, index: nat): seq<Member>
    requires newSize <= index
  {
    var p, q := LowerBound(was, Index(newSize)), LowerBound(was, Index(index));
    was[..p] + was[q..]
  }

  lemma LowerBounds(es: seq<Member>, i: nat)
    requires Indexed(es)
    ensures LowerBound(es, Index(i + 1)) == LowerBound(es, Index(i)) + if Has(es, Index(i)) then 1 else 0
  {
    var p := LowerBound(es, Index(i));
    var q := if Has(es, Index(i)) then p + 1 else p;
    if q < |es| {
      assert p < q ==> KeyLess(es[p].key, es[q].key);
    }
    LowerBoundUnique(es, Index(i + 1), q);
  }

  lemma LowerBoundsOrdered(es: seq<Member>, i: nat, j: nat)
    requires Indexed(es) && i <= j
    ensures LowerBound(es, Index(i)) <= LowerBound(es, Index(j))
  {
    var p, q := LowerBound(es, Index(i)), LowerBound(es, Index(j));
    assert !(q < p);
  }

  lemma ErasedStart(was: seq<Member>, newSize: nat)
    ensures ErasedTo(was, newSize, newSize) == was
  {
  }

  lemma ErasedStep(was: seq<Member>, newSize: nat, index: nat)
    requires Indexed(was) && newSize <= index
    ensures Erase(ErasedTo(was, newSize, index), Index(index)) == ErasedTo(was, newSize, index + 1)
  {
    hide Sorted;
    var es := ErasedTo(was, newSize, index);
    var p, q := LowerBound(was, Index(newSize)), LowerBound(was, Index(index));
    LowerBoundsOrdered(was, newSize, index);
    LowerBounds(was, index);
    assert q < |was| ==> es[p] == was[q];
    LowerBoundUnique(es, Index(index), p);
  }

  lemma ErasedAll(was: seq<Member>, newSize: nat)
    requires Indexed(was) && 0 < newSize <= Size(was)
    ensures ErasedTo(was, newSize, Size(was)) == was[..LowerBound(was, Index(newSize))]
  {
    LowerBoundUnique(was, Index(Size(was)), |was|);
  }

  /** An array that is cut has the size it is cut to exactly if the index below is present. */
  lemma ShrunkSize(was: seq<Member>, newSize: nat)
    requires Indexed(was) && 0 < newSize <= Size(was)
    ensures var es := was[..LowerBound(was, Index(newSize))];
            Indexed(es) && (Size(es) == newSize <==> Has(was, Index(newSize - 1)))
  {
    hide LowerBound;
    var p := LowerBound(was, Index(newSize));
    LowerBounds(was, newSize - 1);
    assert p > 0 ==> was[..p][p - 1] == was[p - 1];
  }

  /** On a dense array resize makes the size what was asked for, and cuts or leaves the elements. */
  lemma ResizedDense(es: seq<Member>, newSize: nat)
    requires Dense(es) && newSize < ARRAY_INDEX_RANGE
    ensures Size(es) == |es| && (0 < newSize <= |es| ==> Has(es, Index(newSize - 1)))
    ensures newSize <= |es| ==> LowerBound(es, Index(newSize)) == newSize
    ensures newSize > |es| ==> Size(Resolve(es, newSize - 1)) == newSize
    ensures newSize > |es| ==> (Dense(Resolve(es, newSize - 1)) <==> newSize == |es| + 1)
  {
    DenseLookup(es, |es|);
    if newSize <= |es| {
      DenseLookup(es, newSize);
      DenseGet(es, if newSize > 0 then newSize - 1 else 0);
    } else {
      PutAppends(es, Index(newSize - 1), Null);
      assert Resolve(es, newSize - 1)[|es|].key == Index(newSize - 1);
    }
  }

  class ArrayValue {
    var value: Value

    constructor (v: Value)
      ensures value == v
    {
      value := v;
    }

    /** The elements of a dense array; none when the value is null. */
    ghost function View(): (s: seq<Value>)
      requires IsDense()
      reads this
    {
      if value.Null? then [] else Elements(value.entries)
    }

    ghost predicate IsDense()
      reads this
    {
      value.Null? || (value.Array? && Dense(value.entries))
    }

    /** `(*this)[index]` read through a const reference. */
    method Item(index: nat) returns (x: Value)
      requires value.Null? || value.Array?
      ensures IsDense() && index < |View()| ==> x == View()[index]
      ensures IsDense() && index >= |View()| ==> x == Null
    {
      x := Child(value, Index(index));
      if IsDense() && value.Array? {
        DenseGet(value.entries, index);
      }
    }

    /** `(*this)[index] = x`. */
    method Assign(index: nat, x: Value)
      requires value.Null? || value.Array?
      modifies this
      ensures value == PutChild(old(value), Index(index), x)
      ensures old(IsDense()) && index <= |old(View())| && index + 1 < ARRAY_INDEX_RANGE ==>
                IsDense() && View() == if index < |old(View())| then old(View())[index := x] else old(View()) + [x]
    {
      if IsDense() && value.Array? && index <= |value.entries| && index + 1 < ARRAY_INDEX_RANGE {
        DensePut(value.entries, index, x);
      }
      value := PutChild(value, Index(index), x);
    }

    method Append(x: Value)
      requires value.Null? || value.Array?
      modifies this
      ensures old(IsDense()) && |old(View())| + 1 < ARRAY_INDEX_RANGE ==>
                IsDense() && View() == old(View()) + [x]
      ensures old(value).Array? && old(value).entries != [] && Indexed(old(value).entries) ==>
                var was := old(value).entries;
                value == Array(if Last(was) + 1 < ARRAY_INDEX_RANGE then was + [Member(Index(Last(was) + 1), x)]
                               else Put(was, Index(0), x))
    {
      hide Put, LowerBound, Sorted;
      var size := if value.Null? then 0 else Size(value.entries);
      if value.Array? && value.entries != [] && Indexed(value.entries) {
        AppendsBehind(value.entries, x);
      }
      if IsDense() && value.Array? {
        DenseLookup(value.entries, |value.entries|);
      }
      Assign(size, x);
    }

    /**
     Value::resize. Growing fills only the last index, so a dense array is dense again
     exactly when it grew by at most one. Shrinking ends in an assertion, which holds
     exactly if the new highest index is there.
     */
    method Resize(newSize: nat) returns (asserted: bool)
      requires value.Null? || (value.Array? && Indexed(value.entries))
      requires newSize < ARRAY_INDEX_RANGE
      modifies this
      ensures value.Array? && Indexed(value.entries)
      ensures var was := if old(value).Null? then [] else old(value).entries;
              && value.entries == (if newSize > Size(was) then Resolve(was, newSize - 1)
                                   else if newSize == 0 then [] else was[..LowerBound(was, Index(newSize))])
              && (asserted <==> newSize == 0 || newSize > Size(was) || Has(was, Index(newSize - 1)))
      ensures old(IsDense()) ==> asserted && Size(value.entries) == newSize
      ensures old(IsDense()) && newSize <= |old(View())| ==> IsDense() && View() == old(View())[..newSize]
      ensures old(IsDense()) ==> (IsDense() <==> newSize <= |old(View())| + 1)
    {
      hide LowerBound, Put, Has, Get;
      ghost var start := if value.Null? then [] else value.entries;
      ghost var dense := IsDense();
      if value.Null? {
        value := Array([]);
      }
      var oldSize := Size(value.entries);
      if newSize == 0 {
        value, asserted := Array([]), true;
      } else if newSize > oldSize {
        PutIndexed(start, newSize - 1, Null);
        value, asserted := Array(Resolve(value.entries, newSize - 1)), true;
      } else {
        EraseRange(newSize, oldSize);
        asserted := Size(value.entries) == newSize;
        ShrunkSize(start, newSize);
      }
      if dense {
        ResizedDense(start, newSize);
      }
    }

    /** The erasing loop of resize, lowest index first. */
    method EraseRange(newSize: nat, oldSize: nat)
      requires value.Array? && Indexed(value.entries) && 0 < newSize <= oldSize == Size(value.entries)
      modifies this
      ensures value.Array? && value.entries == old(value).entries[..LowerBound(old(value).entries, Index(newSize))]
    {
      hide LowerBound, Sorted;
      ghost var was := value.entries;
      var index := newSize;
      ErasedStart(was, newSize);
      while index < oldSize
        invariant newSize <= index <= oldSize
        invariant value.Array? && value.entries == ErasedTo(was, newSize, index)
      {
        ErasedStep(was, newSize, index);
        value := Array(Erase(value.entries, Index(index)));
        index := index + 1;
      }
      ErasedAll(was, newSize);
    }

    /**
     Value::removeIndex: shift everything above the index down by one, then erase the last.
     The index of the last key is computed from the size, which wraps around to 0 behind the
     highest index there is.
     */
    method RemoveIndex(index: nat) returns (ok: bool, removed: Value)
      requires value.Array? ==> Indexed(value.entries)
      modifies this
      ensures ok <==> old(value).Array? && Has(old(value).entries, Index(index))
      ensures !ok ==> value == old(value) && removed == Null
      ensures ok ==> removed == ItemAt(old(value).entries, index)
      ensures ok ==> old(value).entries != [] && value.Array? && RemovedAt(value.entries, old(value).entries, index)
      ensures ok && index < Last(old(value).entries) ==> Size(value.entries) == (Size(old(value).entries) - 1) % ARRAY_INDEX_RANGE
      ensures ok && old(IsDense()) ==>
                index < |old(View())| && IsDense() && View() == old(View())[..index] + old(View())[index + 1..]
    {
      hide Put, LowerBound, Erase, Has, Get, Sorted, RemovedAt, ShiftedTo;
      if !value.Array? {
        return false, Null;
      }
      if !Has(value.entries, Index(index)) {
        return false, Null;
      }
      ghost var was := value.entries;
      HasIff(was, Index(index));
      LastIsHighest(was, index);
      ok, removed := true, Child(value, Index(index));
      var oldSize := Size(value.entries);
      var last := (oldSize - 1) % ARRAY_INDEX_RANGE;
      assert last == Last(was);
      ShiftDown(index, last);
      ShiftedThenErased(value.entries, was, index);
      value := Array(Erase(value.entries, Index(last)));
      RemovedSize(value.entries, was, index);
      if Dense(was) {
        DenseIndexed(was);
        RemovedDense(value.entries, was, index);
      }
    }

    /** The shifting loop of removeIndex. */
    method ShiftDown(index: nat, last: nat)
      requires value.Array? && Indexed(value.entries) && Has(value.entries, Index(index))
      requires index <= last < ARRAY_INDEX_RANGE
      modifies this
      ensures value.Array? && ShiftedTo(value.entries, old(value).entries, index, last)
    {
      hide Put, LowerBound, Has, Get, Sorted;
      ghost var was := value.entries;
      var i := index;
      while i < last
        invariant index <= i <= last
        invariant value.Array? && ShiftedTo(value.entries, was, index, i)
      {
        ShiftStep(value.entries, was, index, i);
        value := Array(Resolve(value.entries, i + 1));
        value := Array(Put(value.entries, Index(i), Child(value, Index(i + 1))));
        i := i + 1;
      }
    }
  }
}
