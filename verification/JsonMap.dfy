/** `std::map<CZString, Value>` as an ordered sequence of entries, and the array operations on it. */
module JsonMap {
  import opened Bytes
  import opened JsonValue

  datatype Option<+T> = None | Some(value: T)

  /** `lower_bound`: the first position whose key is not below `k`. */
  function LowerBound(es: seq<Entry>, k: Key): (p: nat)
    ensures p <= |es|
  {
    if es == [] || !KeyLess(es[0].key, k) then 0 else 1 + LowerBound(es[1..], k)
  }

  lemma {:induction false} LowerBoundSplits(es: seq<Entry>, k: Key)
    ensures forall i | 0 <= i < LowerBound(es, k) :: KeyLess(es[i].key, k)
    ensures LowerBound(es, k) < |es| ==> !KeyLess(es[LowerBound(es, k)].key, k)
  {
    if es != [] && KeyLess(es[0].key, k) {
      LowerBoundSplits(es[1..], k);
    }
  }

  function Lookup(es: seq<Entry>, k: Key): Option<Value> {
    var p := LowerBound(es, k);
    if p < |es| && es[p].key == k then Some(es[p].value) else None
  }

  /** Find the slot of `k`, inserting it if missing, and store `v` there. */
  function Put(es: seq<Entry>, k: Key, v: Value): seq<Entry> {
    var p := LowerBound(es, k);
    if p < |es| && es[p].key == k then es[p := Entry(k, v)]
    else es[..p] + [Entry(k, v)] + es[p..]
  }

  function Erase(es: seq<Entry>, k: Key): seq<Entry> {
    var p := LowerBound(es, k);
    if p < |es| && es[p].key == k then es[..p] + es[p + 1..] else es
  }

  /** A map whose keys are all of one kind, in order. */
  ghost predicate IsMap(es: seq<Entry>, indexed: bool) {
    Ordered(es) && forall i | 0 <= i < |es| :: KindOk(es[i].key, indexed)
  }

  lemma LookupAt(es: seq<Entry>, indexed: bool, i: nat)
    requires IsMap(es, indexed) && i < |es|
    ensures LowerBound(es, es[i].key) == i
    ensures Lookup(es, es[i].key) == Some(es[i].value)
  {
    var p := LowerBound(es, es[i].key);
    LowerBoundSplits(es, es[i].key);
    KeyTrichotomy(es[i].key, es[i].key, indexed);
  }

  lemma LookupFinds(es: seq<Entry>, k: Key, indexed: bool) returns (i: nat)
    requires IsMap(es, indexed) && Lookup(es, k).Some?
    ensures i < |es| && es[i] == Entry(k, Lookup(es, k).value)
  {
    i := LowerBound(es, k);
  }

  /** Everything past the lower bound is above `k`. */
  lemma AboveBound(es: seq<Entry>, k: Key, indexed: bool)
    requires IsMap(es, indexed) && KindOk(k, indexed)
    ensures forall i | LowerBound(es, k) <= i < |es| :: es[i].key == k || KeyLess(k, es[i].key)
    ensures forall i | LowerBound(es, k) < i < |es| :: KeyLess(k, es[i].key)
  {
    var p := LowerBound(es, k);
    LowerBoundSplits(es, k);
    if p < |es| {
      KeyTrichotomy(es[p].key, k, indexed);
      forall i | p < i < |es| ensures KeyLess(k, es[i].key) {
        if es[p].key != k {
          KeyTransitive(k, es[p].key, es[i].key);
        }
      }
    }
  }

  lemma PutIsMap(es: seq<Entry>, k: Key, v: Value, indexed: bool)
    requires IsMap(es, indexed) && KindOk(k, indexed)
    ensures IsMap(Put(es, k, v), indexed)
  {
    LowerBoundSplits(es, k);
    AboveBound(es, k, indexed);
  }

  lemma EraseIsMap(es: seq<Entry>, k: Key, indexed: bool)
    requires IsMap(es, indexed)
    ensures IsMap(Erase(es, k), indexed)
  {
  }

  lemma NoLookup(es: seq<Entry>, k: Key, indexed: bool)
    requires IsMap(es, indexed) && forall i | 0 <= i < |es| :: es[i].key != k
    ensures Lookup(es, k) == None
  {
  }

  lemma LookupPut(es: seq<Entry>, k: Key, v: Value, j: Key, indexed: bool)
    requires IsMap(es, indexed) && KindOk(k, indexed)
    ensures Lookup(Put(es, k, v), j) == if j == k then Some(v) else Lookup(es, j)
  {
    var p, es' := LowerBound(es, k), Put(es, k, v);
    PutIsMap(es, k, v, indexed);
    if j == k {
      LookupAt(es', indexed, p);
    } else if Lookup(es, j).Some? {
      var i := LookupFinds(es, j, indexed);
      var i' := if i < p || (p < |es| && es[p].key == k) then i else i + 1;
      assert es'[i'] == es[i];
      LookupAt(es', indexed, i');
    } else if Lookup(es', j).Some? {
      var i := LookupFinds(es', j, indexed);
      var i' := if i < p || (p < |es| && es[p].key == k) then i else i - 1;
      assert es'[i] == es[i'];
      LookupAt(es, indexed, i');
      assert false;
    }
  }

  lemma LookupErase(es: seq<Entry>, k: Key, j: Key, indexed: bool)
    requires IsMap(es, indexed)
    ensures Lookup(Erase(es, k), j) == if j == k then None else Lookup(es, j)
  {
    var p, es' := LowerBound(es, k), Erase(es, k);
    EraseIsMap(es, k, indexed);
    if es' != es {
      if Lookup(es, j).Some? && j != k {
        var i := LookupFinds(es, j, indexed);
        var i' := if i < p then i else i - 1;
        assert es'[i'] == es[i];
        LookupAt(es', indexed, i');
      } else if Lookup(es', j).Some? {
        var i := LookupFinds(es', j, indexed);
        var i' := if i < p then i else i + 1;
        assert es'[i] == es[i'];
        LookupAt(es, indexed, i');
        LookupAt(es, indexed, p);
        assert false;
      }
    }
  }

  /** Storing above every key appends. */
  lemma PutLast(es: seq<Entry>, k: Key, v: Value)
    requires forall i | 0 <= i < |es| :: KeyLess(es[i].key, k)
    ensures Put(es, k, v) == es + [Entry(k, v)]
  {
    LowerBoundSplits(es, k);
  }

  // ---- arrays ----

  /** `size()` of an array: highest index + 1 in 32 bits. */
  function ArraySize(es: seq<Entry>): nat
    requires es != [] ==> es[|es| - 1].key.Index?
  {
    if es == [] then 0 else (es[|es| - 1].key.index + 1) % TWO32
  }

  /** Reading a slot that is not there gives null. */
  function GetOrNull(es: seq<Entry>, i: nat): Value {
    var o := Lookup(es, Index(i));
    if o.Some? then o.value else Null
  }

  ghost predicate Dense(es: seq<Entry>) {
    forall i | 0 <= i < |es| :: es[i].key == Index(i)
  }

  function Values(es: seq<Entry>): seq<Value> {
    seq(|es|, i requires 0 <= i < |es| => es[i].value)
  }

  lemma DenseLookup(es: seq<Entry>, i: nat)
    requires Dense(es)
    ensures Lookup(es, Index(i)) == if i < |es| then Some(es[i].value) else None
  {
    if i < |es| {
      LookupAt(es, true, i);
    } else {
      NoLookup(es, Index(i), true);
      assert forall j | 0 <= j < |es| :: KeyLess(es[j].key, Index(i));
    }
  }

  /** A map whose present slots are exactly `0..n` is dense. */
  lemma {:induction false} DenseByLookup(es: seq<Entry>, n: nat)
    requires IsMap(es, true)
    requires forall i: nat :: Lookup(es, Index(i)).Some? <==> i < n
    ensures Dense(es) && |es| == n
  {
    var k := 0;
    while k < |es|
      invariant k <= |es| && k <= n
      invariant forall i | 0 <= i < k :: es[i].key == Index(i)
    {
      LookupAt(es, true, k);
      var j := LowerBound(es, Index(k));
      if k > 0 {
        assert KeyLess(es[k - 1].key, es[k].key);
      }
      assert es[k].key.index >= k;
      assert Lookup(es, Index(k)).Some?;
      LookupAt(es, true, j);
      k := k + 1;
    }
  }

  /** Slot `j` once slots `index..i` have been overwritten by their right neighbours. */
  function Shifted(es: seq<Entry>, index: nat, i: nat, j: nat): Option<Value> {
    if index <= j < i then Some(GetOrNull(es, j + 1)) else if j == i then Some(GetOrNull(es, j)) else Lookup(es, Index(j))
  }

  /** Slot `j` of `es` after slot `index` is taken out: lower slots stay, higher ones move down by one. */
  function AfterRemoval(es: seq<Entry>, index: nat, j: nat): Option<Value>
    requires es != [] && es[|es| - 1].key.Index?
  {
    if j < index then Lookup(es, Index(j))
    else if j < es[|es| - 1].key.index then Some(GetOrNull(es, j + 1))
    else None
  }

  /** The index map of one `arrayValue`. */
  class ArrayValue {
    var entries: seq<Entry>

    ghost predicate Valid()
      reads this
    {
      IsMap(entries, true) && forall i | 0 <= i < |entries| :: entries[i].key.index < TWO32
    }

    function Size(): nat
      requires Valid()
      reads this
    {
      ArraySize(entries)
    }

    constructor ()
      ensures Valid() && entries == []
    {
      entries := [];
    }

    /** `operator[](ArrayIndex)`: a missing slot is created holding null. */
    method Slot(index: nat) returns (v: Value)
      requires Valid() && index < TWO32
      modifies this
      ensures Valid() && v == old(GetOrNull(entries, index))
      ensures entries == Put(old(entries), Index(index), v)
      ensures forall j :: Lookup(entries, j) == if j == Index(index) then Some(v) else old(Lookup(entries, j))
    {
      var p := LowerBound(entries, Index(index));
      if p < |entries| && entries[p].key == Index(index) {
        v := entries[p].value;
        assert entries == Put(entries, Index(index), v);
      } else {
        v := Null;
        entries := Put(entries, Index(index), Null);
      }
      PutIsMap(old(entries), Index(index), v, true);
      forall j ensures Lookup(entries, j) == if j == Index(index) then Some(v) else old(Lookup(entries, j)) {
        LookupPut(old(entries), Index(index), v, j, true);
      }
    }

    method Store(index: nat, v: Value)
      requires Valid() && index < TWO32
      modifies this
      ensures Valid() && entries == Put(old(entries), Index(index), v)
      ensures forall j :: Lookup(entries, j) == if j == Index(index) then Some(v) else old(Lookup(entries, j))
    {
      entries := Put(entries, Index(index), v);
      PutIsMap(old(entries), Index(index), v, true);
      forall j ensures Lookup(entries, j) == if j == Index(index) then Some(v) else old(Lookup(entries, j)) {
        LookupPut(old(entries), Index(index), v, j, true);
      }
    }

    /** `append`: on a dense array of fewer than 2^32 elements, appends to the element sequence. */
    method Append(v: Value)
      requires Valid()
      modifies this
      ensures Valid() && entries == Put(old(entries), Index(old(Size())), v)
      ensures old(Dense(entries)) && |old(entries)| < TWO32 ==>
                Dense(entries) && Values(entries) == old(Values(entries)) + [v] && Size() == |entries| % TWO32
    {
      ghost var es := entries;
      var n := Size();
      Store(n, v);
      if Dense(es) && |es| < TWO32 {
        assert n == |es|;
        PutLast(es, Index(n), v);
      }
    }

    /**
      * `removeIndex`. A missing slot is refused and nothing changes. Otherwise the slots above
      * move down by one, reading a gap as null, and on a dense array this is sequence deletion.
      */
    method RemoveIndex(index: nat) returns (found: bool, removed: Value)
      requires Valid() && index < TWO32
      modifies this
      ensures Valid() && found == old(Lookup(entries, Index(index)).Some?)
      ensures !found ==> entries == old(entries)
      ensures found ==> removed == old(GetOrNull(entries, index))
      ensures found ==> forall j: nat {:trigger AfterRemoval(old(entries), index, j)} ::
                Lookup(entries, Index(j)) == AfterRemoval(old(entries), index, j)
      ensures found && old(Dense(entries)) ==> IsDeletion(old(entries), index, entries)
    {
      hide LowerBound, Lookup, Erase, Shifted, Dense;
      ghost var es := entries;
      var o := Lookup(entries, Index(index));
      if o.None? {
        return false, Null;
      }
      found, removed := true, o.value;
      var oldSize := Size();
      var last := if oldSize == 0 then TWO32 - 1 else oldSize - 1;  // `oldSize - 1` is unsigned
      PresentBelowLast(es, index);
      ShiftDown(index, last);
      ghost var moved := entries;
      Drop(last);
      forall j: nat {:trigger AfterRemoval(es, index, j)} ensures Lookup(entries, Index(j)) == AfterRemoval(es, index, j) {
        assert Lookup(moved, Index(j)) == Shifted(es, index, last, j);
        ShiftedIsRemoval(es, index, j);
      }
      if Dense(es) {
        DenseRemoval(es, index, entries);
      }
    }

    /** The shifting loop of `removeIndex`. */
    method ShiftDown(index: nat, last: nat)
      requires Valid() && index <= last < TWO32 && Lookup(entries, Index(index)).Some?
      modifies this
      ensures Valid()
      ensures forall j: nat {:trigger Shifted(old(entries), index, last, j)} ::
                Lookup(entries, Index(j)) == Shifted(old(entries), index, last, j)
    {
      hide LowerBound, Lookup, Put;
      ghost var es := entries;
      var i := index;
      while i < last
        invariant index <= i <= last && Valid()
        invariant forall j: nat {:trigger Shifted(es, index, i, j)} :: Lookup(entries, Index(j)) == Shifted(es, index, i, j)
      {
        ghost var before := entries;
        var next := Slot(i + 1);
        assert next == GetOrNull(es, i + 1) by {
          assert Lookup(before, Index(i + 1)) == Shifted(es, index, i, i + 1);
        }
        Store(i, next);
        forall j: nat {:trigger Shifted(es, index, i + 1, j)} ensures Lookup(entries, Index(j)) == Shifted(es, index, i + 1, j) {
          assert Lookup(before, Index(j)) == Shifted(es, index, i, j);
        }
        i := i + 1;
      }
    }

    /**
      * `resize`. Growing creates the last slot only. Shrinking erases the tail, and the closing
      * `assert(size() == newSize)` holds exactly when slot `newSize - 1` was present.
      */
    method Resize(newSize: nat) returns (asserted: bool)
      requires Valid() && newSize < TWO32
      modifies this
      ensures Valid()
      ensures newSize == 0 ==> entries == [] && asserted
      ensures newSize > old(Size()) ==>
                asserted && entries == Put(old(entries), Index(newSize - 1), old(GetOrNull(entries, newSize - 1)))
      ensures 0 < newSize <= old(Size()) ==>
                && (forall j: nat :: Lookup(entries, Index(j)) == if j < newSize then old(Lookup(entries, Index(j))) else None)
                && asserted == old(Lookup(entries, Index(newSize - 1)).Some?)
    {
      var oldSize := Size();
      asserted := true;
      if newSize == 0 {
        entries := [];
      } else if newSize > oldSize {
        var _ := Slot(newSize - 1);
      } else {
        Truncate(newSize, oldSize);
        asserted := Size() == newSize;
        SizeIs(entries, newSize);
      }
    }

    /** The erasing loop of `resize`. */
    method Truncate(newSize: nat, oldSize: nat)
      requires Valid() && 0 < newSize <= oldSize == Size()
      modifies this
      ensures Valid()
      ensures forall j: nat :: Lookup(entries, Index(j)) == if j < newSize then old(Lookup(entries, Index(j))) else None
    {
      hide Lookup, Erase, IsMap;
      ghost var es := entries;
      LastIsHighest(es);
      var index := newSize;
      while index < oldSize
        invariant newSize <= index <= oldSize && Valid()
        invariant forall j: nat :: Lookup(entries, Index(j)) ==
                                   if newSize <= j < index then None else Lookup(es, Index(j))
      {
        Drop(index);
        index := index + 1;
      }
    }

    method Drop(index: nat)
      requires Valid()
      modifies this
      ensures Valid() && entries == Erase(old(entries), Index(index))
      ensures forall j :: Lookup(entries, j) == if j == Index(index) then None else old(Lookup(entries, j))
    {
      entries := Erase(entries, Index(index));
      EraseIsMap(old(entries), Index(index), true);
      forall j ensures Lookup(entries, j) == if j == Index(index) then None else old(Lookup(entries, j)) {
        LookupErase(old(entries), Index(index), j, true);
      }
    }
  }

  /** `es'` holds the elements of `es` with the one at `index` taken out, the rest in order. */
  ghost predicate IsDeletion(es: seq<Entry>, index: nat, es': seq<Entry>) {
    && index < |es| && Dense(es') && |es'| == |es| - 1
    && Values(es') == Values(es)[..index] + Values(es)[index + 1..]
  }

  lemma PresentBelowLast(es: seq<Entry>, index: nat)
    requires IsMap(es, true) && Lookup(es, Index(index)).Some?
    ensures es != [] && index <= es[|es| - 1].key.index
  {
    var at := LookupFinds(es, Index(index), true);
    if at < |es| - 1 { assert KeyLess(es[at].key, es[|es| - 1].key); }
  }

  lemma ShiftedIsRemoval(es: seq<Entry>, index: nat, j: nat)
    requires IsMap(es, true) && es != [] && index <= es[|es| - 1].key.index
    ensures var last := es[|es| - 1].key.index;
            (if j == last then None else Shifted(es, index, last, j)) == AfterRemoval(es, index, j)
  {
    LastIsHighest(es);
  }

  /** Where the element now at `j` was before slot `index` was taken out. */
  function Origin(index: nat, j: nat): nat {
    if j < index then j else j + 1
  }

  lemma DenseRemovalAt(es: seq<Entry>, index: nat, j: nat)
    requires Dense(es) && index < |es|
    ensures AfterRemoval(es, index, j) == if j < |es| - 1 then Some(es[Origin(index, j)].value) else None
  {
    DenseLookup(es, j);
    DenseLookup(es, j + 1);
  }

  lemma DenseRemoval(es: seq<Entry>, index: nat, es': seq<Entry>)
    requires Dense(es) && Lookup(es, Index(index)).Some? && IsMap(es', true)
    requires forall j: nat {:trigger AfterRemoval(es, index, j)} ::
               Lookup(es', Index(j)) == AfterRemoval(es, index, j)
    ensures IsDeletion(es, index, es')
  {
    hide LowerBound, Lookup, AfterRemoval;
    DenseLookup(es, index);
    forall j: nat ensures Lookup(es', Index(j)).Some? <==> j < |es| - 1 {
      DenseRemovalAt(es, index, j);
    }
    DenseByLookup(es', |es| - 1);
    forall j | 0 <= j < |es'| ensures es'[j].value == es[Origin(index, j)].value {
      DenseLookup(es', j);
      DenseRemovalAt(es, index, j);
    }
  }

  lemma LastIsHighest(es: seq<Entry>)
    requires IsMap(es, true)
    ensures forall j: nat | es == [] || es[|es| - 1].key.index < j :: Lookup(es, Index(j)) == None
  {
    forall j: nat | es == [] || es[|es| - 1].key.index < j ensures Lookup(es, Index(j)) == None {
      if Lookup(es, Index(j)).Some? {
        var i := LookupFinds(es, Index(j), true);
        assert false;
      }
    }
  }

  lemma SizeIs(es: seq<Entry>, n: nat)
    requires IsMap(es, true) && 0 < n < TWO32
    requires forall j: nat | n <= j :: Lookup(es, Index(j)) == None
    ensures ArraySize(es) == n <==> Lookup(es, Index(n - 1)).Some?
  {
    if es != [] {
      LookupAt(es, true, |es| - 1);
      LastIsHighest(es);
    }
  }

  /** An array with slot 2 only, resized to 2, fails the assertion at the end of `resize`. */
  method ResizeAssertFails() returns (asserted: bool)
    ensures !asserted
  {
    var a := new ArrayValue();
    assert Lookup(a.entries, Index(1)) == None;
    var v := a.Slot(2);
    assert a.Size() == 3;
    asserted := a.Resize(2);
  }
}
