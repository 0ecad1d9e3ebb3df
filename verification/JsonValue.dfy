/** The JSON document tree of `Json::Value`, its two comparison operators and its index map. */
module JsonValue {
  import opened Bytes

  /** `CZString`: an array index or a member name. */
  datatype Key = Index(index: nat) | Name(name: bytes)

  datatype Entry = Entry(key: Key, value: Value)

  /**
    * A container holds its `std::map` as the sequence of entries that iteration yields, so keys
    * are strictly increasing (`Ordered`). Integers are bounded by `WellFormed`.
    */
  datatype Value =
    | Null
    | Int(i: int)
    | UInt(u: nat)
    | Real(r: real)
    | String(s: bytes)
    | Bool(b: bool)
    | Array(entries: seq<Entry>)
    | Object(entries: seq<Entry>)

  const TWO31: int := 0x8000_0000
  const TWO32: int := 0x1_0000_0000
  const TWO63: int := 0x8000_0000_0000_0000
  const TWO64: int := 0x1_0000_0000_0000_0000

  /** Conversion of any integer to a 32-bit `int`, which wraps. */
  function ToInt32(n: int): int {
    var m := n % TWO32;
    if m < TWO31 then m else m - TWO32
  }

  predicate IsContainer(v: Value) {
    v.Array? || v.Object?
  }

  // ---- keys ----

  predicate KeyLess(a: Key, b: Key) {
    match (a, b)
    case (Index(i), Index(j)) => i < j
    case (Name(x), Name(y)) => BytesLess(x, y)
    case _ => false
  }

  predicate KindOk(k: Key, indexed: bool) {
    if indexed then k.Index? else k.Name?
  }

  lemma KeyTrichotomy(a: Key, b: Key, indexed: bool)
    requires KindOk(a, indexed) && KindOk(b, indexed)
    ensures (a == b) <==> !KeyLess(a, b) && !KeyLess(b, a)
    ensures !(KeyLess(a, b) && KeyLess(b, a))
  {
    if !indexed {
      BytesTrichotomy(a.name, b.name);
    }
  }

  lemma KeyTransitive(a: Key, b: Key, c: Key)
    requires KeyLess(a, b) && KeyLess(b, c)
    ensures KeyLess(a, c)
  {
    if a.Name? {
      BytesTransitive(a.name, b.name, c.name);
    }
  }

  ghost predicate Ordered(es: seq<Entry>) {
    forall i, j | 0 <= i < j < |es| :: KeyLess(es[i].key, es[j].key)
  }

  // ---- well-formed values ----

  ghost predicate WellFormed(v: Value) {
    match v
    case Int(i) => -TWO63 <= i < TWO63
    case UInt(u) => u < TWO64
    case Array(es) =>
      && Ordered(es)
      && forall k | 0 <= k < |es| :: es[k].key.Index? && es[k].key.index < TWO32 && WellFormed(es[k].value)
    case Object(es) =>
      && Ordered(es)
      && forall k | 0 <= k < |es| :: es[k].key.Name? && WellFormed(es[k].value)
    case _ => true
  }

  // ---- operator< and operator== ----

  function Rank(v: Value): nat {
    match v
    case Null => 0
    case Int(_) => 1
    case UInt(_) => 2
    case Real(_) => 3
    case String(_) => 4
    case Bool(_) => 5
    case Array(_) => 6
    case Object(_) => 7
  }

  /** Number of nodes: the measure on which the two comparisons recurse. */
  ghost function Nodes(v: Value): nat {
    if IsContainer(v) then 1 + EntryNodes(v.entries) else 1
  }

  ghost function EntryNodes(es: seq<Entry>): nat {
    if es == [] then 0
    else
      assert (es decreases to es[0]);
      1 + Nodes(es[0].value) + EntryNodes(es[1..])
  }

  predicate Less(a: Value, b: Value)
    decreases Nodes(a) + Nodes(b), 1
  {
    if Rank(a) != Rank(b) then Rank(a) < Rank(b)
    else
      match a
      case Null => false
      case Int(i) => i < b.i
      case UInt(u) => u < b.u
      case Real(r) => r < b.r
      case Bool(x) => !x && b.b
      case String(s) => BytesLess(s, b.s)
      case _ =>
        var delta := ToInt32(|a.entries| - |b.entries|);
        if delta != 0 then delta < 0 else EntriesLess(a.entries, b.entries)
  }

  /** `std::lexicographical_compare` over the key/value pairs. */
  predicate EntriesLess(x: seq<Entry>, y: seq<Entry>)
    decreases EntryNodes(x) + EntryNodes(y), 1
  {
    if y == [] then false
    else if x == [] then true
    else if EntryLess(x[0], y[0]) then true
    else if EntryLess(y[0], x[0]) then false
    else EntriesLess(x[1..], y[1..])
  }

  /** `operator<` of `std::pair`. */
  predicate EntryLess(p: Entry, q: Entry)
    decreases Nodes(p.value) + Nodes(q.value), 2
  {
    KeyLess(p.key, q.key) || (!KeyLess(q.key, p.key) && Less(p.value, q.value))
  }

  predicate Equal(a: Value, b: Value)
    decreases a
  {
    Rank(a) == Rank(b) &&
    match a
    case Null => true
    case Int(i) => i == b.i
    case UInt(u) => u == b.u
    case Real(r) => r == b.r
    case Bool(x) => x == b.b
    case String(s) => |s| == |b.s| && Memcmp(s, b.s, |s|) == 0
    case _ =>
      && |a.entries| == |b.entries|
      && forall k | 0 <= k < |a.entries| ::
           a.entries[k].key == b.entries[k].key && Equal(a.entries[k].value, b.entries[k].value)
  }

  function Compare(a: Value, b: Value): int {
    if Less(a, b) then -1 else if Less(b, a) then 1 else 0
  }

  lemma {:induction false} MemcmpZero(a: bytes, b: bytes)
    requires |a| == |b|
    ensures Memcmp(a, b, |a|) == 0 <==> a == b
  {
    if a != [] {
      assert a == [a[0]] + a[1..] && b == [b[0]] + b[1..];
      MemcmpZero(a[1..], b[1..]);
    }
  }

  /** `operator==` decides equality of the trees. */
  lemma {:induction false} EqualIsIdentity(a: Value, b: Value)
    ensures Equal(a, b) <==> a == b
    decreases a
  {
    if a.String? && b.String? && |a.s| == |b.s| {
      MemcmpZero(a.s, b.s);
    } else if Rank(a) == Rank(b) && IsContainer(a) && |a.entries| == |b.entries| {
      forall k | 0 <= k < |a.entries|
        ensures Equal(a.entries[k].value, b.entries[k].value) <==> a.entries[k].value == b.entries[k].value
      {
        EqualIsIdentity(a.entries[k].value, b.entries[k].value);
      }
      if Equal(a, b) {
        assert a.entries == b.entries;
      }
    }
  }

  // ---- what holds at every size ----

  /** Keys have the kind their container asks for, as in every value there is. */
  ghost predicate Keyed(v: Value) {
    IsContainer(v) ==> KeyedEntries(v.entries, v.Array?)
  }

  ghost predicate KeyedEntries(es: seq<Entry>, indexed: bool) {
    forall k | 0 <= k < |es| ::
      assert (es decreases to es[k]);
      KindOk(es[k].key, indexed) && Keyed(es[k].value)
  }

  lemma {:induction false} WellFormedIsKeyed(v: Value)
    requires WellFormed(v)
    ensures Keyed(v)
  {
    if IsContainer(v) {
      forall k | 0 <= k < |v.entries| ensures KindOk(v.entries[k].key, v.Array?) && Keyed(v.entries[k].value) {
        WellFormedIsKeyed(v.entries[k].value);
      }
    }
  }

  /** The wrapped difference of the entry counts, `delta` in the source (jsoncpp.cpp:2914). */
  function Delta(a: Value, b: Value): int
    requires IsContainer(a) && IsContainer(b)
  {
    ToInt32(|a.entries| - |b.entries|)
  }

  /** Swapping the operands negates the difference, but for -2^31, which has no negation. */
  lemma DeltaSwap(a: Value, b: Value)
    requires IsContainer(a) && IsContainer(b)
    ensures -TWO31 <= Delta(a, b) < TWO31 && (|a.entries| == |b.entries| ==> Delta(a, b) == 0)
    ensures Delta(b, a) == if Delta(a, b) == -TWO31 then -TWO31 else -Delta(a, b)
  {
    var d := |a.entries| - |b.entries|;
    assert |b.entries| - |a.entries| == -d;
    NegatedRemainder(d);
  }

  lemma NegatedRemainder(d: int)
    ensures (-d) % TWO32 == if d % TWO32 == 0 then 0 else TWO32 - d % TWO32
  {
    var q, m := d / TWO32, d % TWO32;
    assert d == q * TWO32 + m;
    if m == 0 {
      RemainderIs(-d, -q, 0);
    } else {
      RemainderIs(-d, -q - 1, TWO32 - m);
    }
  }

  lemma RemainderIs(d: int, q: int, m: int)
    requires d == q * TWO32 + m && 0 <= m < TWO32
    ensures d % TWO32 == m
  {
    var t := d / TWO32 - q;
    assert t * TWO32 == m - d % TWO32;
  }

  /** Neither of two values is less exactly when they are the same, whatever their sizes. */
  lemma {:induction false} Decided(a: Value, b: Value)
    requires Keyed(a) && Keyed(b)
    ensures (a == b) <==> !Less(a, b) && !Less(b, a)
    decreases Nodes(a) + Nodes(b), 1
  {
    hide ToInt32;
    if Rank(a) == Rank(b) {
      if a.String? {
        BytesTrichotomy(a.s, b.s);
      } else if IsContainer(a) {
        DeltaSwap(a, b);
        EntriesDecided(a.entries, b.entries, a.Array?);
      }
    }
  }

  lemma {:induction false} EntriesDecided(x: seq<Entry>, y: seq<Entry>, indexed: bool)
    requires KeyedEntries(x, indexed) && KeyedEntries(y, indexed)
    ensures (x == y) <==> !EntriesLess(x, y) && !EntriesLess(y, x)
    decreases EntryNodes(x) + EntryNodes(y), 0
  {
    if x != [] && y != [] {
      EntryDecided(x[0], y[0], indexed);
      EntriesDecided(x[1..], y[1..], indexed);
      assert x == [x[0]] + x[1..] && y == [y[0]] + y[1..];
    }
  }

  lemma {:induction false} EntryDecided(p: Entry, q: Entry, indexed: bool)
    requires KindOk(p.key, indexed) && KindOk(q.key, indexed) && Keyed(p.value) && Keyed(q.value)
    ensures (p == q) <==> !EntryLess(p, q) && !EntryLess(q, p)
    decreases Nodes(p.value) + Nodes(q.value), 2
  {
    KeyTrichotomy(p.key, q.key, indexed);
    Decided(p.value, q.value);
  }

  // ---- where asymmetry breaks ----

  /**
    * Following the comparison down through equal counts and equal entries to the first entry that
    * differs, it ends at two containers of one type whose counts differ by 2^31 modulo 2^32.
    */
  predicate Clashes(a: Value, b: Value)
    decreases Nodes(a) + Nodes(b), 1
  {
    && Rank(a) == Rank(b) && IsContainer(a)
    && if Delta(a, b) == 0 then EntriesClash(a.entries, b.entries) else Delta(a, b) == -TWO31
  }

  predicate EntriesClash(x: seq<Entry>, y: seq<Entry>)
    decreases EntryNodes(x) + EntryNodes(y), 0
  {
    && x != [] && y != []
    && if x[0] == y[0] then EntriesClash(x[1..], y[1..])
       else x[0].key == y[0].key && Clashes(x[0].value, y[0].value)
  }

  /** Two values are each less than the other exactly when the comparison ends in such a clash. */
  lemma {:induction false} AsymmetryFailsExactly(a: Value, b: Value)
    requires Keyed(a) && Keyed(b)
    ensures Less(a, b) && Less(b, a) <==> Clashes(a, b)
    decreases Nodes(a) + Nodes(b), 1
  {
    hide ToInt32;
    if Rank(a) == Rank(b) {
      if a.String? {
        BytesTrichotomy(a.s, b.s);
      } else if IsContainer(a) {
        DeltaSwap(a, b);
        EntriesClashExactly(a.entries, b.entries, a.Array?);
      }
    }
  }

  lemma {:induction false} EntriesClashExactly(x: seq<Entry>, y: seq<Entry>, indexed: bool)
    requires KeyedEntries(x, indexed) && KeyedEntries(y, indexed)
    ensures EntriesLess(x, y) && EntriesLess(y, x) <==> EntriesClash(x, y)
    decreases EntryNodes(x) + EntryNodes(y), 0
  {
    if x != [] && y != [] {
      EntryDecided(x[0], y[0], indexed);
      KeyTrichotomy(x[0].key, y[0].key, indexed);
      if x[0] == y[0] {
        EntriesClashExactly(x[1..], y[1..], indexed);
      } else {
        AsymmetryFailsExactly(x[0].value, y[0].value);
      }
    }
  }

  /** `compare` is 0 exactly when `operator==` holds; it changes sign on swapping unless it clashes. */
  lemma CompareDecides(a: Value, b: Value)
    requires Keyed(a) && Keyed(b)
    ensures Compare(a, b) == 0 <==> Equal(a, b)
    ensures Compare(a, b) == -Compare(b, a) <==> !Clashes(a, b)
  {
    hide Less, Clashes, Equal;
    Decided(a, b);
    EqualIsIdentity(a, b);
    AsymmetryFailsExactly(a, b);
  }

  // ---- where transitivity breaks ----

  /**
    * For values with `a < b < c`: going down to the first entry in which the three are not all the
    * same, the two wrapped differences of counts sum to less than -2^31, so that the difference of
    * the outer two wraps to the other side. If it wraps all the way to 0, or the outer two entries
    * are the same, what `a` and `c` hold further on decides.
    */
  predicate Breaks(a: Value, b: Value, c: Value)
    decreases Nodes(a) + Nodes(b) + Nodes(c), 1
  {
    && Rank(a) == Rank(b) == Rank(c) && IsContainer(a)
    && var sum := Delta(a, b) + Delta(b, c);
       if sum == 0 then EntriesBreak(a.entries, b.entries, c.entries)
       else sum < -TWO31 && (sum == -TWO32 ==> !EntriesLess(a.entries, c.entries))
  }

  predicate EntriesBreak(x: seq<Entry>, y: seq<Entry>, z: seq<Entry>)
    decreases EntryNodes(x) + EntryNodes(y) + EntryNodes(z), 0
  {
    && x != [] && y != [] && z != []
    && if x[0] == y[0] == z[0] then EntriesBreak(x[1..], y[1..], z[1..])
       else
         && x[0] != y[0] && y[0] != z[0] && x[0].key == y[0].key == z[0].key
         && Breaks(x[0].value, y[0].value, z[0].value)
         && (x[0] == z[0] ==> !EntriesLess(x[1..], z[1..]))
  }

  lemma DeltaSum(a: Value, b: Value, c: Value)
    requires IsContainer(a) && IsContainer(b) && IsContainer(c)
    ensures Delta(a, c) == ToInt32(Delta(a, b) + Delta(b, c))
  {
    WrappedSum(|a.entries| - |b.entries|, |b.entries| - |c.entries|);
  }

  lemma WrappedSum(d: int, e: int)
    ensures ToInt32(d + e) == ToInt32(ToInt32(d) + ToInt32(e))
  {
    var j, k := (d - ToInt32(d)) / TWO32, (e - ToInt32(e)) / TWO32;
    Unwraps(d);
    Unwraps(e);
    WholeTurns(ToInt32(d) + ToInt32(e), j + k);
  }

  lemma Unwraps(d: int)
    ensures d == ToInt32(d) + TWO32 * ((d - ToInt32(d)) / TWO32)
  {
    assert d == d % TWO32 + TWO32 * (d / TWO32);
  }

  lemma WholeTurns(d: int, k: int)
    ensures ToInt32(d + TWO32 * k) == ToInt32(d)
  {
    assert d + TWO32 * k == d % TWO32 + TWO32 * (d / TWO32 + k);
  }

  /** `operator<` carries from `a < b` and `b < c` to `a < c` exactly when it does not break so. */
  lemma {:induction false} TransitivityFailsExactly(a: Value, b: Value, c: Value)
    requires Keyed(a) && Keyed(b) && Keyed(c) && Less(a, b) && Less(b, c)
    ensures Less(a, c) <==> !Breaks(a, b, c)
    decreases Nodes(a) + Nodes(b) + Nodes(c), 1
  {
    if Rank(a) == Rank(b) == Rank(c) {
      if a.String? {
        BytesTransitive(a.s, b.s, c.s);
      } else if IsContainer(a) {
        DeltaSum(a, b, c);
        if Delta(a, b) == 0 == Delta(b, c) {
          EntriesBreakExactly(a.entries, b.entries, c.entries, a.Array?);
        }
      }
    }
  }

  lemma {:induction false} EntriesBreakExactly(x: seq<Entry>, y: seq<Entry>, z: seq<Entry>, indexed: bool)
    requires KeyedEntries(x, indexed) && KeyedEntries(y, indexed) && KeyedEntries(z, indexed)
    requires EntriesLess(x, y) && EntriesLess(y, z)
    ensures EntriesLess(x, z) <==> !EntriesBreak(x, y, z)
    decreases EntryNodes(x) + EntryNodes(y) + EntryNodes(z), 0
  {
    if x != [] {
      EntryDecided(x[0], y[0], indexed);
      EntryDecided(y[0], z[0], indexed);
      EntryDecided(x[0], z[0], indexed);
      if x[0] == y[0] == z[0] {
        EntriesBreakExactly(x[1..], y[1..], z[1..], indexed);
      } else if x[0] != y[0] && y[0] != z[0] {
        EntryBreaksExactly(x[0], y[0], z[0], indexed);
      }
    }
  }

  lemma {:induction false} EntryBreaksExactly(p: Entry, q: Entry, r: Entry, indexed: bool)
    requires KindOk(p.key, indexed) && KindOk(q.key, indexed) && KindOk(r.key, indexed)
    requires Keyed(p.value) && Keyed(q.value) && Keyed(r.value)
    requires EntryLess(p, q) && EntryLess(q, r)
    ensures EntryLess(p, r) <==> !(p.key == q.key == r.key && Breaks(p.value, q.value, r.value))
    decreases Nodes(p.value) + Nodes(q.value) + Nodes(r.value), 2
  {
    KeyTrichotomy(p.key, q.key, indexed);
    KeyTrichotomy(q.key, r.key, indexed);
    KeyTrichotomy(p.key, r.key, indexed);
    if p.key == q.key == r.key {
      TransitivityFailsExactly(p.value, q.value, r.value);
    } else if p.key != q.key && q.key != r.key {
      KeyTransitive(p.key, q.key, r.key);
    }
  }

  // ---- inputs that show it ----

  function Nulls(n: nat): Value {
    Array(seq(n, i requires 0 <= i => Entry(Index(i), Null)))
  }

  lemma NullsWellFormed(n: nat)
    requires n <= TWO32
    ensures WellFormed(Nulls(n))
  {
  }

  /** 2^31 elements against none, and the same one level down, where the outer counts agree. */
  lemma HugeArraysBreakTheOrder()
    ensures var a, b := Nulls(TWO31), Nulls(0);
            && WellFormed(a) && WellFormed(b) && Less(a, b) && Less(b, a)
            && var p, q := Array([Entry(Index(0), a)]), Array([Entry(Index(0), b)]);
               WellFormed(p) && WellFormed(q) && Less(p, q) && Less(q, p)
  {
    hide Less;
    var a, b := Nulls(TWO31), Nulls(0);
    NullsWellFormed(TWO31);
    NullsWellFormed(0);
    var x, y := [Entry(Index(0), a)], [Entry(Index(0), b)];
    WellFormedIsKeyed(a);
    WellFormedIsKeyed(b);
    assert Delta(a, b) == -TWO31 && Delta(Array(x), Array(y)) == 0;
    assert x[0] != y[0];
    AsymmetryFailsExactly(a, b);
    AsymmetryFailsExactly(Array(x), Array(y));
  }

  /** Three arrays in a ring, each less than the next, no two of them 2^31 apart. */
  lemma ThreeArraysInARing()
    ensures var a, b, c := Nulls(0), Nulls(0x6000_0000), Nulls(0xC000_0000);
            WellFormed(a) && WellFormed(b) && WellFormed(c) && Less(a, b) && Less(b, c) && Less(c, a) && !Less(a, c)
  {
    hide EntriesLess, WellFormed;
    NullsWellFormed(0);
    NullsWellFormed(0x6000_0000);
    NullsWellFormed(0xC000_0000);
    var a, b, c := Nulls(0), Nulls(0x6000_0000), Nulls(0xC000_0000);
    assert Delta(a, b) == Delta(b, c) == -0x6000_0000 && Delta(a, c) == 0x4000_0000 && Delta(c, a) == -0x4000_0000;
  }

  // ---- a strict total order below 2^31 ----

  /**
    * Keys have the right kind and no container holds 2^31 entries or more, so the `int` cast of a
    * size difference is exact.
    */
  ghost predicate Comparable(v: Value) {
    IsContainer(v) ==> CountsFit(v.entries, v.Array?)
  }

  ghost predicate CountsFit(es: seq<Entry>, indexed: bool) {
    && |es| < TWO31
    && forall k | 0 <= k < |es| ::
         assert (es decreases to es[k]);
         KindOk(es[k].key, indexed) && Comparable(es[k].value)
  }

  lemma {:induction false} ComparableIsKeyed(v: Value)
    requires Comparable(v)
    ensures Keyed(v)
  {
    if IsContainer(v) {
      forall k | 0 <= k < |v.entries| ensures KindOk(v.entries[k].key, v.Array?) && Keyed(v.entries[k].value) {
        ComparableIsKeyed(v.entries[k].value);
      }
    }
  }

  lemma {:induction false} NoClash(a: Value, b: Value)
    requires Comparable(a) && Comparable(b)
    ensures !Clashes(a, b)
    decreases Nodes(a) + Nodes(b), 1
  {
    if Rank(a) == Rank(b) && IsContainer(a) {
      EntriesNoClash(a.entries, b.entries, a.Array?);
    }
  }

  lemma {:induction false} EntriesNoClash(x: seq<Entry>, y: seq<Entry>, indexed: bool)
    requires CountsFit(x, indexed) && CountsFit(y, indexed)
    ensures !EntriesClash(x, y)
    decreases EntryNodes(x) + EntryNodes(y), 0
  {
    if x != [] && y != [] {
      NoClash(x[0].value, y[0].value);
      EntriesNoClash(x[1..], y[1..], indexed);
    }
  }

  lemma {:induction false} NoBreak(a: Value, b: Value, c: Value)
    requires Comparable(a) && Comparable(b) && Comparable(c)
    ensures !Breaks(a, b, c)
    decreases Nodes(a) + Nodes(b) + Nodes(c), 1
  {
    if Rank(a) == Rank(b) == Rank(c) && IsContainer(a) {
      EntriesNoBreak(a.entries, b.entries, c.entries, a.Array?);
    }
  }

  lemma {:induction false} EntriesNoBreak(x: seq<Entry>, y: seq<Entry>, z: seq<Entry>, indexed: bool)
    requires CountsFit(x, indexed) && CountsFit(y, indexed) && CountsFit(z, indexed)
    ensures !EntriesBreak(x, y, z)
    decreases EntryNodes(x) + EntryNodes(y) + EntryNodes(z), 0
  {
    if x != [] && y != [] && z != [] {
      NoBreak(x[0].value, y[0].value, z[0].value);
      EntriesNoBreak(x[1..], y[1..], z[1..], indexed);
    }
  }

  lemma Trichotomy(a: Value, b: Value)
    requires Comparable(a) && Comparable(b)
    ensures (a == b) <==> !Less(a, b) && !Less(b, a)
    ensures !(Less(a, b) && Less(b, a))
  {
    hide Less, Clashes, Keyed, Comparable;
    ComparableIsKeyed(a);
    ComparableIsKeyed(b);
    Decided(a, b);
    NoClash(a, b);
    AsymmetryFailsExactly(a, b);
  }

  lemma Transitive(a: Value, b: Value, c: Value)
    requires Comparable(a) && Comparable(b) && Comparable(c)
    requires Less(a, b) && Less(b, c)
    ensures Less(a, c)
  {
    hide Less, Breaks, Keyed, Comparable;
    ComparableIsKeyed(a);
    ComparableIsKeyed(b);
    ComparableIsKeyed(c);
    NoBreak(a, b, c);
    TransitivityFailsExactly(a, b, c);
  }
}
