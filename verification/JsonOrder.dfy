/** Which order `Value::operator<` is, in terms of numbers, octets, positions and counts. */
module JsonOrder {
  import opened Bytes
  import opened JsonValue

  /** null, int, uint, real, string, bool, array, object. */
  predicate TypeBefore(a: Value, b: Value) {
    || (a.Null? && !b.Null?)
    || (a.Int? && (b.UInt? || b.Real? || b.String? || b.Bool? || b.Array? || b.Object?))
    || (a.UInt? && (b.Real? || b.String? || b.Bool? || b.Array? || b.Object?))
    || (a.Real? && (b.String? || b.Bool? || b.Array? || b.Object?))
    || (a.String? && (b.Bool? || b.Array? || b.Object?))
    || (a.Bool? && (b.Array? || b.Object?))
    || (a.Array? && b.Object?)
  }

  /** A proper prefix, or smaller at the first octet that differs. */
  ghost predicate TextBefore(x: bytes, y: bytes) {
    || (|x| < |y| && y[..|x|] == x)
    || exists k | 0 <= k < |x| && k < |y| :: x[..k] == y[..k] && x[k] < y[k]
  }

  ghost predicate KeyBefore(k: Key, l: Key) {
    (k.Index? && l.Index? && k.index < l.index) || (k.Name? && l.Name? && TextBefore(k.name, l.name))
  }

  /**
    * The order. Of two containers the one with fewer entries comes first, as far as the difference
    * of the counts can be told modulo 2^32; at the same count the first entry that differs decides,
    * by its key and then by its value.
    */
  ghost predicate Before(a: Value, b: Value)
    decreases a, 1
  {
    || TypeBefore(a, b)
    || (a.Int? && b.Int? && a.i < b.i)
    || (a.UInt? && b.UInt? && a.u < b.u)
    || (a.Real? && b.Real? && a.r < b.r)
    || (a.Bool? && b.Bool? && !a.b && b.b)
    || (a.String? && b.String? && TextBefore(a.s, b.s))
    || (((a.Array? && b.Array?) || (a.Object? && b.Object?)) &&
        var d := (|a.entries| - |b.entries|) % 0x1_0000_0000;
        d >= 0x8000_0000 || (d == 0 && EntriesBefore(a.entries, b.entries)))
  }

  ghost predicate EntriesBefore(x: seq<Entry>, y: seq<Entry>)
    decreases x, 0
  {
    || (|x| < |y| && y[..|x|] == x)
    || exists k | 0 <= k < |x| && k < |y| ::
         assert (x decreases to x[k]);
         x[..k] == y[..k] && EntryBefore(x[k], y[k])
  }

  ghost predicate EntryBefore(p: Entry, q: Entry)
    decreases p, 0
  {
    KeyBefore(p.key, q.key) || (p.key == q.key && Before(p.value, q.value))
  }

  // ---- it is the order ----

  lemma {:induction false} TextBeforeTail(x: bytes, y: bytes)
    requires x != [] && y != []
    ensures TextBefore(x, y) <==> x[0] < y[0] || (x[0] == y[0] && TextBefore(x[1..], y[1..]))
  {
    var s, t := x[1..], y[1..];
    assert x == [x[0]] + s && y == [y[0]] + t;
    if x[0] < y[0] {
      assert x[..0] == y[..0];
    }
    if x[0] == y[0] && TextBefore(s, t) {
      if |s| < |t| && t[..|s|] == s {
        assert y[..|x|] == [y[0]] + t[..|s|];
      } else {
        var k :| 0 <= k < |s| && k < |t| && s[..k] == t[..k] && s[k] < t[k];
        assert x[..k + 1] == [x[0]] + s[..k] && y[..k + 1] == [y[0]] + t[..k];
        assert x[k + 1] < y[k + 1];
      }
    }
    if TextBefore(x, y) {
      if |x| < |y| && y[..|x|] == x {
        assert y[0] == y[..|x|][0];
        assert t[..|s|] == y[..|x|][1..];
      } else {
        var k :| 0 <= k < |x| && k < |y| && x[..k] == y[..k] && x[k] < y[k];
        if k > 0 {
          assert x[0] == x[..k][0] == y[..k][0];
          assert s[..k - 1] == x[..k][1..] && t[..k - 1] == y[..k][1..];
          assert s[k - 1] < t[k - 1];
        }
      }
    }
  }

  lemma {:induction false} BytesLessIs(x: bytes, y: bytes)
    ensures BytesLess(x, y) <==> TextBefore(x, y)
  {
    if x != [] && y != [] {
      BytesLessUnfold(x, y);
      TextBeforeTail(x, y);
      BytesLessIs(x[1..], y[1..]);
    }
  }

  lemma KeyLessIs(k: Key, l: Key)
    ensures KeyLess(k, l) <==> KeyBefore(k, l)
  {
    if k.Name? && l.Name? {
      BytesLessIs(k.name, l.name);
    }
  }

  /** `operator<` is that order, on values of every size. */
  lemma {:induction false} LessIsBefore(a: Value, b: Value)
    requires Keyed(a) && Keyed(b)
    ensures Less(a, b) <==> Before(a, b)
    decreases Nodes(a) + Nodes(b), 1
  {
    hide TextBefore, EntriesBefore, EntriesLess, BytesLess;
    if a.String? && b.String? {
      BytesLessIs(a.s, b.s);
    } else if Rank(a) == Rank(b) && IsContainer(a) {
      EntriesLessIs(a.entries, b.entries, a.Array?);
    }
  }

  lemma {:induction false} EntriesLessIs(x: seq<Entry>, y: seq<Entry>, indexed: bool)
    requires KeyedEntries(x, indexed) && KeyedEntries(y, indexed)
    ensures EntriesLess(x, y) <==> EntriesBefore(x, y)
    decreases EntryNodes(x) + EntryNodes(y), 0
  {
    if x != [] && y != [] {
      EntryLessIs(x[0], y[0], indexed);
      EntryDecided(x[0], y[0], indexed);
      EntriesBeforeTail(x, y);
      EntriesLessIs(x[1..], y[1..], indexed);
    }
  }

  lemma {:induction false} EntryLessIs(p: Entry, q: Entry, indexed: bool)
    requires KindOk(p.key, indexed) && KindOk(q.key, indexed) && Keyed(p.value) && Keyed(q.value)
    ensures EntryLess(p, q) <==> EntryBefore(p, q)
    decreases Nodes(p.value) + Nodes(q.value), 2
  {
    hide KeyBefore, Before;
    KeyLessIs(p.key, q.key);
    KeyTrichotomy(p.key, q.key, indexed);
    LessIsBefore(p.value, q.value);
  }

  lemma EntriesBeforeTail(x: seq<Entry>, y: seq<Entry>)
    requires x != [] && y != []
    ensures EntryBefore(x[0], y[0]) ==> EntriesBefore(x, y)
    ensures x[0] == y[0] && EntriesBefore(x[1..], y[1..]) ==> EntriesBefore(x, y)
    ensures EntriesBefore(x, y) ==> EntryBefore(x[0], y[0]) || (x[0] == y[0] && EntriesBefore(x[1..], y[1..]))
  {
    hide EntryBefore, EntriesBefore;
    if EntryBefore(x[0], y[0]) {
      DecidedFirst(x, y);
    } else if x[0] == y[0] && EntriesBefore(x[1..], y[1..]) {
      DecidedLater(x, y);
    } else if EntriesBefore(x, y) {
      DecidedInTail(x, y);
    }
  }

  lemma DecidedFirst(x: seq<Entry>, y: seq<Entry>)
    requires x != [] && y != [] && EntryBefore(x[0], y[0])
    ensures EntriesBefore(x, y)
  {
    hide EntryBefore;
    assert x[..0] == y[..0];
  }

  lemma DecidedLater(x: seq<Entry>, y: seq<Entry>)
    requires x != [] && y != [] && x[0] == y[0] && EntriesBefore(x[1..], y[1..])
    ensures EntriesBefore(x, y)
  {
    hide EntryBefore;
    var s, t := x[1..], y[1..];
    if |s| < |t| && t[..|s|] == s {
      assert y[..|x|] == [y[0]] + t[..|s|] == x;
    } else {
      var k :| 0 <= k < |s| && k < |t| && s[..k] == t[..k] && EntryBefore(s[k], t[k]);
      assert x[..k + 1] == [x[0]] + s[..k] && y[..k + 1] == [y[0]] + t[..k];
      assert x[k + 1] == s[k] && y[k + 1] == t[k];
    }
  }

  lemma DecidedInTail(x: seq<Entry>, y: seq<Entry>)
    requires x != [] && y != [] && EntriesBefore(x, y) && !EntryBefore(x[0], y[0])
    ensures x[0] == y[0] && EntriesBefore(x[1..], y[1..])
  {
    hide EntryBefore;
    var s, t := x[1..], y[1..];
    if |x| < |y| && y[..|x|] == x {
      assert y[0] == y[..|x|][0];
      assert t[..|s|] == y[..|x|][1..];
    } else {
      var k :| 0 <= k < |x| && k < |y| && x[..k] == y[..k] && EntryBefore(x[k], y[k]);
      assert x[0] == x[..k][0] == y[..k][0];
      assert s[..k - 1] == x[..k][1..] && t[..k - 1] == y[..k][1..];
      assert s[k - 1] == x[k] && t[k - 1] == y[k];
    }
  }

  /** Below 2^31 entries: fewer entries first, then the first entry that differs. */
  lemma SmallContainers(a: Value, b: Value)
    requires Keyed(a) && Keyed(b) && ((a.Array? && b.Array?) || (a.Object? && b.Object?))
    requires |a.entries| < 0x8000_0000 && |b.entries| < 0x8000_0000
    ensures Less(a, b) <==>
            || |a.entries| < |b.entries|
            || (|a.entries| == |b.entries| &&
                exists k | 0 <= k < |a.entries| ::
                  a.entries[..k] == b.entries[..k] && EntryBefore(a.entries[k], b.entries[k]))
  {
    hide Less, EntryBefore;
    LessIsBefore(a, b);
  }

  /** `compare` is -1 for the earlier value first, 1 for the later one, 0 for equal ones. */
  lemma CompareMeans(a: Value, b: Value)
    requires Keyed(a) && Keyed(b)
    ensures Compare(a, b) == if Before(a, b) then -1 else if Before(b, a) then 1 else 0
  {
    hide Less, Before;
    LessIsBefore(a, b);
    LessIsBefore(b, a);
  }
}
