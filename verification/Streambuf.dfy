/** `asio::basic_streambuf`: one array that shifts and grows, behaving as a byte queue. */
module Streambuf {
  import opened Bytes

  const BUFFER_DELTA: nat := 128

  function Max(m: nat, n: nat): nat {
    if m < n then n else m
  }

  /**
    * Bytes moved to the front by `g` places, pointers not yet updated: the window that held
    * `content` still does exactly when `content` repeats with period `g`.
    */
  ghost predicate Periodic(content: bytes, g: nat) {
    forall i | 0 <= i && i + g < |content| :: content[i] == content[i + g]
  }

  class StreamBuf {
    const maxSize: nat
    var buffer: array<byte>
    // Offsets of the stream pointers; `eback` is always 0.
    var gptr: nat
    var egptr: nat
    var pptr: nat
    var epptr: nat

    ghost predicate Valid()
      reads this
    {
      && gptr <= egptr <= pptr <= epptr <= maxSize && Min(maxSize, BUFFER_DELTA) <= epptr
      && buffer.Length == Max(epptr, 1)
    }

    /** The array as the three stretches that the stream pointers cut it into. */
    ghost function Stretches(): (t: Tape)
      requires Valid()
      reads this, buffer
      ensures |t.spent| == gptr && |t.content| == pptr - gptr && |t.area| == epptr - pptr
    {
      Cut(buffer[..], gptr, pptr, epptr)
    }

    /** The input sequence, which is what `data()` exposes. */
    ghost function Contents(): bytes
      requires Valid()
      reads this, buffer
    {
      Stretches().content
    }

    constructor (maximumSize: nat)
      ensures Valid() && maxSize == maximumSize && Contents() == [] && fresh(buffer)
      ensures gptr == 0 && epptr == Min(maximumSize, BUFFER_DELTA)
      ensures Stretches() == Tape([], [], Zeros(Min(maximumSize, BUFFER_DELTA)))
    {
      maxSize := maximumSize;
      var pend := Min(maximumSize, BUFFER_DELTA);
      buffer := new byte[Max(pend, 1)](_ => 0);
      gptr, egptr, pptr, epptr := 0, 0, 0, pend;
    }

    function Size(): nat
      requires Valid()
      reads this
    {
      pptr - gptr
    }

    /** `memmove` of `count` bytes from `from` to the start of the buffer. */
    method ShiftDown(from: nat, count: nat)
      requires from + count <= buffer.Length
      modifies buffer
      ensures var bs := old(buffer[..]); buffer[..] == bs[from..from + count] + bs[count..]
    {
      for i := 0 to count
        invariant forall j | 0 <= j < i :: buffer[j] == old(buffer[from + j])
        invariant forall j | i <= j < buffer.Length :: buffer[j] == old(buffer[j])
      {
        buffer[i] := buffer[from + i];
      }
    }

    /** `vector::resize` to a larger size: a new array, the old bytes first. */
    method Grow(length: nat)
      requires length >= buffer.Length
      modifies this`buffer
      ensures fresh(buffer) && buffer.Length == length
      ensures buffer[..] == old(buffer[..]) + Zeros(length - old(buffer.Length))
    {
      var source, bigger := buffer, new byte[length](_ => 0);
      for i := 0 to source.Length
        invariant forall j | 0 <= j < i :: bigger[j] == source[j]
        invariant forall j | i <= j < length :: bigger[j] == 0
        modifies bigger
      {
        bigger[i] := source[i];
      }
      buffer := bigger;
    }

    /**
      * `reserve` throws exactly when the input sequence and `n` more would pass `max_size`.
      * Otherwise there is room for `n` and the input sequence is unchanged. When it throws, the
      * bytes have already been moved but not the pointers, so the input sequence survives exactly
      * when it repeats with the period it was moved by (always so when that is 0 or at least its
      * length).
      */
    method Reserve(n: nat) returns (threw: bool)
      requires Valid()
      modifies this, buffer
      ensures Valid() && (buffer == old(buffer) || fresh(buffer))
      ensures threw == (old(Size()) + n > maxSize)
      ensures !threw ==> Contents() == old(Contents()) && n <= epptr - pptr
      ensures threw ==> gptr == old(gptr) && pptr == old(pptr) && epptr == old(epptr) && egptr == old(egptr)
      ensures threw ==> (Contents() == old(Contents()) <==> Periodic(old(Contents()), old(gptr)))
      ensures Outcome(Stretches(), if threw then Threw else Nothing) == Reserved(maxSize, old(Stretches()), n)
    {
      hide Reserved, Cut, Periodic;
      ReservedIs(maxSize, Stretches(), n);
      if n <= epptr - pptr {
        ReservedSame(maxSize, Stretches(), n);
        return false;
      }
      threw := Rearrange(n);
    }

    method MoveToFront() returns (pnext: nat)
      requires Valid()
      modifies buffer
      ensures pnext == pptr - gptr
      ensures var bs := old(buffer[..]); buffer[..] == bs[gptr..pptr] + bs[pptr - gptr..]
    {
      ghost var bs := buffer[..];
      pnext := pptr;
      if gptr > 0 {
        pnext := pnext - gptr;
        ShiftDown(gptr, pnext);
      } else {
        assert bs[..pptr] + bs[pptr..] == bs;
      }
    }

    /** The rest of `reserve`, when the put area is too short. */
    method Rearrange(n: nat) returns (threw: bool)
      requires Valid() && n > epptr - pptr
      modifies this, buffer
      ensures Valid() && (buffer == old(buffer) || fresh(buffer))
      ensures threw ==> gptr == old(gptr) && pptr == old(pptr) && epptr == old(epptr) && egptr == old(egptr)
      ensures threw ==> (Contents() == old(Contents()) <==> Periodic(old(Contents()), old(gptr)))
      ensures Outcome(Stretches(), if threw then Threw else Nothing) == Reserved(maxSize, old(Stretches()), n)
    {
      hide Reserved, Cut, Periodic, Zeros;
      ghost var bs := buffer[..];
      var pend := epptr;
      var pnext := MoveToFront();
      ghost var moved := buffer[..];
      if n > pend - pnext {
        if n <= maxSize && pnext <= maxSize - n {
          pend := pnext + n;
          Grow(Max(pend, 1));
        } else {
          ReservedThrow(maxSize, n, bs, moved, gptr, pptr, epptr);
          return true;
        }
      }
      ghost var after := buffer[..];
      ReservedRoom(maxSize, n, bs, moved, gptr, pptr, epptr, after);
      gptr, egptr := 0, pnext;
      pptr, epptr := pnext, pend;
      return false;
    }

    /** `prepare`: the `n` bytes from `pptr` on are the caller's to fill. */
    method Prepare(n: nat) returns (threw: bool)
      requires Valid()
      modifies this, buffer
      ensures Valid() && (buffer == old(buffer) || fresh(buffer))
      ensures threw == (old(Size()) + n > maxSize)
      ensures !threw ==> Contents() == old(Contents()) && n <= epptr - pptr
      ensures threw ==> (Contents() == old(Contents()) <==> Periodic(old(Contents()), old(gptr)))
      ensures Outcome(Stretches(), if threw then Threw else Nothing) == Reserved(maxSize, old(Stretches()), n)
    {
      threw := Reserve(n);
    }

    /** The caller writes into the prepared bytes. */
    method FillPrepared(data: bytes)
      requires Valid() && |data| <= epptr - pptr
      modifies buffer
      ensures Valid() && Contents() == old(Contents()) && buffer[pptr..pptr + |data|] == data
      ensures var t := old(Stretches()); Stretches() == t.(area := data + t.area[|data|..])
    {
      hide Cut;
      ghost var bs := buffer[..];
      for i := 0 to |data|
        invariant forall j | 0 <= j < pptr :: buffer[j] == old(buffer[j])
        invariant forall j | 0 <= j < i :: buffer[pptr + j] == data[j]
        invariant forall j | pptr + i <= j < buffer.Length :: buffer[j] == old(buffer[j])
      {
        buffer[pptr + i] := data[i];
      }
      assert buffer[..] == bs[..pptr] + data + bs[pptr + |data|..];
      FilledCut(bs, gptr, pptr, epptr, data);
    }

    /** As much of `data` as the put area takes. */
    method Fill(data: bytes)
      requires Valid()
      modifies buffer
      ensures Valid()
      ensures var t := old(Stretches());
              var k := Min(|data|, |t.area|);
              Stretches() == t.(area := data[..k] + t.area[k..])
    {
      hide Cut;
      FillPrepared(data[..Min(|data|, epptr - pptr)]);
    }

    /** `commit`: at most what the put area holds moves to the input sequence. */
    method Commit(n: nat)
      requires Valid()
      modifies this`pptr, this`egptr
      ensures Valid() && Contents() == old(Contents()) + old(buffer[pptr..Min(pptr + n, epptr)])
      ensures Stretches() == Committed(old(Stretches()), n)
    {
      hide Committed, Cut;
      var m := n;
      if pptr + m > epptr {
        m := epptr - pptr;
      }
      CommittedCut(buffer[..], gptr, pptr, epptr, n);
      pptr := pptr + m;
      egptr := pptr;
    }

    /** `consume`: drops from the front, everything if asked for more than there is. */
    method Consume(n: nat)
      requires Valid()
      modifies this`gptr, this`egptr
      ensures Valid() && Contents() == Rest(old(Contents()), n)
      ensures Stretches() == Consumed(old(Stretches()), n)
    {
      hide Consumed, Cut, Rest;
      if egptr < pptr {
        egptr := pptr;
      }
      var m := n;
      if gptr + m > pptr {
        m := pptr - gptr;
      }
      ConsumedCut(buffer[..], gptr, pptr, epptr, n);
      gptr := gptr + m;
      assert buffer[..] == old(buffer[..]);
    }

    /** `underflow`: a look at the first byte, or -1 for `eof`. */
    method Underflow() returns (c: int)
      requires Valid()
      modifies this`egptr
      ensures Valid() && Stretches() == old(Stretches())
      ensures c == if Contents() == [] then -1 else Contents()[0]
    {
      assert Contents() == buffer[gptr..pptr];
      if gptr < pptr {
        egptr := pptr;
        return buffer[gptr];
      }
      return -1;
    }

    /**
      * `overflow` of a character appends it and throws exactly when the input sequence is full,
      * which leaves it alone, since a full one starts at the front; `eof` (-1) does nothing.
      */
    method Overflow(c: int) returns (threw: bool)
      requires Valid() && -1 <= c < 256
      modifies this, buffer
      ensures Valid() && (buffer == old(buffer) || fresh(buffer))
      ensures threw == (c != -1 && old(Size()) == maxSize)
      ensures Contents() == old(Contents()) + if c == -1 || threw then [] else [c]
      ensures Outcome(Stretches(), if threw then Threw else Nothing) ==
              if c == -1 then Outcome(old(Stretches()), Nothing) else Put(maxSize, old(Stretches()), c)
    {
      hide Room, Cut;
      if c == -1 {
        return false;
      }
      threw := MakeRoom();
      if !threw {
        ghost var bs := buffer[..];
        var octet: byte := c;
        buffer[pptr] := octet;
        assert buffer[..] == bs[pptr := octet];
        PutCut(bs, gptr, pptr, epptr, octet);
        pptr := pptr + 1;
      }
    }

    method MakeRoom() returns (threw: bool)
      requires Valid()
      modifies this, buffer
      ensures Valid() && (buffer == old(buffer) || fresh(buffer))
      ensures threw == (old(Size()) == maxSize)
      ensures Contents() == old(Contents()) && (!threw ==> pptr < epptr)
      ensures Outcome(Stretches(), if threw then Threw else Nothing) == Room(maxSize, old(Stretches()))
    {
      hide Reserved;
      threw := false;
      if pptr == epptr {
        var bufferSize := pptr - gptr;
        if bufferSize < maxSize && maxSize - bufferSize < BUFFER_DELTA {
          threw := Reserve(maxSize - bufferSize);
        } else {
          threw := Reserve(BUFFER_DELTA);
        }
      }
    }

    /** `read_size_helper` (the friend): what `prepare` is asked for next, given the vector's capacity. */
    function ReadSizeHelper(capacity: nat, most: nat): (n: nat)
      requires Valid() && capacity >= buffer.Length
      reads this
      ensures Size() + n <= maxSize
      ensures n <= most && n <= Max(512, capacity - Size())
      ensures n == Min(most, maxSize - Size()) || (n >= 512 && n >= capacity - Size())
    {
      var wanted := Max(512, capacity - Size());
      Min(wanted, Min(most, maxSize - Size()))
    }

    /** So preparing that much never throws. */
    method PrepareForRead(capacity: nat, most: nat) returns (threw: bool, n: nat)
      requires Valid() && capacity >= buffer.Length
      modifies this, buffer
      ensures Valid() && !threw && Contents() == old(Contents()) && n <= epptr - pptr
    {
      n := ReadSizeHelper(capacity, most);
      threw := Prepare(n);
    }

    /**
      * Any run of operations, past throws too: the array and all that callers see are the tape's.
      * If the run keeps to the documentation they are also the queue's.
      */
    method Replay(ops: seq<Op>) returns (seen: seq<Seen>)
      requires Valid()
      modifies this, buffer
      ensures Valid() && Ran(Stretches(), seen) == TapeRun(maxSize, old(Stretches()), ops)
      ensures var q := Queue(old(Contents()), [], 0);
              Proper(maxSize, q, ops) ==>
                && seen == QueueRun(maxSize, q, ops).seen
                && (!EndsInThrow(ops, seen) ==> Contents() == QueueRun(maxSize, q, ops).queue.content)
    {
      hide Apply, Proper, QueueRun, EndsInThrow, Cut;
      seen := [];
      ghost var t0, q := Stretches(), Queue(Contents(), [], 0);
      assert t0.area[..0] == [];
      if Proper(maxSize, q, ops) {
        ActsAsQueue(maxSize, t0, q, ops);
      }
      var i := 0;
      while i < |ops|
        invariant 0 <= i <= |ops| && Valid() && (buffer == old(buffer) || fresh(buffer))
        invariant TapeRun(maxSize, t0, ops) == Prepended(seen, TapeRun(maxSize, Stretches(), ops[i..]))
      {
        assert ops[i..][1..] == ops[i + 1..];
        ghost var before, t := seen, Stretches();
        var s := Perform(ops[i]);
        seen := seen + [s];
        PrependedTwice(before, s, TapeRun(maxSize, Stretches(), ops[i + 1..]));
        i := i + 1;
      }
      assert seen + [] == seen;
    }

    method Perform(op: Op) returns (s: Seen)
      requires Valid()
      modifies this, buffer
      ensures Valid() && (buffer == old(buffer) || fresh(buffer))
      ensures Outcome(Stretches(), s) == Apply(maxSize, old(Stretches()), op)
    {
      hide Reserved, Put, Committed, Consumed, Cut, Periodic, Rest;
      s := Nothing;
      var threw;
      match op {
        case Prepare(n) =>
          threw := this.Prepare(n);
          s := if threw then Threw else Ready(n);
        case Fill(data) => this.Fill(data);
        case Commit(n) => this.Commit(n);
        case Consume(n) => this.Consume(n);
        case Overflow(c) =>
          threw := this.Overflow(c);
          s := if threw then Threw else Nothing;
        case OverflowEof => threw := this.Overflow(-1);
        case Underflow =>
          var c := this.Underflow();
          s := Byte(c);
      }
    }
  }

  // ---- the array as a value ----

  /** Bytes before the get pointer, the input sequence, the put area. */
  datatype Tape = Tape(spent: bytes, content: bytes, area: bytes)

  /** The calls a user can make; `Fill` writes into the put area, as far as it reaches. */
  datatype Op =
    | Prepare(n: nat)
    | Fill(data: bytes)
    | Commit(n: nat)
    | Consume(n: nat)
    | Overflow(c: byte)
    | OverflowEof
    | Underflow

  /** What the caller gets: an exception, so many writable bytes, a byte or -1, nothing. */
  datatype Seen = Threw | Ready(n: nat) | Byte(c: int) | Nothing

  datatype Outcome = Outcome(tape: Tape, seen: Seen)

  datatype Ran = Ran(tape: Tape, seen: seq<Seen>)

  function Zeros(n: nat): bytes {
    seq(n, _ => 0)
  }

  function Rest(q: bytes, n: nat): bytes {
    q[Min(n, |q|)..]
  }

  /** `reserve`: moves the input sequence to the front and extends the array with zeros, as needed. */
  function Reserved(maxSize: nat, t: Tape, n: nat): Outcome {
    var whole, size, free := t.spent + t.content + t.area, |t.content|, |t.spent| + |t.area|;
    if n <= |t.area| then Outcome(t, Nothing)
    else if n <= free then Outcome(Tape([], t.content, whole[size..]), Nothing)
    else if size + n <= maxSize then Outcome(Tape([], t.content, whole[size..] + Zeros(n - free)), Nothing)
    else
      var moved := t.content + whole[size..];
      Outcome(Tape(moved[..|t.spent|], moved[|t.spent|..|t.spent| + size], t.area), Threw)
  }

  /** What `overflow` reserves when the put area is used up. */
  function Room(maxSize: nat, t: Tape): Outcome {
    var size := |t.content|;
    if t.area != [] then Outcome(t, Nothing)
    else Reserved(maxSize, t, if size < maxSize && maxSize - size < BUFFER_DELTA then maxSize - size else BUFFER_DELTA)
  }

  function Put(maxSize: nat, t: Tape, c: byte): Outcome {
    var r := Room(maxSize, t);
    if r.seen.Threw? || r.tape.area == [] then r
    else Outcome(Tape(r.tape.spent, r.tape.content + [c], r.tape.area[1..]), Nothing)
  }

  function Committed(t: Tape, n: nat): Tape {
    var k := Min(n, |t.area|);
    Tape(t.spent, t.content + t.area[..k], t.area[k..])
  }

  function Consumed(t: Tape, n: nat): Tape {
    var k := Min(n, |t.content|);
    Tape(t.spent + t.content[..k], t.content[k..], t.area)
  }

  function Apply(maxSize: nat, t: Tape, op: Op): Outcome {
    match op
    case Prepare(n) =>
      var r := Reserved(maxSize, t, n);
      if r.seen.Threw? then r else Outcome(r.tape, Ready(n))
    case Fill(data) =>
      var k := Min(|data|, |t.area|);
      Outcome(t.(area := data[..k] + t.area[k..]), Nothing)
    case Commit(n) => Outcome(Committed(t, n), Nothing)
    case Consume(n) => Outcome(Consumed(t, n), Nothing)
    case Overflow(c) => Put(maxSize, t, c)
    case OverflowEof => Outcome(t, Nothing)
    case Underflow => Outcome(t, Byte(if t.content == [] then -1 else t.content[0]))
  }

  function TapeRun(maxSize: nat, t: Tape, ops: seq<Op>): Ran
    decreases ops
  {
    if ops == [] then Ran(t, [])
    else
      var o := Apply(maxSize, t, ops[0]);
      Prepended([o.seen], TapeRun(maxSize, o.tape, ops[1..]))
  }

  function Prepended(seen: seq<Seen>, r: Ran): Ran {
    Ran(r.tape, seen + r.seen)
  }

  lemma PrependedTwice(seen: seq<Seen>, s: Seen, r: Ran)
    ensures Prepended(seen, Prepended([s], r)) == Prepended(seen + [s], r)
  {
    assert seen + ([s] + r.seen) == seen + [s] + r.seen;
  }

  // ---- the array cut at its pointers ----

  function Cut(bs: bytes, g: nat, p: nat, e: nat): (t: Tape)
    requires g <= p <= e <= |bs|
    ensures |t.spent| == g && |t.content| == p - g && |t.area| == e - p
  {
    Tape(bs[..g], bs[g..p], bs[p..e])
  }

  lemma CommittedCut(bs: bytes, g: nat, p: nat, e: nat, n: nat)
    requires g <= p <= e <= |bs|
    ensures var k := if p + n > e then e - p else n;
            && Cut(bs, g, p + k, e) == Committed(Cut(bs, g, p, e), n)
            && Cut(bs, g, p + k, e).content == Cut(bs, g, p, e).content + bs[p..Min(p + n, e)]
  {
    var k := if p + n > e then e - p else n;
    assert bs[g..p + k] == bs[g..p] + bs[p..p + k];
    assert bs[p..e][..k] == bs[p..p + k] && bs[p..e][k..] == bs[p + k..e];
  }

  lemma ConsumedCut(bs: bytes, g: nat, p: nat, e: nat, n: nat)
    requires g <= p <= e <= |bs|
    ensures var k := if g + n > p then p - g else n;
            && Cut(bs, g + k, p, e) == Consumed(Cut(bs, g, p, e), n)
            && Cut(bs, g + k, p, e).content == Rest(Cut(bs, g, p, e).content, n)
  {
    var k := if g + n > p then p - g else n;
    assert bs[..g + k] == bs[..g] + bs[g..g + k];
    assert bs[g..p][..k] == bs[g..g + k] && bs[g..p][k..] == bs[g + k..p];
  }

  lemma PutCut(bs: bytes, g: nat, p: nat, e: nat, c: byte)
    requires g <= p < e <= |bs|
    ensures var t := Cut(bs, g, p, e); Cut(bs[p := c], g, p + 1, e) == Tape(t.spent, t.content + [c], t.area[1..])
  {
    assert bs[p := c][g..p + 1] == bs[g..p] + [c];
    assert bs[p := c][p + 1..e] == bs[p..e][1..];
  }

  lemma FilledCut(bs: bytes, g: nat, p: nat, e: nat, data: bytes)
    requires g <= p <= p + |data| <= e <= |bs|
    ensures var t, after := Cut(bs, g, p, e), bs[..p] + data + bs[p + |data|..];
            Cut(after, g, p, e) == t.(area := data + t.area[|data|..])
  {
    var after := bs[..p] + data + bs[p + |data|..];
    assert after[..g] == bs[..g] && after[g..p] == bs[g..p];
    assert after[p..e] == data + bs[p + |data|..e];
    assert bs[p..e][|data|..] == bs[p + |data|..e];
  }

  lemma ReservedSame(maxSize: nat, t: Tape, n: nat)
    requires n <= |t.area|
    ensures Reserved(maxSize, t, n) == Outcome(t, Nothing)
  {
  }

  /** After a throw: `moved` is the array once its bytes were copied down, the pointers as before. */
  lemma ReservedThrow(maxSize: nat, n: nat, bs: bytes, moved: bytes, g: nat, p: nat, e: nat)
    requires g <= p <= e <= |bs| && e <= maxSize
    requires moved == bs[g..p] + bs[p - g..] && n > e - (p - g) && p - g + n > maxSize
    ensures Reserved(maxSize, Cut(bs, g, p, e), n) == Outcome(Cut(moved, g, p, e), Threw)
    ensures Cut(moved, g, p, e).content == Cut(bs, g, p, e).content <==> Periodic(Cut(bs, g, p, e).content, g)
  {
    hide Periodic;
    ShiftedWindow(bs, moved, g, p);
    var t := Cut(bs, g, p, e);
    var whole := t.spent + t.content + t.area;
    assert whole == bs[..e];
    var tm := t.content + whole[p - g..];
    assert tm == moved[..e];
    assert tm[..g] == moved[..g] && tm[g..p] == moved[g..p];
    assert moved[p..e] == bs[p..e];
  }

  /** With room: the array `after` is `moved`, or `moved` and zeros. */
  lemma ReservedRoom(maxSize: nat, n: nat, bs: bytes, moved: bytes, g: nat, p: nat, e: nat, after: bytes)
    requires g <= p <= e <= |bs| && n > e - p && moved == bs[g..p] + bs[p - g..]
    requires if n <= e - (p - g) then after == moved
             else p - g + n <= maxSize && |bs| == e && after == moved + Zeros(p - g + n - e)
    ensures var size := p - g;
            var e' := if n <= e - size then e else size + n;
            && e' <= |after|
            && Reserved(maxSize, Cut(bs, g, p, e), n) == Outcome(Cut(after, 0, size, e'), Nothing)
  {
    var size, t := p - g, Cut(bs, g, p, e);
    var whole := t.spent + t.content + t.area;
    assert |moved| == |bs| && moved[size..] == bs[size..];
    assert whole == bs[..e] && bs[..e][size..] == bs[size..e] == moved[size..e];
    assert after[..0] == [] && after[0..size] == t.content;
    if n > e - size {
      assert after[size..size + n] == moved[size..e] + Zeros(size + n - e);
    }
  }

  // ---- the queue ----

  /** A byte queue, the bytes known to stand at the head of the put area, and how long that is at least. */
  datatype Queue = Queue(content: bytes, filled: bytes, room: nat)

  datatype Reply = Reply(queue: Queue, seen: Seen)

  datatype QueueRan = QueueRan(queue: Queue, seen: seq<Seen>)

  function Tail(s: bytes): bytes {
    if s == [] then [] else s[1..]
  }

  /** Append, drop-front and peek. What was filled in before a larger `prepare` is not kept. */
  function Act(maxSize: nat, q: Queue, op: Op): Reply {
    match op
    case Prepare(n) =>
      if |q.content| + n > maxSize then Reply(q, Threw)
      else Reply(if n <= q.room then q else Queue(q.content, [], n), Ready(n))
    case Fill(data) => Reply(q.(filled := data + Rest(q.filled, |data|)), Nothing)
    case Commit(n) =>
      var k := Min(n, |q.filled|);
      Reply(Queue(q.content + q.filled[..k], q.filled[k..], if k <= q.room then q.room - k else 0), Nothing)
    case Consume(n) => Reply(q.(content := Rest(q.content, n)), Nothing)
    case Overflow(c) =>
      if |q.content| >= maxSize then Reply(q, Threw)
      else Reply(Queue(q.content + [c], Tail(q.filled), if q.room == 0 then 0 else q.room - 1), Nothing)
    case OverflowEof => Reply(q, Nothing)
    case Underflow => Reply(q, Byte(if q.content == [] then -1 else q.content[0]))
  }

  function QueueRun(maxSize: nat, q: Queue, ops: seq<Op>): QueueRan
    decreases ops
  {
    if ops == [] then QueueRan(q, [])
    else
      var a := Act(maxSize, q, ops[0]);
      var r := QueueRun(maxSize, a.queue, ops[1..]);
      QueueRan(r.queue, [a.seen] + r.seen)
  }

  /**
    * What the documentation asks of callers: fill no more than was prepared, commit no more than
    * was filled, and use the buffer no more once `prepare` has thrown.
    */
  predicate Proper(maxSize: nat, q: Queue, ops: seq<Op>)
    decreases ops
  {
    ops == [] ||
    (&& (ops[0].Fill? ==> |ops[0].data| <= q.room)
     && (ops[0].Commit? ==> ops[0].n <= |q.filled|)
     && (ops[0].Prepare? && |q.content| + ops[0].n > maxSize ==> |ops| == 1)
     && Proper(maxSize, Act(maxSize, q, ops[0]).queue, ops[1..]))
  }

  /** The last call was a `prepare`, and it threw. */
  predicate EndsInThrow(ops: seq<Op>, seen: seq<Seen>) {
    ops != [] && seen != [] && ops[|ops| - 1].Prepare? && seen[|seen| - 1] == Threw
  }

  /** The queue knows what is on the tape. */
  ghost predicate Knows(maxSize: nat, t: Tape, q: Queue) {
    && |t.spent| + |t.content| + |t.area| <= maxSize && t.content == q.content
    && |q.filled| <= q.room <= |t.area| && t.area[..|q.filled|] == q.filled
  }

  lemma ReservedIs(maxSize: nat, t: Tape, n: nat)
    requires |t.spent| + |t.content| + |t.area| <= maxSize
    ensures var r := Reserved(maxSize, t, n);
            && (r.seen == if |t.content| + n > maxSize then Threw else Nothing)
            && (r.seen == Nothing ==>
                  && r.tape.content == t.content && n <= |r.tape.area| && (n <= |t.area| ==> r.tape == t)
                  && |r.tape.spent| + |r.tape.content| + |r.tape.area| <= maxSize)
            && (t.spent == [] && t.area == [] && r.seen == Threw ==> r.tape == t)
  {
    var whole := t.spent + t.content + t.area;
    if t.spent == [] && t.area == [] {
      assert whole == t.content && t.content + whole[|t.content|..] == t.content;
    }
  }

  lemma PutLaw(maxSize: nat, t: Tape, q: Queue, c: byte)
    requires Knows(maxSize, t, q)
    ensures var o, a := Put(maxSize, t, c), Act(maxSize, q, Overflow(c)); o.seen == a.seen && Knows(maxSize, o.tape, a.queue)
  {
    hide Reserved;
    var size := |t.content|;
    var n := if size < maxSize && maxSize - size < BUFFER_DELTA then maxSize - size else BUFFER_DELTA;
    ReservedIs(maxSize, t, n);
    if t.area != [] && q.filled != [] {
      assert t.area[1..][..|q.filled| - 1] == t.area[..|q.filled|][1..];
    }
  }

  lemma StepLaw(maxSize: nat, t: Tape, q: Queue, op: Op)
    requires Knows(maxSize, t, q)
    requires (op.Fill? ==> |op.data| <= q.room) && (op.Commit? ==> op.n <= |q.filled|)
    ensures var o, a := Apply(maxSize, t, op), Act(maxSize, q, op);
            o.seen == a.seen && (!(op.Prepare? && a.seen == Threw) ==> Knows(maxSize, o.tape, a.queue))
  {
    hide Reserved, Put;
    match op
    case Prepare(n) => ReservedIs(maxSize, t, n);
    case Fill(data) =>
      var area := data + t.area[|data|..];
      assert data[..|data|] == data;
      if |data| < |q.filled| {
        assert area[..|q.filled|] == data + t.area[..|q.filled|][|data|..];
      } else {
        assert Rest(q.filled, |data|) == [] && area[..|data|] == data;
      }
    case Commit(n) =>
      assert t.area[..n] == t.area[..|q.filled|][..n];
      assert t.area[n..][..|q.filled| - n] == t.area[..|q.filled|][n..];
    case Consume(n) =>
    case Overflow(c) => PutLaw(maxSize, t, q, c);
    case OverflowEof =>
    case Underflow =>
  }

  /**
    * In every run that keeps to the documentation, whatever the array does underneath, callers see
    * what a byte queue would show them, exceptions included, and the input sequence is the queue's.
    */
  lemma {:induction false} ActsAsQueue(maxSize: nat, t: Tape, q: Queue, ops: seq<Op>)
    requires Knows(maxSize, t, q) && Proper(maxSize, q, ops)
    ensures var r, a := TapeRun(maxSize, t, ops), QueueRun(maxSize, q, ops);
            && r.seen == a.seen
            && (!EndsInThrow(ops, a.seen) ==> r.tape.content == a.queue.content)
    decreases ops
  {
    hide Apply, Act, Knows;
    KnowsContent(maxSize, t, q);
    if ops != [] {
      StepLaw(maxSize, t, q, ops[0]);
      var o, a := Apply(maxSize, t, ops[0]), Act(maxSize, q, ops[0]);
      PrepareThrows(maxSize, q, ops[0]);
      if ops[0].Prepare? && a.seen == Threw {
        assert ops[1..] == [];
      } else {
        ActsAsQueue(maxSize, o.tape, a.queue, ops[1..]);
        SeenLength(maxSize, a.queue, ops[1..]);
        assert |ops| > 1 ==> ops[1..][|ops| - 2] == ops[|ops| - 1];
      }
    }
  }

  lemma KnowsContent(maxSize: nat, t: Tape, q: Queue)
    requires Knows(maxSize, t, q)
    ensures t.content == q.content
  {
  }

  lemma PrepareThrows(maxSize: nat, q: Queue, op: Op)
    ensures op.Prepare? ==> (Act(maxSize, q, op).seen == Threw <==> |q.content| + op.n > maxSize)
  {
  }

  lemma {:induction false} SeenLength(maxSize: nat, q: Queue, ops: seq<Op>)
    ensures |QueueRun(maxSize, q, ops).seen| == |ops|
    decreases ops
  {
    if ops != [] {
      SeenLength(maxSize, Act(maxSize, q, ops[0]).queue, ops[1..]);
    }
  }

  /** What the window `g..p` reads after its bytes were copied to the front of the array. */
  lemma ShiftedWindow(before: bytes, after: bytes, g: nat, p: nat)
    requires g <= p <= |before| == |after|
    requires after == before[g..p] + before[p - g..]
    ensures after[g..p] == before[g..p] <==> Periodic(before[g..p], g)
  {
    var content := before[g..p];
    forall i | 0 <= i < |content| ensures after[g..p][i] == if i + g < |content| then content[i + g] else content[i] {
      assert after[g + i] == if g + i < |content| then content[g + i] else before[g + i];
    }
    if Periodic(content, g) {
      assert after[g..p] == content;
    }
    if after[g..p] == content {
      forall i | 0 <= i && i + g < |content| ensures content[i] == content[i + g] {
        assert after[g..p][i] == content[i + g];
      }
    }
  }

  /** Three bytes written, one consumed, then a `prepare` that throws: the two bytes left are not the same. */
  method ThrowScrambles(a: byte, b: byte, c: byte) returns (before: bytes, after: bytes)
    requires b != c
    ensures before == [b, c] && after != before
  {
    var s := new StreamBuf(3);
    s.FillPrepared([a, b, c]);
    s.Commit(3);
    s.Consume(1);
    assert s.Contents() == [b, c];
    before := s.buffer[s.gptr..s.pptr];
    var threw := s.Prepare(2);
    assert !Periodic(before, 1) by {
      assert before[0] != before[0 + 1];
    }
    after := s.buffer[s.gptr..s.pptr];
  }
}
