/**
  * The same client with its lock boundaries: a registration decides under the lock and sends after
  * releasing it (VertxBus.cpp:198-221, 234-281), and `Close` calls the endpoint before it changes
  * the state (VertxBus.cpp:295-302), so other calls can come in between.
  */
module BusRaces {
  import opened Bytes
  import opened BusModel
  import opened BusRuns

  // ---- registering: decide, then send ----

  /** A frame decided on, and how many decisions for its address came before it. */
  datatype Ranked = Ranked(sent: Sent, rank: nat)

  /** Local lists, what was decided under the lock, what is still to be sent, what went out. */
  datatype Wire = Wire(
    handlers: map<bytes, seq<Pair>>,
    decided: seq<Ranked>,
    pending: seq<Ranked>,
    wire: seq<Ranked>)

  datatype Move =
    | DecideRegister(address: bytes, p: Pair)
    | DecideUnregister(address: bytes, h: Handler)
    | Emit(k: nat)  // the thread holding the k-th pending frame gets to run

  function Sents(x: seq<Ranked>): (r: seq<Sent>)
    ensures |r| == |x|
  {
    seq(|x|, i requires 0 <= i < |x| => x[i].sent)
  }

  function AsBus(w: Wire): Bus {
    Bus(Open, Up, w.handlers, map[], true, 1, Sents(w.decided), [], {}, [])
  }

  function AddressOf(f: Frame): bytes {
    if f.Ping? then [] else f.address
  }

  /** The critical section is the atomic step, its frame (at most one) queued instead of sent. */
  function Decide(w: Wire, b: Bus): Wire {
    if |b.frames| <= |w.decided| then w.(handlers := b.handlers)
    else
      var s := b.frames[|w.decided|];
      var r := Ranked(s, |Toggles(Sents(w.decided), AddressOf(s.frame))|);
      w.(handlers := b.handlers, decided := w.decided + [r], pending := w.pending + [r])
  }

  function Make(w: Wire, m: Move): Wire {
    match m
    case DecideRegister(a, p) => Decide(w, RegisterStep(AsBus(w), a, p, true))
    case DecideUnregister(a, h) => Decide(w, UnregisterStep(AsBus(w), a, h, true))
    case Emit(k) =>
      if k < |w.pending| then
        w.(pending := w.pending[..k] + w.pending[k + 1..], wire := w.wire + [w.pending[k]])
      else w
  }

  function MakeAll(w: Wire, ms: seq<Move>): Wire
    decreases ms
  {
    if ms == [] then w else MakeAll(Make(w, ms[0]), ms[1..])
  }

  const QUIET := Wire(map[], [], [], [])

  /** The frames for address `a`, in order. */
  function Out(x: seq<Ranked>, a: bytes): seq<Ranked> {
    if x == [] then []
    else Out(x[..|x| - 1], a) + if IsToggle(x[|x| - 1].sent, a) then [x[|x| - 1]] else []
  }

  lemma OutSnoc(x: seq<Ranked>, r: Ranked, a: bytes)
    ensures Out(x + [r], a) == Out(x, a) + if IsToggle(r.sent, a) then [r] else []
  {
    assert (x + [r])[..|x|] == x;
  }

  lemma {:induction false} OutConcat(x: seq<Ranked>, y: seq<Ranked>, a: bytes)
    ensures Out(x + y, a) == Out(x, a) + Out(y, a)
    decreases y
  {
    hide Out;
    if y == [] {
      assert x + y == x;
      OutNothing(a);
    } else {
      var front, r := y[..|y| - 1], y[|y| - 1];
      OutConcat(x, front, a);
      assert x + y == (x + front) + [r] && y == front + [r];
      OutSnoc(x + front, r, a);
      OutSnoc(front, r, a);
    }
  }

  lemma OutNothing(a: bytes)
    ensures Out([], a) == []
  {
  }

  lemma SentsSnoc(x: seq<Ranked>, r: Ranked)
    ensures Sents(x + [r]) == Sents(x) + [r.sent]
  {
  }

  /** `Toggles` reads the frames for an address off as register or not. */
  lemma {:induction false} OutToggles(x: seq<Ranked>, a: bytes)
    ensures |Out(x, a)| == |Toggles(Sents(x), a)|
    ensures forall i | 0 <= i < |Out(x, a)| ::
              Out(x, a)[i] in x && Toggles(Sents(x), a)[i] == Out(x, a)[i].sent.frame.Register?
  {
    hide Out, Toggles, Sents;
    if x == [] {
      OutNothing(a);
      TogglesOfNothing(a);
    } else {
      var front, r := x[..|x| - 1], x[|x| - 1];
      assert x == front + [r];
      OutToggles(front, a);
      OutSnoc(front, r, a);
      SentsSnoc(front, r);
      TogglesSnoc(Sents(front), r.sent, a);
      assert forall y | y in front :: y in x;
    }
  }

  lemma TogglesOfNothing(a: bytes)
    ensures Toggles(Sents([]), a) == [] && Toggles([], a) == []
  {
    assert Sents([]) == [];
  }

  // ---- what every interleaving keeps ----

  /** Decisions of even rank are registrations, the others unregistrations. */
  predicate Parity(r: Ranked) {
    if r.rank % 2 == 0 then r.sent.frame.Register? else r.sent.frame.Unregister?
  }

  /** Each decision for `a` is on the wire or pending, and ranks count the decisions. */
  ghost predicate Counted(w: Wire, a: bytes) {
    && |Out(w.decided, a)| == |Out(w.wire, a)| + |Out(w.pending, a)|
    && forall i | 0 <= i < |Out(w.decided, a)| :: Out(w.decided, a)[i].rank == i
  }

  ghost predicate WireInv(w: Wire) {
    && (forall a :: TogglesOk(AsBus(w), a) && Counted(w, a))
    && multiset(w.decided) == multiset(w.wire) + multiset(w.pending)
    && forall r | r in w.decided :: Parity(r)
  }

  lemma QuietInv()
    ensures WireInv(QUIET)
  {
    assert Sents([]) == [];
  }

  /** The step's frame, if any, is one whose turn it is. */
  lemma DecideKeeps(w: Wire, b: Bus, s: Sent)
    requires WireInv(w) && (s.frame.Register? || s.frame.Unregister?)
    requires b.frames == Sents(w.decided) || b.frames == Sents(w.decided) + [s]
    requires forall a :: TogglesOk(b, a)
    ensures WireInv(Decide(w, b))
  {
    hide Toggles, Out, Alternates, HandlersAt, Parity, Sents;
    var w' := Decide(w, b);
    if b.frames == Sents(w.decided) {
      forall a ensures TogglesOk(AsBus(w'), a) && Counted(w', a) {
        assert TogglesOk(b, a) && Counted(w, a);
      }
    } else {
      var a0 := s.frame.address;
      var r := Ranked(s, |Toggles(Sents(w.decided), a0)|);
      DecideNew(w, b, s);
      SentsSnoc(w.decided, r);
      forall a ensures TogglesOk(AsBus(w'), a) && Counted(w', a) {
        assert TogglesOk(b, a);
        RankIsNext(w, r, a);
      }
      assert TogglesOk(b, a0);
      TurnOf(w.decided, s, a0);
      assert multiset(w'.decided) == multiset(w.decided) + multiset{r};
      assert multiset(w'.pending) == multiset(w.pending) + multiset{r};
      forall x | x in w'.decided ensures Parity(x) {
        assert x in w.decided || x == r;
      }
    }
  }

  lemma RankIsNext(w: Wire, r: Ranked, a: bytes)
    requires Counted(w, a) && (IsToggle(r.sent, a) ==> r.rank == |Toggles(Sents(w.decided), a)|)
    ensures Counted(w.(decided := w.decided + [r], pending := w.pending + [r]), a)
  {
    hide Out, Toggles;
    OutSnoc(w.decided, r, a);
    OutSnoc(w.pending, r, a);
    OutToggles(w.decided, a);
  }

  /** A frame that keeps the alternation registers exactly when an even number came before it. */
  lemma TurnOf(decided: seq<Ranked>, s: Sent, a: bytes)
    requires s.frame in {Register(a), Unregister(a)} && Alternates(Toggles(Sents(decided) + [s], a))
    ensures Parity(Ranked(s, |Toggles(Sents(decided), a)|))
  {
    hide Toggles;
    var t := Toggles(Sents(decided), a);
    TogglesSnoc(Sents(decided), s, a);
    assert (t + [s.frame.Register?])[|t|] == s.frame.Register?;
  }

  lemma EmitKeeps(w: Wire, k: nat)
    requires WireInv(w) && k < |w.pending|
    ensures WireInv(Make(w, Emit(k)))
  {
    hide Toggles, Out, Alternates, HandlersAt, Parity;
    var w', x, r, y := Make(w, Emit(k)), w.pending[..k], w.pending[k], w.pending[k + 1..];
    assert w.pending == x + [r] + y;
    forall a ensures TogglesOk(AsBus(w'), a) && Counted(w', a) {
      assert TogglesOk(AsBus(w), a) && Counted(w, a);
      OutConcat(x, y, a);
      OutConcat(x + [r], y, a);
      OutSnoc(x, r, a);
      OutSnoc(w.wire, r, a);
    }
  }

  lemma MakeKeeps(w: Wire, m: Move)
    requires WireInv(w)
    ensures WireInv(Make(w, m))
  {
    hide TogglesOk, Counted, Parity, Decide;
    match m
    case DecideRegister(a, p) =>
      var b := RegisterStep(AsBus(w), a, p, true);
      forall c ensures TogglesOk(b, c) {
        RegisterToggles(AsBus(w), a, p, true, c);
      }
      DecideKeeps(w, b, Sent(Register(a), true));
    case DecideUnregister(a, h) =>
      var b := UnregisterStep(AsBus(w), a, h, true);
      forall c ensures TogglesOk(b, c) {
        UnregisterToggles(AsBus(w), a, h, true, c);
      }
      DecideKeeps(w, b, Sent(Unregister(a), true));
    case Emit(k) =>
      if k < |w.pending| {
        EmitKeeps(w, k);
      }
  }

  /** However threads interleave, decisions alternate, and the wire carries those decisions and no others. */
  lemma {:induction false} DecisionsAlternate(w: Wire, ms: seq<Move>)
    requires WireInv(w)
    ensures WireInv(MakeAll(w, ms))
    decreases ms
  {
    hide WireInv, Make;
    if ms != [] {
      MakeKeeps(w, ms[0]);
      DecisionsAlternate(Make(w, ms[0]), ms[1..]);
    }
  }

  // ---- when the wire alternates ----

  lemma OnWire(w: Wire, a: bytes, i: nat)
    requires WireInv(w) && i < |Out(w.wire, a)|
    ensures Parity(Out(w.wire, a)[i])
    ensures |Toggles(Sents(w.wire), a)| == |Out(w.wire, a)|
    ensures Toggles(Sents(w.wire), a)[i] <==> Out(w.wire, a)[i].rank % 2 == 0
  {
    hide Out, Toggles, TogglesOk, Counted;
    OutToggles(w.wire, a);
    var r := Out(w.wire, a)[i];
    assert multiset(w.wire)[r] > 0;
    assert multiset(w.decided)[r] > 0;
  }

  /**
    * At every moment of every interleaving, the wire alternates for an address exactly when the
    * i-th frame out for it was decided at a rank of the parity of i.
    */
  lemma WireAlternatesExactly(ms: seq<Move>, a: bytes)
    ensures var w := MakeAll(QUIET, ms);
            var out := Out(w.wire, a);
            Alternates(Toggles(Sents(w.wire), a)) <==> forall i | 0 <= i < |out| :: out[i].rank % 2 == i % 2
  {
    hide Out, Toggles, MakeAll, WireInv;
    var w := MakeAll(QUIET, ms);
    QuietInv();
    DecisionsAlternate(QUIET, ms);
    var out, t := Out(w.wire, a), Toggles(Sents(w.wire), a);
    OutToggles(w.wire, a);
    forall i | 0 <= i < |out| ensures t[i] == (i % 2 == 0) <==> out[i].rank % 2 == i % 2 {
      OnWire(w, a, i);
    }
    if Alternates(t) {
      forall i | 0 <= i < |out| ensures out[i].rank % 2 == i % 2 {
        assert t[i] == (i % 2 == 0);
      }
    }
  }

  /**
    * With every frame out, what the server holds agrees with the handler list exactly when the last
    * frame out for the address has the parity of the last one decided, as it has if the wire alternates.
    */
  lemma ServerAgreesExactly(ms: seq<Move>, a: bytes)
    requires MakeAll(QUIET, ms).pending == []
    ensures var w := MakeAll(QUIET, ms);
            var out, t := Out(w.wire, a), Toggles(Sents(w.wire), a);
            && |out| == |Out(w.decided, a)|
            && ((Registered(t) <==> HandlersAt(w.handlers, a) != []) <==>
                out == [] || out[|out| - 1].rank % 2 == (|out| - 1) % 2)
            && (Alternates(t) ==> (Registered(t) <==> HandlersAt(w.handlers, a) != []))
  {
    hide Out, Toggles, MakeAll, HandlersAt, Alternates;
    var w := MakeAll(QUIET, ms);
    QuietInv();
    DecisionsAlternate(QUIET, ms);
    assert TogglesOk(AsBus(w), a) && Counted(w, a);
    OutNothing(a);
    OutToggles(w.decided, a);
    OutToggles(w.wire, a);
    var out := Out(w.wire, a);
    if out != [] {
      OnWire(w, a, |out| - 1);
      WireAlternatesExactly(ms, a);
      LastInTurn(Toggles(Sents(w.decided), a));
    }
  }

  lemma LastInTurn(t: seq<bool>)
    requires Alternates(t) && t != []
    ensures Registered(t) <==> (|t| - 1) % 2 == 0
  {
  }

  /** The threads run in the order they decided. */
  ghost predicate InOrder(ms: seq<Move>) {
    forall i | 0 <= i < |ms| :: ms[i].Emit? ==> ms[i].k == 0
  }

  lemma InOrderDecide(w: Wire, b: Bus)
    requires w.decided == w.wire + w.pending
    ensures Decide(w, b).decided == Decide(w, b).wire + Decide(w, b).pending
  {
    hide Toggles;
  }

  lemma InOrderStep(w: Wire, m: Move)
    requires w.decided == w.wire + w.pending && (m.Emit? ==> m.k == 0)
    ensures Make(w, m).decided == Make(w, m).wire + Make(w, m).pending
  {
    hide Decide, RegisterStep, UnregisterStep;
    match m
    case DecideRegister(a, p) => InOrderDecide(w, RegisterStep(AsBus(w), a, p, true));
    case DecideUnregister(a, h) => InOrderDecide(w, UnregisterStep(AsBus(w), a, h, true));
    case Emit(k) =>
      if w.pending != [] {
        assert w.wire + w.pending == w.wire + [w.pending[0]] + w.pending[1..];
      }
  }

  lemma {:induction false} InOrderRun(w: Wire, ms: seq<Move>)
    requires w.decided == w.wire + w.pending && InOrder(ms)
    ensures MakeAll(w, ms).decided == MakeAll(w, ms).wire + MakeAll(w, ms).pending
    decreases ms
  {
    hide Make;
    if ms != [] {
      InOrderStep(w, ms[0]);
      InOrderRun(Make(w, ms[0]), ms[1..]);
    }
  }

  /** When frames go out in the order decided, the wire alternates for every address at every moment. */
  lemma WireAlternatesInOrder(ms: seq<Move>, a: bytes)
    requires InOrder(ms)
    ensures Alternates(Toggles(Sents(MakeAll(QUIET, ms).wire), a))
  {
    hide Out, Toggles, MakeAll, InOrder;
    var w := MakeAll(QUIET, ms);
    QuietInv();
    DecisionsAlternate(QUIET, ms);
    InOrderRun(QUIET, ms);
    OutConcat(w.wire, w.pending, a);
    assert Counted(w, a);
    forall i | 0 <= i < |Out(w.wire, a)| ensures Out(w.wire, a)[i].rank % 2 == i % 2 {
      assert Out(w.wire, a)[i] == Out(w.decided, a)[i];
    }
    WireAlternatesExactly(ms, a);
  }

  lemma FourMoves(w: Wire, m1: Move, m2: Move, m3: Move, m4: Move)
    ensures MakeAll(w, [m1, m2, m3, m4]) == Make(Make(Make(Make(w, m1), m2), m3), m4)
  {
    hide Make;
    var w1 := Make(w, m1);
    var w2 := Make(w1, m2);
    var w3 := Make(w2, m3);
    assert [m1, m2, m3, m4][1..] == [m2, m3, m4] && [m2, m3, m4][1..] == [m3, m4] && [m3, m4][1..] == [m4] && [m4][1..] == [];
    assert MakeAll(w3, [m4]) == Make(w3, m4);
    assert MakeAll(w2, [m3, m4]) == MakeAll(w3, [m4]);
    assert MakeAll(w1, [m2, m3, m4]) == MakeAll(w2, [m3, m4]);
  }

  /** A registration and an unregistration of `a`, both decided and neither sent. */
  function BothPending(a: bytes): Wire {
    var both := [Ranked(Sent(Register(a), true), 0), Ranked(Sent(Unregister(a), true), 1)];
    Wire(map[a := []], both, both, [])
  }

  lemma DecideNew(w: Wire, b: Bus, s: Sent)
    requires b.frames == Sents(w.decided) + [s]
    ensures var r := Ranked(s, |Toggles(Sents(w.decided), AddressOf(s.frame))|);
            Decide(w, b) == Wire(b.handlers, w.decided + [r], w.pending + [r], w.wire)
  {
    assert b.frames[|w.decided|] == s;
  }

  lemma DecideBoth(a: bytes, p: Pair)
    ensures Make(Make(QUIET, DecideRegister(a, p)), DecideUnregister(a, NoHandler)) == BothPending(a)
  {
    hide Decide, Toggles, Sents;
    var r, u := Ranked(Sent(Register(a), true), 0), Ranked(Sent(Unregister(a), true), 1);
    var b1 := RegisterStep(AsBus(QUIET), a, p, true);
    TogglesOfNothing(a);
    DecideNew(QUIET, b1, r.sent);
    var w1 := Make(QUIET, DecideRegister(a, p));
    assert w1.decided == [r] && w1.pending == [r] && w1.wire == [];
    assert [] + [r] == [r];
    SentsSnoc([], r);
    TogglesSnoc(Sents([]), r.sent, a);
    assert |Toggles(Sents([r]), a)| == 1;
    var b2 := UnregisterStep(AsBus(w1), a, NoHandler, true);
    assert HandlersAt(w1.handlers, a) == HandlersAt(QUIET.handlers, a) + [p] != [];
    DecideNew(w1, b2, u.sent);
    assert b2.handlers == map[a := []];
    assert [r] + [u] == [r, u];
  }

  /**
    * Otherwise it need not: one thread registers and is held up before sending, another
    * unregisters and sends. The server ends up with a registration the client has dropped.
    */
  lemma OutOfOrderWire(a: bytes)
    ensures var w := MakeAll(QUIET, [DecideRegister(a, Pair(Plain(0), NoHandler)), DecideUnregister(a, NoHandler), Emit(1), Emit(0)]);
            && Toggles(Sents(w.wire), a) == [false, true]
            && HandlersAt(w.handlers, a) == [] && w.pending == []
  {
    hide MakeAll, Decide, Toggles, Sents;
    var m1, m2 := DecideRegister(a, Pair(Plain(0), NoHandler)), DecideUnregister(a, NoHandler);
    FourMoves(QUIET, m1, m2, Emit(1), Emit(0));
    DecideBoth(a, Pair(Plain(0), NoHandler));
    var r, u := Ranked(Sent(Register(a), true), 0), Ranked(Sent(Unregister(a), true), 1);
    var w3 := Make(BothPending(a), Emit(1));
    assert w3.pending == [r] && w3.wire == [u];
    var w4 := Make(w3, Emit(0));
    assert w4.pending == [] && w4.wire == [u, r];
    TogglesOfNothing(a);
    SentsSnoc([], u);
    SentsSnoc([u], r);
    TogglesSnoc(Sents([]), u.sent, a);
    TogglesSnoc(Sents([u]), r.sent, a);
    assert [] + [u] == [u] && [u] + [r] == [u, r];
  }

  // ---- closing: the endpoint first, the state after ----

  /** A client and how many `Close` calls are between the endpoint's answer and `state_ = kClosing`. */
  datatype Closer = Closer(bus: Bus, mid: nat)

  datatype Tick = Do(e: Event) | Begin | End

  function Advance(c: Closer, t: Tick): Closer {
    match t
    case Do(e) => c.(bus := Step(c.bus, e))
    case Begin => if c.bus.state == Open then c.(mid := c.mid + 1) else c
    case End => if c.mid > 0 then Closer(c.bus.(state := Closing), c.mid - 1) else c
  }

  predicate Lawful(c: Closer, t: Tick) {
    t.Do? ==> Legal(c.bus, t.e)
  }

  function Course(c: Closer, ts: seq<Tick>): Closer
    decreases ts
  {
    if ts == [] then c else Course(Advance(c, ts[0]), ts[1..])
  }

  ghost predicate LawfulCourse(c: Closer, ts: seq<Tick>)
    decreases ts
  {
    ts == [] || (Lawful(c, ts[0]) && LawfulCourse(Advance(c, ts[0]), ts[1..]))
  }

  /** With nothing in between, the two halves are the atomic `Close`. */
  lemma SplitCloseIsClose(c: Closer)
    requires c.bus.state == Open
    ensures Advance(Advance(c, Begin), End) == c.(bus := Step(c.bus, EvClose(true)))
  {
  }

  ghost predicate Raced(b: Bus) {
    && (b.state == Open ==> b.endpoint == Up) && (b.state == Closed ==> b.endpoint == Idle)
    && (b.doPing <==> b.endpoint == Up) && b.pingThreads == if b.doPing then 1 else 0
  }

  lemma RacedStep(c: Closer, t: Tick)
    requires Raced(c.bus) && Lawful(c, t)
    ensures Raced(Advance(c, t).bus)
  {
  }

  lemma {:induction false} RacedCourse(c: Closer, ts: seq<Tick>)
    requires Raced(c.bus) && LawfulCourse(c, ts)
    ensures Raced(Course(c, ts).bus)
    decreases ts
  {
    hide Advance, Lawful, Raced;
    if ts != [] {
      RacedStep(c, ts[0]);
      RacedCourse(Advance(c, ts[0]), ts[1..]);
    }
  }

  /**
    * Whatever calls and callbacks fall between the halves of any number of `Close` calls: when a
    * second half has just run, the client is cut off for good exactly when the endpoint owes it
    * nothing at that moment; at any time, exactly when the endpoint owes it nothing and the state
    * is connecting or closing.
    */
  lemma CloseRaceExactly(ts: seq<Tick>)
    requires LawfulCourse(Closer(FRESH, 0), ts)
    ensures var c := Course(Closer(FRESH, 0), ts);
            && (CanOpen(c.bus) <==> !Stuck(c.bus))
            && (c.mid > 0 ==> (CanOpen(Advance(c, End).bus) <==> c.bus.endpoint != Idle))
            && forall es | Stuck(c.bus) && LegalRun(c.bus, es) ::
                 Run(c.bus, es) == c.bus && forall i | 0 <= i < |es| :: !Answer(c.bus, es[i])
  {
    hide CanOpen, Course, LawfulCourse, Run, LegalRun, Answer;
    var c := Course(Closer(FRESH, 0), ts);
    RacedCourse(Closer(FRESH, 0), ts);
    CanOpenExactly(c.bus);
    if c.mid > 0 {
      RacedStep(c, End);
      CanOpenExactly(Advance(c, End).bus);
    }
    forall es | Stuck(c.bus) && LegalRun(c.bus, es)
      ensures Run(c.bus, es) == c.bus && forall i | 0 <= i < |es| :: !Answer(c.bus, es[i])
    {
      StuckForever(c.bus, es);
    }
  }

  /** The close callback in the middle of `Close` cuts the client off; a new `Connect` before the end saves it. */
  lemma CallbackInClose()
    ensures var c := Advance(Advance(Closer(FRESH, 0), Do(EvConnect(true))), Do(EvOnOpen));
            var d := Advance(Advance(c, Begin), Do(EvOnClose));
            var e := Advance(d, Do(EvConnect(true)));
            && Legal(c.bus, EvOnClose) && Stuck(Advance(d, End).bus) && !CanOpen(Advance(d, End).bus)
            && Advance(e, End).bus.state == Closing && CanOpen(Advance(e, End).bus)
  {
    hide CanOpen;
    var c := Advance(Advance(Closer(FRESH, 0), Do(EvConnect(true))), Do(EvOnOpen));
    var d := Advance(Advance(c, Begin), Do(EvOnClose));
    var e := Advance(d, Do(EvConnect(true)));
    CanOpenExactly(Advance(d, End).bus);
    CanOpenExactly(Advance(e, End).bus);
  }
}
