/** The event-bus client as a state machine: one step per API call or endpoint callback. */
module BusModel {
  import opened Bytes
  import opened JsonValue
  import opened JsonMap
  import opened JsonParse

  datatype State = Connecting | Open | Closing | Closed

  /**
    * What the endpoint owes the client (connection.hpp, lines 53-79): nothing, an open or a fail
    * for the attempt under way, or a close for the connection that is up.
    */
  datatype Endpoint = Idle | Attempting | Up

  /** A `std::function`: empty, a plain function pointer (which can be compared) or anything else. */
  datatype Handler = NoHandler | Plain(fn: nat) | Closure(id: nat)

  datatype Pair = Pair(reply: Handler, failure: Handler)

  datatype Frame = Register(address: bytes) | Unregister(address: bytes) | Envelope(address: bytes) | Ping

  /** A frame handed to the endpoint, and whether the endpoint took it. */
  datatype Sent = Sent(frame: Frame, delivered: bool)

  /**
    * What a message asks of a handler pair: its reply handler, its failure handler (type "err"), or
    * neither, because the `replyAddress` does not convert to text and the conversion throws before
    * the first reply handler is called.
    */
  datatype How = AsReply | AsFailure | AsThrow

  /** An inbound payload: not JSON, JSON on which the accessors throw, or a message. */
  datatype Incoming = Unparsed | Throws | Message(address: bytes, how: How)

  datatype Call = ReplyCall(h: Handler) | FailureCall(h: Handler)

  /** What one message led to: the routes of `OnMessage`. */
  datatype Route =
    | ToHandlers(address: bytes, calls: seq<Call>)
    | ToReply(address: bytes, calls: seq<Call>)
    | ToFailureCallback
    | ToLog

  datatype Bus = Bus(
    state: State,
    endpoint: Endpoint,
    handlers: map<bytes, seq<Pair>>,
    replies: map<bytes, Pair>,
    doPing: bool,
    pingThreads: nat,
    frames: seq<Sent>,          // handed over on this connection
    past: seq<seq<Sent>>,       // on earlier connections
    used: set<bytes>,           // reply addresses handed out so far
    routes: seq<Route>)         // one for each message received so far

  datatype Event =
    | EvConnect(accepted: bool)
    | EvClose(ok: bool)
    | EvRegister(address: bytes, reply: Handler, failure: Handler, ok: bool)
    | EvUnregister(address: bytes, reply: Handler, ok: bool)
    | EvSend(address: bytes, reply: Handler, failure: Handler, replyAddress: bytes, ok: bool)
    | EvOnOpen
    | EvOnFail
    | EvOnClose
    | EvOnMessage(incoming: Incoming)
    | EvPingTimeout(ok: bool)

  const FRESH := Bus(Closed, Idle, map[], map[], false, 0, [], [], {}, [])

  function HandlersAt(m: map<bytes, seq<Pair>>, a: bytes): seq<Pair> {
    if a in m then m[a] else []
  }

  /** Take out the first pair whose reply handler is the given plain function. */
  function RemoveFirst(list: seq<Pair>, h: Handler): seq<Pair> {
    if list == [] then [] else if list[0].reply == h then list[1..] else [list[0]] + RemoveFirst(list[1..], h)
  }

  /** What `UnregisterHandler` leaves of a list. Only plain functions can be found again. */
  function Remaining(list: seq<Pair>, h: Handler): seq<Pair> {
    match h
    case NoHandler => []
    case Plain(_) => RemoveFirst(list, h)
    case Closure(_) => list
  }

  function CallsFor(p: Pair, how: How): seq<Call> {
    match how
    case AsReply => [ReplyCall(p.reply)]
    case AsFailure => if p.failure.NoHandler? then [] else [FailureCall(p.failure)]
    case AsThrow => []
  }

  function AllCalls(list: seq<Pair>, how: How): seq<Call> {
    if list == [] then [] else CallsFor(list[0], how) + AllCalls(list[1..], how)
  }

  /** What each API call answers. */
  function Answer(b: Bus, e: Event): bool {
    match e
    case EvConnect(accepted) => b.state == Closed && accepted
    case EvClose(ok) => b.state == Open && ok
    case EvRegister(a, h, _, ok) => b.state == Open && !h.NoHandler? && (HandlersAt(b.handlers, a) == [] ==> ok)
    case EvUnregister(a, h, ok) =>
      var list := HandlersAt(b.handlers, a);
      b.state == Open && (list != [] && Remaining(list, h) == [] ==> ok)
    case EvSend(_, _, _, _, ok) => b.state == Open && ok
    case _ => true
  }

  function Step(b: Bus, e: Event): Bus {
    match e
    case EvConnect(accepted) =>
      if b.state != Closed then b
      else b.(state := Connecting, endpoint := if accepted then Attempting else b.endpoint)
    case EvClose(ok) => if b.state == Open && ok then b.(state := Closing) else b
    case EvRegister(a, h, f, ok) => if b.state != Open || h.NoHandler? then b else RegisterStep(b, a, Pair(h, f), ok)
    case EvUnregister(a, h, ok) => if b.state != Open then b else UnregisterStep(b, a, h, ok)
    case EvSend(a, h, f, r, ok) =>
      if b.state != Open then b
      else
        b.(replies := if h.NoHandler? then b.replies else b.replies[r := Pair(h, f)],
           used := if h.NoHandler? then b.used else b.used + {r},
           frames := b.frames + [Sent(Envelope(a), ok)])
    case EvOnOpen =>
      b.(state := Open, endpoint := Up, doPing := true, pingThreads := if b.doPing then b.pingThreads else b.pingThreads + 1)
    case EvOnFail => b.(state := Closed, endpoint := Idle)
    case EvOnClose =>
      b.(state := Closed, endpoint := Idle, doPing := false,
         pingThreads := if b.doPing && b.pingThreads > 0 then b.pingThreads - 1 else b.pingThreads,
         handlers := map[], replies := map[], frames := [], past := b.past + [b.frames])
    case EvOnMessage(m) => if m.Message? then MessageStep(b, m.address, m.how) else b
    case EvPingTimeout(ok) => if b.state == Open then b.(frames := b.frames + [Sent(Ping, ok)]) else b
  }

  function RegisterStep(b: Bus, a: bytes, p: Pair, ok: bool): Bus {
    var list := HandlersAt(b.handlers, a);
    b.(handlers := b.handlers[a := list + [p]],
       frames := if list == [] then b.frames + [Sent(Register(a), ok)] else b.frames)
  }

  function UnregisterStep(b: Bus, a: bytes, h: Handler, ok: bool): Bus {
    var list := HandlersAt(b.handlers, a);
    var list' := Remaining(list, h);
    b.(handlers := b.handlers[a := if list == [] then [] else list'],
       frames := if list != [] && list' == [] then b.frames + [Sent(Unregister(a), ok)] else b.frames)
  }

  function MessageStep(b: Bus, a: bytes, how: How): Bus {
    var list := HandlersAt(b.handlers, a);
    var b' := b.(handlers := b.handlers[a := list]);  // `handler_map_[address]` creates the entry
    if list != [] then b'.(routes := b.routes + [ToHandlers(a, AllCalls(list, how))])
    else if a in b.replies then
      b'.(replies := b.replies - {a}, routes := b.routes + [ToReply(a, CallsFor(b.replies[a], how))])
    else b'.(routes := b.routes + [if how.AsFailure? then ToFailureCallback else ToLog])
  }

  /** The endpoint keeps its contract, reply addresses are fresh, only a ping thread times out. */
  predicate Legal(b: Bus, e: Event) {
    match e
    case EvOnOpen => b.endpoint == Attempting
    case EvOnFail => b.endpoint == Attempting
    case EvOnClose => b.endpoint == Up
    case EvOnMessage(_) => b.endpoint == Up
    case EvSend(_, _, _, r, _) => r !in b.used
    case EvPingTimeout(_) => b.pingThreads > 0
    case _ => true
  }

  function Run(b: Bus, es: seq<Event>): Bus
    decreases es
  {
    if es == [] then b else Run(Step(b, es[0]), es[1..])
  }

  ghost predicate LegalRun(b: Bus, es: seq<Event>)
    decreases es
  {
    es == [] || (Legal(b, es[0]) && LegalRun(Step(b, es[0]), es[1..]))
  }

  // ---- properties of one state ----

  /** Registrations (true) and unregistrations (false) of address `a`, in order. */
  function Toggles(frames: seq<Sent>, a: bytes): seq<bool> {
    if frames == [] then []
    else
      var t := Toggles(frames[..|frames| - 1], a);
      var f := frames[|frames| - 1].frame;
      if f == Register(a) then t + [true] else if f == Unregister(a) then t + [false] else t
  }

  /** register, unregister, register, ... */
  predicate Alternates(t: seq<bool>) {
    forall i | 0 <= i < |t| :: t[i] == (i % 2 == 0)
  }

  ghost predicate LinkOk(b: Bus) {
    && (b.endpoint == Attempting ==> b.state == Connecting)
    && (b.endpoint == Up <==> b.state == Open || b.state == Closing)
    && (b.doPing <==> b.endpoint == Up)
    && b.pingThreads == (if b.doPing then 1 else 0)
  }

  /** Handlers and pending replies live only while a connection is up. */
  ghost predicate QuietWhenDown(b: Bus) {
    b.endpoint != Up ==> b.replies == map[] && b.frames == [] && forall a | a in b.handlers :: b.handlers[a] == []
  }

  ghost predicate TogglesOk(b: Bus, a: bytes) {
    var t := Toggles(b.frames, a);
    Alternates(t) && (HandlersAt(b.handlers, a) != [] <==> t != [] && t[|t| - 1])
  }

  ghost predicate FramesOk(b: Bus) {
    (forall a :: TogglesOk(b, a)) && forall i, a | 0 <= i < |b.past| :: Alternates(Toggles(b.past[i], a))
  }

  /** Reply addresses consumed so far, in order. */
  function Consumed(routes: seq<Route>): seq<bytes> {
    if routes == [] then []
    else
      var c := Consumed(routes[..|routes| - 1]);
      var r := routes[|routes| - 1];
      if r.ToReply? then c + [r.address] else c
  }

  ghost predicate RepliesOk(b: Bus) {
    var c := Consumed(b.routes);
    && b.replies.Keys <= b.used
    && (forall i | 0 <= i < |c| :: c[i] in b.used && c[i] !in b.replies)
    && (forall i, j | 0 <= i < j < |c| :: c[i] != c[j])
    && forall i | 0 <= i < |b.routes| && b.routes[i].ToReply? :: |b.routes[i].calls| <= 1
  }

  ghost predicate Inv(b: Bus) {
    LinkOk(b) && QuietWhenDown(b) && FramesOk(b) && RepliesOk(b)
  }

  // ---- every step keeps them ----

  lemma TogglesSnoc(frames: seq<Sent>, s: Sent, a: bytes)
    ensures Toggles(frames + [s], a) ==
            Toggles(frames, a) + if s.frame == Register(a) then [true] else if s.frame == Unregister(a) then [false] else []
  {
    assert (frames + [s])[..|frames|] == frames;
  }

  lemma ConsumedSnoc(routes: seq<Route>, r: Route)
    ensures Consumed(routes + [r]) == Consumed(routes) + if r.ToReply? then [r.address] else []
  {
    assert (routes + [r])[..|routes|] == routes;
  }

  /** Adding one frame keeps the alternation if it is the one whose turn it is. */
  lemma AlternatesSnoc(t: seq<bool>, v: bool)
    requires Alternates(t) && (v <==> (t == [] || !t[|t| - 1]))
    ensures Alternates(t + [v])
  {
  }

  lemma LinkStep(b: Bus, e: Event)
    requires Inv(b) && Legal(b, e)
    ensures LinkOk(Step(b, e)) && QuietWhenDown(Step(b, e))
  {
    hide FramesOk, RepliesOk;
  }

  lemma RegisterToggles(b: Bus, addr: bytes, p: Pair, ok: bool, a: bytes)
    requires TogglesOk(b, a)
    ensures TogglesOk(RegisterStep(b, addr, p, ok), a)
  {
    hide Toggles;
    TogglesSnoc(b.frames, Sent(Register(addr), ok), a);
    if a == addr && HandlersAt(b.handlers, a) == [] {
      AlternatesSnoc(Toggles(b.frames, a), true);
    }
  }

  lemma UnregisterToggles(b: Bus, addr: bytes, h: Handler, ok: bool, a: bytes)
    requires TogglesOk(b, a)
    ensures TogglesOk(UnregisterStep(b, addr, h, ok), a)
  {
    hide Toggles, RemoveFirst;
    TogglesSnoc(b.frames, Sent(Unregister(addr), ok), a);
    if a == addr && HandlersAt(b.handlers, a) != [] {
      AlternatesSnoc(Toggles(b.frames, a), false);
    }
  }

  lemma OtherFrameToggles(b: Bus, s: Sent, a: bytes)
    requires s.frame.Envelope? || s.frame.Ping?
    ensures Toggles(b.frames + [s], a) == Toggles(b.frames, a)
  {
    TogglesSnoc(b.frames, s, a);
  }

  lemma TogglesStep(b: Bus, e: Event, a: bytes)
    requires Inv(b) && Legal(b, e)
    ensures TogglesOk(Step(b, e), a)
  {
    hide RepliesOk, LinkOk, QuietWhenDown, Toggles, Alternates, RegisterStep, UnregisterStep, MessageStep, HandlersAt;
    assert TogglesOk(b, a);
    match e
    case EvRegister(addr, h, f, ok) => RegisterToggles(b, addr, Pair(h, f), ok, a);
    case EvUnregister(addr, h, ok) => UnregisterToggles(b, addr, h, ok, a);
    case EvSend(addr, _, _, _, ok) => OtherFrameToggles(b, Sent(Envelope(addr), ok), a);
    case EvPingTimeout(ok) => OtherFrameToggles(b, Sent(Ping, ok), a);
    case EvOnMessage(m) => if m.Message? { MessageToggles(b, m.address, m.how, a); }
    case EvOnClose => NoToggles(Step(b, e), a);
    case _ =>
  }

  lemma MessageToggles(b: Bus, addr: bytes, how: How, a: bytes)
    requires TogglesOk(b, a)
    ensures TogglesOk(MessageStep(b, addr, how), a)
  {
    hide Toggles, Alternates, AllCalls;
  }

  lemma NoToggles(b: Bus, a: bytes)
    requires b.frames == [] && b.handlers == map[]
    ensures TogglesOk(b, a)
  {
  }

  lemma FramesStep(b: Bus, e: Event)
    requires Inv(b) && Legal(b, e)
    ensures FramesOk(Step(b, e))
  {
    hide RepliesOk, LinkOk, Toggles, QuietWhenDown;
    forall a ensures TogglesOk(Step(b, e), a) {
      TogglesStep(b, e, a);
    }
    if e.EvOnClose? {
      forall a ensures Alternates(Toggles(b.frames, a)) {
        assert TogglesOk(b, a);
      }
    }
  }

  lemma RepliesMessage(b: Bus, a: bytes, how: How)
    requires RepliesOk(b)
    ensures RepliesOk(MessageStep(b, a, how))
  {
    var b' := MessageStep(b, a, how);
    var r := b'.routes[|b.routes|];
    ConsumedSnoc(b.routes, r);
    hide Consumed;
    assert b'.routes == b.routes + [r];
    assert b'.replies.Keys <= b.replies.Keys;
    assert r.ToReply? ==> a in b.replies && b'.replies == b.replies - {a};
  }

  lemma RepliesStep(b: Bus, e: Event)
    requires RepliesOk(b) && Legal(b, e)
    ensures RepliesOk(Step(b, e))
  {
    hide Consumed, MessageStep;
    if e.EvOnMessage? && e.incoming.Message? {
      RepliesMessage(b, e.incoming.address, e.incoming.how);
    }
  }

  lemma InvStep(b: Bus, e: Event)
    requires Inv(b) && Legal(b, e)
    ensures Inv(Step(b, e))
  {
    LinkStep(b, e);
    FramesStep(b, e);
    RepliesStep(b, e);
  }

  /** Every state reachable under the endpoint's contract satisfies the invariant. */
  lemma {:induction false} InvRun(b: Bus, es: seq<Event>)
    requires Inv(b) && LegalRun(b, es)
    ensures Inv(Run(b, es))
    decreases es
  {
    if es != [] {
      InvStep(b, es[0]);
      InvRun(Step(b, es[0]), es[1..]);
    }
  }

  lemma FreshInv()
    ensures Inv(FRESH)
  {
  }

  // ---- what that says of whole runs ----

  /**
    * In every connection of every run, the frames handed to the endpoint for an address are
    * register, unregister, register, ...; on the current connection the last of them is a register
    * exactly when the address has local handlers. Whether the endpoint took them does not matter.
    */
  lemma FramesAlternate(es: seq<Event>, a: bytes)
    requires LegalRun(FRESH, es)
    ensures var b := Run(FRESH, es);
            var t := Toggles(b.frames, a);
            && Alternates(t) && (HandlersAt(b.handlers, a) != [] <==> t != [] && t[|t| - 1])
            && forall i | 0 <= i < |b.past| :: Alternates(Toggles(b.past[i], a))
  {
    FreshInv();
    InvRun(FRESH, es);
    assert TogglesOk(Run(FRESH, es), a);
  }

  function Delivered(frames: seq<Sent>): seq<Sent> {
    if frames == [] then []
    else
      var d := Delivered(frames[..|frames| - 1]);
      if frames[|frames| - 1].delivered then d + [frames[|frames| - 1]] else d
  }

  /** Of the frames that arrive this is not true: after a failed register, an unregister comes first. */
  lemma FailedSendBreaksDelivery(a: bytes)
    ensures var es := [EvConnect(true), EvOnOpen, EvRegister(a, Plain(0), NoHandler, false), EvUnregister(a, NoHandler, true)];
            && LegalRun(FRESH, es)
            && Toggles(Delivered(Run(FRESH, es).frames), a) == [false]
  {
    hide Run, LegalRun, Toggles, Delivered;
    var e3, e4 := EvRegister(a, Plain(0), NoHandler, false), EvUnregister(a, NoHandler, true);
    FourSteps(FRESH, EvConnect(true), EvOnOpen, e3, e4);
    var f1, f2 := Sent(Register(a), false), Sent(Unregister(a), true);
    assert Run(FRESH, [EvConnect(true), EvOnOpen, e3, e4]).frames == [f1, f2];
    OnlyUnregister(a);
  }

  lemma FourSteps(b: Bus, e1: Event, e2: Event, e3: Event, e4: Event)
    ensures var b1 := Step(b, e1);
            var b2 := Step(b1, e2);
            var b3 := Step(b2, e3);
            && Run(b, [e1, e2, e3, e4]) == Step(b3, e4)
            && (LegalRun(b, [e1, e2, e3, e4]) <==> Legal(b, e1) && Legal(b1, e2) && Legal(b2, e3) && Legal(b3, e4))
  {
    hide Step, Legal;
    var b1 := Step(b, e1);
    var b2 := Step(b1, e2);
    var b3 := Step(b2, e3);
    var b4 := Step(b3, e4);
    assert [e1, e2, e3, e4][1..] == [e2, e3, e4] && [e2, e3, e4][1..] == [e3, e4] && [e3, e4][1..] == [e4] && [e4][1..] == [];
    assert Run(b4, []) == b4 && LegalRun(b4, []);
    assert Run(b3, [e4]) == b4 && (LegalRun(b3, [e4]) <==> Legal(b3, e4));
    assert Run(b2, [e3, e4]) == b4 && (LegalRun(b2, [e3, e4]) <==> Legal(b2, e3) && Legal(b3, e4));
    assert Run(b1, [e2, e3, e4]) == Run(b2, [e3, e4]);
  }

  lemma OnlyUnregister(a: bytes)
    ensures Toggles(Delivered([Sent(Register(a), false), Sent(Unregister(a), true)]), a) == [false]
  {
    var f1, f2 := Sent(Register(a), false), Sent(Unregister(a), true);
    assert [f1, f2][..1] == [f1] && [f1][..0] == [];
    assert Delivered([f1]) == Delivered([]) == [];
    assert Delivered([f1, f2]) == [f2];
    assert [f2][..0] == [];
  }

  /**
    * In every reachable state, handlers and pending replies exist only on an open or closing
    * connection, and there is one ping thread when `do_ping_` is set and none when it is not.
    */
  lemma ReachableStates(es: seq<Event>)
    requires LegalRun(FRESH, es)
    ensures var b := Run(FRESH, es);
            && (forall a | HandlersAt(b.handlers, a) != [] :: b.state in {Open, Closing})
            && (b.replies != map[] ==> b.state in {Open, Closing})
            && b.pingThreads <= 1 && (b.pingThreads == 1 <==> b.doPing)
            && (b.doPing <==> b.state in {Open, Closing})
  {
    hide FramesOk, RepliesOk;
    FreshInv();
    InvRun(FRESH, es);
  }

  /** A stored reply pair is consumed at most once in a whole run, and then makes at most one call. */
  lemma RepliesFireOnce(es: seq<Event>)
    requires LegalRun(FRESH, es)
    ensures var b := Run(FRESH, es);
            var c := Consumed(b.routes);
            && (forall i, j | 0 <= i < j < |c| :: c[i] != c[j])
            && (forall i | 0 <= i < |c| :: c[i] !in b.replies)
            && forall i | 0 <= i < |b.routes| && b.routes[i].ToReply? :: |b.routes[i].calls| <= 1
  {
    FreshInv();
    InvRun(FRESH, es);
  }

  lemma ConsumedStep(b: Bus, e: Event)
    ensures Consumed(b.routes) <= Consumed(Step(b, e).routes)
    ensures forall i | |Consumed(b.routes)| <= i < |Consumed(Step(b, e).routes)| :: Consumed(Step(b, e).routes)[i] in b.replies
  {
    if e.EvOnMessage? && e.incoming.Message? {
      ConsumedSnoc(b.routes, Step(b, e).routes[|b.routes|]);
    }
  }

  /** Addresses handed out before but pending no more are never consumed again. */
  lemma {:induction false} DeadRepliesStayDead(b: Bus, es: seq<Event>, dead: set<bytes>)
    requires LegalRun(b, es) && dead <= b.used && b.replies.Keys !! dead
    ensures Consumed(b.routes) <= Consumed(Run(b, es).routes)
    ensures forall i | |Consumed(b.routes)| <= i < |Consumed(Run(b, es).routes)| :: Consumed(Run(b, es).routes)[i] !in dead
    decreases es
  {
    hide Consumed;
    if es != [] {
      var b' := Step(b, es[0]);
      ConsumedStep(b, es[0]);
      StillDead(b, es[0], dead);
      DeadRepliesStayDead(b', es[1..], dead);
      var c, c', c'' := Consumed(b.routes), Consumed(b'.routes), Consumed(Run(b', es[1..]).routes);
      forall i | |c| <= i < |c''| ensures c''[i] !in dead {
        if i < |c'| {
          assert c''[i] == c'[i];
        }
      }
    }
  }

  lemma StillDead(b: Bus, e: Event, dead: set<bytes>)
    requires Legal(b, e) && dead <= b.used && b.replies.Keys !! dead
    ensures dead <= Step(b, e).used && Step(b, e).replies.Keys !! dead
  {
  }

  /** After a close, no reply pair stored before it is ever consumed. */
  lemma NothingFiresAfterClose(before: seq<Event>, after: seq<Event>)
    requires LegalRun(FRESH, before) && Legal(Run(FRESH, before), EvOnClose)
    requires LegalRun(Step(Run(FRESH, before), EvOnClose), after)
    ensures var b := Run(FRESH, before);
            var c := Consumed(Run(Step(b, EvOnClose), after).routes);
            && Consumed(b.routes) <= c
            && forall i | |Consumed(b.routes)| <= i < |c| :: c[i] !in b.used
  {
    var b := Run(FRESH, before);
    DeadRepliesStayDead(Step(b, EvOnClose), after, b.used);
  }
}
