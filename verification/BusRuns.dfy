/** What `BusModel` says of whole runs: how messages are routed, what the server sees, and recovery. */
module BusRuns {
  import opened Bytes
  import opened BusModel

  lemma {:induction false} RunSnoc(b: Bus, es: seq<Event>, e: Event)
    ensures Run(b, es + [e]) == Step(Run(b, es), e)
    ensures LegalRun(b, es + [e]) <==> LegalRun(b, es) && Legal(Run(b, es), e)
    decreases es
  {
    hide Step, Legal;
    if es == [] {
      assert es + [e] == [e] && [e][1..] == [];
      assert Run(Step(b, e), []) == Step(b, e) && LegalRun(Step(b, e), []);
    } else {
      assert (es + [e])[0] == es[0] && (es + [e])[1..] == es[1..] + [e];
      RunSnoc(Step(b, es[0]), es[1..], e);
    }
  }

  // ---- open or not ----

  /** A connection came up, and neither has it gone down nor was a `Close` accepted since. */
  predicate OpenNow(es: seq<Event>) {
    es != [] &&
    var before := OpenNow(es[..|es| - 1]);
    match es[|es| - 1]
    case EvOnOpen => true
    case EvOnClose => false
    case EvOnFail => false
    case EvClose(ok) => before && !ok
    case _ => before
  }

  lemma OpenStep(b: Bus, e: Event)
    ensures Step(b, e).state == Open <==>
            match e
            case EvOnOpen => true
            case EvOnClose => false
            case EvOnFail => false
            case EvClose(ok) => b.state == Open && !ok
            case _ => b.state == Open
  {
    hide RegisterStep, UnregisterStep, MessageStep;
    if e.EvRegister? || e.EvUnregister? || e.EvOnMessage? {
      StateKept(b, e);
    }
  }

  lemma StateKept(b: Bus, e: Event)
    requires e.EvRegister? || e.EvUnregister? || e.EvOnMessage?
    ensures Step(b, e).state == b.state
  {
  }

  lemma {:induction false} OpenIsOpenNow(es: seq<Event>)
    ensures Run(FRESH, es).state == Open <==> OpenNow(es)
  {
    hide Run, Step;
    if es == [] {
      RunOfNothing(FRESH);
    } else {
      var before, e := es[..|es| - 1], es[|es| - 1];
      assert es == before + [e];
      RunSnoc(FRESH, before, e);
      OpenIsOpenNow(before);
      OpenStep(Run(FRESH, before), e);
    }
  }

  // ---- messages ----

  /** Positions of the messages in a run: payloads that parse and whose address converts. */
  function Messages(es: seq<Event>): (ks: seq<nat>)
    ensures forall i | 0 <= i < |ks| :: ks[i] < |es| && es[ks[i]].EvOnMessage? && es[ks[i]].incoming.Message?
    ensures forall i, j | 0 <= i < j < |ks| :: ks[i] < ks[j]
    ensures forall k | 0 <= k < |es| && es[k].EvOnMessage? && es[k].incoming.Message? :: k in ks
  {
    if es == [] then []
    else
      var ks := Messages(es[..|es| - 1]);
      var e := es[|es| - 1];
      if e.EvOnMessage? && e.incoming.Message? then ks + [|es| - 1] else ks
  }

  /** The handlers of `a` that the calls so far have registered, in order, and not taken back. */
  function Live(es: seq<Event>, a: bytes): seq<Pair> {
    if es == [] then []
    else
      var before := es[..|es| - 1];
      var open := OpenNow(before);
      match es[|es| - 1]
      case EvRegister(x, h, f, _) => if x == a && open && !h.NoHandler? then Live(before, a) + [Pair(h, f)] else Live(before, a)
      case EvUnregister(x, h, _) => if x == a && open then Remaining(Live(before, a), h) else Live(before, a)
      case EvOnClose => []
      case _ => Live(before, a)
  }

  lemma {:induction false} HandlersAreLive(es: seq<Event>, a: bytes)
    ensures HandlersAt(Run(FRESH, es).handlers, a) == Live(es, a)
  {
    hide Run, OpenNow;
    if es == [] {
      RunOfNothing(FRESH);
    } else {
      var before, e := es[..|es| - 1], es[|es| - 1];
      assert es == before + [e];
      RunSnoc(FRESH, before, e);
      HandlersAreLive(before, a);
      OpenIsOpenNow(before);
      HandlersStep(Run(FRESH, before), e, a);
    }
  }

  lemma RunOfNothing(b: Bus)
    ensures Run(b, []) == b && LegalRun(b, [])
  {
  }

  /**
    * Unregistering a plain function takes out the first pair that has it, if any; without a handler
    * it takes out all; any other handler is never found.
    */
  lemma {:induction false} RemainingMeans(list: seq<Pair>, h: Handler)
    ensures h.NoHandler? ==> Remaining(list, h) == []
    ensures h.Closure? ==> Remaining(list, h) == list
    ensures h.Plain? && (forall i | 0 <= i < |list| :: list[i].reply != h) ==> Remaining(list, h) == list
    ensures forall k | 0 <= k < |list| && h.Plain? && list[k].reply == h && (forall i | 0 <= i < k :: list[i].reply != h) ::
              Remaining(list, h) == list[..k] + list[k + 1..]
  {
    if h.Plain? {
      if forall i | 0 <= i < |list| :: list[i].reply != h {
        NoneRemoved(list, h);
      }
      forall k | 0 <= k < |list| && list[k].reply == h && (forall i | 0 <= i < k :: list[i].reply != h)
        ensures RemoveFirst(list, h) == list[..k] + list[k + 1..]
      {
        FirstRemoved(list, h, k);
      }
    }
  }

  lemma {:induction false} NoneRemoved(list: seq<Pair>, h: Handler)
    requires forall i | 0 <= i < |list| :: list[i].reply != h
    ensures RemoveFirst(list, h) == list
  {
    if list != [] {
      NoneRemoved(list[1..], h);
    }
  }

  lemma {:induction false} FirstRemoved(list: seq<Pair>, h: Handler, k: nat)
    requires k < |list| && list[k].reply == h && forall i | 0 <= i < k :: list[i].reply != h
    ensures RemoveFirst(list, h) == list[..k] + list[k + 1..]
  {
    if k > 0 {
      FirstRemoved(list[1..], h, k - 1);
      assert list[..k] == [list[0]] + list[1..][..k - 1] && list[1..][k..] == list[k + 1..];
    }
  }

  lemma HandlersStep(b: Bus, e: Event, a: bytes)
    ensures HandlersAt(Step(b, e).handlers, a) ==
            match e
            case EvRegister(x, h, f, _) =>
              if x == a && b.state == Open && !h.NoHandler? then HandlersAt(b.handlers, a) + [Pair(h, f)] else HandlersAt(b.handlers, a)
            case EvUnregister(x, h, _) =>
              if x == a && b.state == Open then Remaining(HandlersAt(b.handlers, a), h) else HandlersAt(b.handlers, a)
            case EvOnClose => []
            case _ => HandlersAt(b.handlers, a)
  {
  }

  /**
    * The pair waiting for a reply at `a`, if any: stored by a call that handed out this address,
    * and neither used up by a message that found no handlers nor dropped with the connection.
    */
  function Pending(es: seq<Event>, a: bytes): seq<Pair> {
    if es == [] then []
    else
      var before := es[..|es| - 1];
      match es[|es| - 1]
      case EvSend(_, h, f, r, _) =>
        if r == a && !h.NoHandler? && OpenNow(before) then [Pair(h, f)] else Pending(before, a)
      case EvOnMessage(m) => if m.Message? && m.address == a && Live(before, a) == [] then [] else Pending(before, a)
      case EvOnClose => []
      case _ => Pending(before, a)
  }

  function ReplyAt(b: Bus, a: bytes): seq<Pair> {
    if a in b.replies then [b.replies[a]] else []
  }

  lemma {:induction false} RepliesArePending(es: seq<Event>, a: bytes)
    ensures ReplyAt(Run(FRESH, es), a) == Pending(es, a)
  {
    hide Run, Live, ReplyAt, OpenNow;
    if es == [] {
      RunOfNothing(FRESH);
      NoReply(a);
    } else {
      var before, e := es[..|es| - 1], es[|es| - 1];
      assert es == before + [e];
      RunSnoc(FRESH, before, e);
      RepliesArePending(before, a);
      HandlersAreLive(before, a);
      OpenIsOpenNow(before);
      ReplyStep(Run(FRESH, before), e, a);
    }
  }

  lemma NoReply(a: bytes)
    ensures ReplyAt(FRESH, a) == []
  {
  }

  lemma ReplyStep(b: Bus, e: Event, a: bytes)
    ensures ReplyAt(Step(b, e), a) ==
            match e
            case EvSend(_, h, f, r, _) => if r == a && !h.NoHandler? && b.state == Open then [Pair(h, f)] else ReplyAt(b, a)
            case EvOnMessage(m) =>
              if m.Message? && m.address == a && HandlersAt(b.handlers, a) == [] then [] else ReplyAt(b, a)
            case EvOnClose => []
            case _ => ReplyAt(b, a)
  {
  }

  /** The pairs with a failure handler, in order. */
  function Failing(list: seq<Pair>): seq<Pair> {
    if list == [] then [] else (if list[0].failure.NoHandler? then [] else [list[0]]) + Failing(list[1..])
  }

  /** What a list of pairs is called for: every reply handler, every failure handler that is set, or nothing. */
  ghost predicate CallsOf(calls: seq<Call>, list: seq<Pair>, how: How) {
    match how
    case AsReply => |calls| == |list| && forall i | 0 <= i < |list| :: calls[i] == ReplyCall(list[i].reply)
    case AsFailure =>
      && |calls| == |Failing(list)|
      && forall i | 0 <= i < |calls| :: calls[i] == FailureCall(Failing(list)[i].failure)
    case AsThrow => calls == []
  }

  lemma {:induction false} AllCallsInOrder(list: seq<Pair>, how: How)
    ensures CallsOf(AllCalls(list, how), list, how)
  {
    if list != [] {
      AllCallsInOrder(list[1..], how);
    }
  }

  /** Route `r` is right for message `m` coming after `es`. */
  ghost predicate Explains(es: seq<Event>, m: Incoming, r: Route)
    requires m.Message?
  {
    RouteFor(Live(es, m.address), Pending(es, m.address), m, r)
  }

  /** Route `r` is right for message `m` at a client with these handlers and this waiting pair. */
  ghost predicate RouteFor(handlers: seq<Pair>, pending: seq<Pair>, m: Incoming, r: Route)
    requires m.Message?
  {
    if handlers != [] then r.ToHandlers? && r.address == m.address && CallsOf(r.calls, handlers, m.how)
    else if pending != [] then r.ToReply? && r.address == m.address && CallsOf(r.calls, pending, m.how)
    else r == if m.how.AsFailure? then ToFailureCallback else ToLog
  }

  lemma MessageRouted(b: Bus, m: Incoming)
    requires m.Message?
    ensures var routes := Step(b, EvOnMessage(m)).routes;
            && |routes| == |b.routes| + 1 && routes[..|b.routes|] == b.routes
            && RouteFor(HandlersAt(b.handlers, m.address), ReplyAt(b, m.address), m, routes[|b.routes|])
  {
    hide AllCalls, CallsOf;
    AllCallsInOrder(HandlersAt(b.handlers, m.address), m.how);
    if m.address in b.replies {
      AllCallsInOrder([b.replies[m.address]], m.how);
      OnePair(b.replies[m.address], m.how);
    }
  }

  lemma MessageExplained(es: seq<Event>, m: Incoming)
    requires m.Message?
    ensures var b := Run(FRESH, es);
            var routes := Step(b, EvOnMessage(m)).routes;
            |routes| == |b.routes| + 1 && routes[..|b.routes|] == b.routes && Explains(es, m, routes[|b.routes|])
  {
    hide Run, Step, Live, Pending, HandlersAt, ReplyAt, RouteFor;
    HandlersAreLive(es, m.address);
    RepliesArePending(es, m.address);
    MessageRouted(Run(FRESH, es), m);
  }

  lemma OnePair(p: Pair, how: How)
    ensures AllCalls([p], how) == CallsFor(p, how)
  {
    assert [p][1..] == [];
  }

  lemma RoutesStep(b: Bus, e: Event)
    requires !(e.EvOnMessage? && e.incoming.Message?)
    ensures Step(b, e).routes == b.routes
  {
  }

  /** Event `k` of the run is a message and `r` is right for it. */
  ghost predicate ExplainedAt(es: seq<Event>, k: nat, r: Route) {
    k < |es| && es[k].EvOnMessage? && es[k].incoming.Message? && Explains(es[..k], es[k].incoming, r)
  }

  lemma ExplainedStays(es: seq<Event>, e: Event, k: nat, r: Route)
    requires ExplainedAt(es, k, r)
    ensures ExplainedAt(es + [e], k, r)
  {
    hide Explains;
    assert (es + [e])[..k] == es[..k];
  }

  lemma ExplainedLast(es: seq<Event>, m: Incoming)
    requires m.Message?
    ensures var b := Run(FRESH, es);
            var routes := Step(b, EvOnMessage(m)).routes;
            && |routes| == |b.routes| + 1 && routes[..|b.routes|] == b.routes
            && ExplainedAt(es + [EvOnMessage(m)], |es|, routes[|b.routes|])
  {
    hide Explains, Step, Run;
    MessageExplained(es, m);
    assert (es + [EvOnMessage(m)])[..|es|] == es;
  }

  /**
    * In every run there is one route for each message, in order. A message goes to the handlers
    * registered for its address at that moment and not taken back, all of them in order; if there
    * are none, to the pair waiting for a reply there, which is then gone; if there is none of
    * those either, to the failure callback or the log. An error calls just the failure handlers
    * that are set, in order.
    */
  lemma {:induction false} RoutesExplained(es: seq<Event>)
    ensures var ks, routes := Messages(es), Run(FRESH, es).routes;
            |routes| == |ks| && forall i | 0 <= i < |ks| :: ExplainedAt(es, ks[i], routes[i])
  {
    hide Run, ExplainedAt, Step, Messages;
    MessagesSnoc(es);
    if es == [] {
      RunOfNothing(FRESH);
    } else {
      var before, e := es[..|es| - 1], es[|es| - 1];
      assert es == before + [e];
      RunSnoc(FRESH, before, e);
      RoutesExplained(before);
      var ks, sofar := Messages(before), Run(FRESH, before).routes;
      var routes := Run(FRESH, es).routes;
      forall i | 0 <= i < |ks| ensures ExplainedAt(es, ks[i], sofar[i]) {
        ExplainedStays(before, e, ks[i], sofar[i]);
      }
      if e.EvOnMessage? && e.incoming.Message? {
        ExplainedLast(before, e.incoming);
        assert e == EvOnMessage(e.incoming) && ExplainedAt(es, |before|, routes[|ks|]);
        assert forall i | 0 <= i < |ks| :: routes[i] == routes[..|ks|][i];
      } else {
        RoutesStep(Run(FRESH, before), e);
      }
    }
  }

  lemma MessagesSnoc(es: seq<Event>)
    ensures Messages(es) ==
            if es == [] then []
            else
              var e := es[|es| - 1];
              Messages(es[..|es| - 1]) + if e.EvOnMessage? && e.incoming.Message? then [|es| - 1] else []
  {
  }

  // ---- what is handed to the endpoint ----

  /**
    * What event `e` after `before` hands over, from the calls alone: one envelope for each send and
    * one ping for each time-out while open, a registration for the first handler of an address, an
    * unregistration when its last one goes, and nothing else.
    */
  function NewFrames(before: seq<Event>, e: Event): seq<Sent> {
    if !OpenNow(before) then []
    else
      match e
      case EvSend(a, _, _, _, ok) => [Sent(Envelope(a), ok)]
      case EvPingTimeout(ok) => [Sent(Ping, ok)]
      case EvRegister(a, h, _, ok) => if !h.NoHandler? && Live(before, a) == [] then [Sent(Register(a), ok)] else []
      case EvUnregister(a, h, ok) =>
        if Live(before, a) != [] && Remaining(Live(before, a), h) == [] then [Sent(Unregister(a), ok)] else []
      case _ => []
  }

  /** The frames of each connection, cut at the close callbacks; the last one is still up, or to come. */
  function Connections(es: seq<Event>): (cs: seq<seq<Sent>>)
    ensures |cs| > 0
  {
    if es == [] then [[]]
    else
      var before, e := es[..|es| - 1], es[|es| - 1];
      var cs := Connections(before);
      if e.EvOnClose? then cs + [[]] else cs[..|cs| - 1] + [cs[|cs| - 1] + NewFrames(before, e)]
  }

  lemma FramesGrow(b: Bus, e: Event)
    ensures var b' := Step(b, e);
            if e.EvOnClose? then b'.past == b.past + [b.frames] && b'.frames == []
            else
              && b'.past == b.past
              && b'.frames == b.frames +
                 if b.state != Open then []
                 else
                   match e
                   case EvSend(a, _, _, _, ok) => [Sent(Envelope(a), ok)]
                   case EvPingTimeout(ok) => [Sent(Ping, ok)]
                   case EvRegister(a, h, _, ok) =>
                     if !h.NoHandler? && HandlersAt(b.handlers, a) == [] then [Sent(Register(a), ok)] else []
                   case EvUnregister(a, h, ok) =>
                     var list := HandlersAt(b.handlers, a);
                     if list != [] && Remaining(list, h) == [] then [Sent(Unregister(a), ok)] else []
                   case _ => []
  {
    hide Remaining, AllCalls;
    assert b.frames + [] == b.frames;
  }

  /**
    * In every run, what the endpoint was handed on each connection is exactly that, in order, each
    * frame with its address and whether it was taken.
    */
  lemma {:induction false} FramesHanded(es: seq<Event>)
    ensures var b, cs := Run(FRESH, es), Connections(es); b.past == cs[..|cs| - 1] && b.frames == cs[|cs| - 1]
  {
    hide Run, Step, NewFrames, Connections;
    ConnectionsStep(es);
    if es == [] {
      RunOfNothing(FRESH);
    } else {
      var before, e := es[..|es| - 1], es[|es| - 1];
      assert es == before + [e];
      RunSnoc(FRESH, before, e);
      FramesHanded(before);
      var b := Run(FRESH, before);
      FramesNew(before, e);
      assert b.past + [b.frames] == Connections(before);
    }
  }

  lemma ConnectionsStep(es: seq<Event>)
    ensures Connections(es) ==
            if es == [] then [[]]
            else
              var before, e := es[..|es| - 1], es[|es| - 1];
              var cs := Connections(before);
              if e.EvOnClose? then cs + [[]] else cs[..|cs| - 1] + [cs[|cs| - 1] + NewFrames(before, e)]
  {
    hide NewFrames;
  }

  lemma FramesNew(before: seq<Event>, e: Event)
    ensures var b := Run(FRESH, before);
            var b' := Step(b, e);
            if e.EvOnClose? then b'.past == b.past + [b.frames] && b'.frames == []
            else b'.past == b.past && b'.frames == b.frames + NewFrames(before, e)
  {
    hide Run, Step, Live, OpenNow, Remaining, HandlersAt;
    OpenIsOpenNow(before);
    if e.EvRegister? || e.EvUnregister? {
      HandlersAreLive(before, e.address);
    }
    FramesGrow(Run(FRESH, before), e);
  }

  /**
    * Calls that send answer true exactly when the client was open, the handler to register was set
    * and the endpoint took every frame handed over; `Connect` when an attempt is under way that was
    * not; `Close` when it turns the open client to closing.
    */
  lemma AnswersExactly(b: Bus, e: Event)
    requires Inv(b)
    ensures var b' := Step(b, e);
            && (e.EvConnect? ==> (Answer(b, e) <==> b.endpoint != Attempting && b'.endpoint == Attempting))
            && (e.EvClose? ==> (Answer(b, e) <==> b.state == Open && b'.state == Closing))
            && (e.EvRegister? || e.EvUnregister? || e.EvSend? ==>
                  (Answer(b, e) <==>
                   && b.state == Open && !(e.EvRegister? && e.reply.NoHandler?)
                   && forall i | |b.frames| <= i < |b'.frames| :: b'.frames[i].delivered))
  {
    hide FramesOk, RepliesOk, QuietWhenDown, Remaining;
    FramesGrow(b, e);
    var b' := Step(b, e);
    if |b.frames| < |b'.frames| {
      assert b'.frames == b.frames + [b'.frames[|b.frames|]];
    }
  }

  // ---- what the server sees ----

  predicate IsToggle(s: Sent, a: bytes) {
    s.frame == Register(a) || s.frame == Unregister(a)
  }

  /** How many frames for `a` in a row the endpoint has refused since the last one it took. */
  function LostSince(frames: seq<Sent>, a: bytes): nat {
    if frames == [] then 0
    else
      var before, s := frames[..|frames| - 1], frames[|frames| - 1];
      if !IsToggle(s, a) then LostSince(before, a) else if s.delivered then 0 else LostSince(before, a) + 1
  }

  /** Frames for `a` are lost in pairs: an even number before each one that goes through. */
  ghost predicate LostInPairs(frames: seq<Sent>, a: bytes) {
    forall i | 0 <= i < |frames| && IsToggle(frames[i], a) && frames[i].delivered :: LostSince(frames[..i], a) % 2 == 0
  }

  /** Registered, going by the last of the frames. */
  predicate Registered(t: seq<bool>) {
    t != [] && t[|t| - 1]
  }

  lemma AlternatesGrows(t: seq<bool>, v: bool)
    ensures Alternates(t + [v]) <==> Alternates(t) && v == !Registered(t)
  {
    var u := t + [v];
    assert forall i | 0 <= i < |t| :: u[i] == t[i];
    assert u[|t|] == v;
    if Alternates(u) {
      assert forall i | 0 <= i < |t| :: t[i] == (i % 2 == 0);
    }
    if Alternates(t) && t != [] {
      assert t[|t| - 1] == (|t| % 2 == 1);
    }
  }

  lemma {:induction false} DeliveredSnoc(frames: seq<Sent>, s: Sent)
    ensures Delivered(frames + [s]) == Delivered(frames) + if s.delivered then [s] else []
  {
    assert (frames + [s])[..|frames|] == frames;
  }

  lemma LostSnoc(frames: seq<Sent>, s: Sent, a: bytes)
    ensures LostSince(frames + [s], a) ==
            if !IsToggle(s, a) then LostSince(frames, a) else if s.delivered then 0 else LostSince(frames, a) + 1
    ensures LostInPairs(frames + [s], a) <==>
            LostInPairs(frames, a) && (IsToggle(s, a) && s.delivered ==> LostSince(frames, a) % 2 == 0)
  {
    hide LostSince;
    var more := frames + [s];
    assert more[..|frames|] == frames && more[|frames|] == s;
    assert forall i | 0 <= i < |frames| :: more[i] == frames[i] && more[..i] == frames[..i];
    LastLost(frames, s, a);
  }

  lemma LastLost(frames: seq<Sent>, s: Sent, a: bytes)
    ensures LostSince(frames + [s], a) ==
            if !IsToggle(s, a) then LostSince(frames, a) else if s.delivered then 0 else LostSince(frames, a) + 1
  {
    assert (frames + [s])[..|frames|] == frames;
  }

  /**
    * Of frames handed over in turn, those that go through are in turn exactly when they are lost in
    * pairs; and what the last of them says is right exactly when an even number was lost since.
    */
  lemma {:induction false} DeliveredExactly(frames: seq<Sent>, a: bytes)
    requires Alternates(Toggles(frames, a))
    ensures Alternates(Toggles(Delivered(frames), a)) <==> LostInPairs(frames, a)
    ensures Registered(Toggles(Delivered(frames), a)) == Registered(Toggles(frames, a)) <==> LostSince(frames, a) % 2 == 0
  {
    hide Toggles, Delivered, LostSince, LostInPairs, Alternates;
    if frames == [] {
      NothingLost(a);
    } else {
      var before, s := frames[..|frames| - 1], frames[|frames| - 1];
      assert frames == before + [s];
      TogglesSnoc(before, s, a);
      DeliveredSnoc(before, s);
      LostSnoc(before, s, a);
      var t, u := Toggles(before, a), Toggles(Delivered(before), a);
      if IsToggle(s, a) {
        var v := s.frame == Register(a);
        assert Toggles(frames, a) == t + [v];
        AlternatesGrows(t, v);
        DeliveredExactly(before, a);
        if s.delivered {
          TogglesSnoc(Delivered(before), s, a);
          assert Toggles(Delivered(frames), a) == u + [v];
          AlternatesGrows(u, v);
        } else {
          assert Delivered(before) + [] == Delivered(before);
        }
      } else {
        assert t + [] == t;
        DeliveredExactly(before, a);
        TogglesSnoc(Delivered(before), s, a);
        assert Delivered(before) + [] == Delivered(before) && u + [] == u;
      }
    }
  }

  lemma NothingLost(a: bytes)
    ensures Toggles([], a) == [] && Delivered([]) == [] && LostSince([], a) == 0 && LostInPairs([], a) && Alternates([])
  {
  }

  /**
    * On every connection of every run, what the server gets for an address is in turn exactly when
    * frames for it are lost in pairs. On the current connection the server's registration agrees
    * with the local handlers exactly when an even number was lost since the last that went through.
    */
  lemma DeliveredAlternateExactly(es: seq<Event>, a: bytes)
    requires LegalRun(FRESH, es)
    ensures var b := Run(FRESH, es);
            var seen := Toggles(Delivered(b.frames), a);
            && (Alternates(seen) <==> LostInPairs(b.frames, a))
            && ((Registered(seen) <==> HandlersAt(b.handlers, a) != []) <==> LostSince(b.frames, a) % 2 == 0)
            && forall i | 0 <= i < |b.past| ::
                 Alternates(Toggles(Delivered(b.past[i]), a)) <==> LostInPairs(b.past[i], a)
  {
    hide Toggles, Delivered, LostSince, LostInPairs, Alternates, HandlersAt, LegalRun, Run;
    var b := Run(FRESH, es);
    FramesAlternate(es, a);
    DeliveredExactly(b.frames, a);
    forall i | 0 <= i < |b.past| ensures Alternates(Toggles(Delivered(b.past[i]), a)) <==> LostInPairs(b.past[i], a) {
      DeliveredExactly(b.past[i], a);
    }
  }

  // ---- recovery ----

  /** Some course of events the endpoint may take and calls the application may make opens the client. */
  ghost predicate CanOpen(b: Bus) {
    exists es :: LegalRun(b, es) && Run(b, es).state == Open
  }

  /** No endpoint event is to come, and the state is one in which `Connect` is refused. */
  predicate Stuck(b: Bus) {
    b.endpoint == Idle && b.state in {Connecting, Closing}
  }

  /** Holds of every state of a client, also in the middle of a `Close`. */
  predicate Sound(b: Bus) {
    (b.state == Open ==> b.endpoint == Up) && (b.endpoint == Idle ==> b.pingThreads == 0)
  }

  /** From then on every call is refused and nothing ever changes. */
  lemma {:induction false} StuckForever(b: Bus, es: seq<Event>)
    requires Sound(b) && Stuck(b) && LegalRun(b, es)
    ensures Run(b, es) == b && forall i | 0 <= i < |es| :: !Answer(b, es[i])
    decreases es
  {
    if es != [] {
      assert es[0].EvConnect? || es[0].EvClose? || es[0].EvRegister? || es[0].EvUnregister? || es[0].EvSend?;
      assert Step(b, es[0]) == b;
      StuckForever(b, es[1..]);
    }
  }

  lemma {:induction false} Opens(b: Bus, es: seq<Event>, e: Event)
    requires Legal(b, e) && LegalRun(Step(b, e), es) && Run(Step(b, e), es).state == Open
    ensures LegalRun(b, [e] + es) && Run(b, [e] + es).state == Open
  {
    hide Step, Legal;
    assert ([e] + es)[1..] == es;
  }

  /** A client can be opened again exactly when it is not stuck. */
  lemma CanOpenExactly(b: Bus)
    requires Sound(b)
    ensures CanOpen(b) <==> !Stuck(b)
  {
    hide Run, LegalRun;
    if Stuck(b) {
      forall es | LegalRun(b, es) ensures Run(b, es).state != Open {
        StuckForever(b, es);
      }
    } else {
      var es := WayToOpen(b);
    }
  }

  lemma WayToOpen(b: Bus) returns (es: seq<Event>)
    requires Sound(b) && !Stuck(b)
    ensures LegalRun(b, es) && Run(b, es).state == Open
  {
    hide Run, LegalRun;
    es := [];
    if b.endpoint == Up {
      var c := Step(b, EvOnClose);
      es := FromClosed(c);
      Opens(b, es, EvOnClose);
      es := [EvOnClose] + es;
    } else if b.endpoint == Attempting {
      RunOfNothing(Step(b, EvOnOpen));
      Opens(b, [], EvOnOpen);
      es := [EvOnOpen] + [];
    } else {
      es := FromClosed(b);
    }
  }

  lemma FromClosed(b: Bus) returns (es: seq<Event>)
    requires b.state == Closed
    ensures LegalRun(b, es) && Run(b, es).state == Open
  {
    hide Run, LegalRun;
    var c := Step(b, EvConnect(true));
    RunOfNothing(Step(c, EvOnOpen));
    Opens(c, [], EvOnOpen);
    es := [EvOnOpen] + [];
    Opens(b, es, EvConnect(true));
    es := [EvConnect(true)] + es;
  }

  /** Some `Connect` in the run was made on a closed client and its URL rejected. */
  predicate EverRejected(b: Bus, es: seq<Event>)
    decreases es
  {
    es != [] && ((es[0] == EvConnect(false) && b.state == Closed) || EverRejected(Step(b, es[0]), es[1..]))
  }

  lemma StuckStep(b: Bus, e: Event)
    requires Inv(b) && Legal(b, e)
    ensures Stuck(Step(b, e)) <==> Stuck(b) || (e == EvConnect(false) && b.state == Closed)
    ensures Sound(b)
  {
    hide FramesOk, RepliesOk;
  }

  lemma {:induction false} StuckRun(b: Bus, es: seq<Event>)
    requires Inv(b) && LegalRun(b, es)
    ensures Stuck(Run(b, es)) <==> Stuck(b) || EverRejected(b, es)
    decreases es
  {
    hide Inv, Step, Legal;
    if es != [] {
      StuckStep(b, es[0]);
      InvStep(b, es[0]);
      StuckRun(Step(b, es[0]), es[1..]);
    }
  }

  /**
    * With every call atomic, a client is cut off for good exactly when at some time a URL was
    * rejected in a `Connect` on the closed client: it stays connecting with no callback to come.
    */
  lemma RejectedUrlExactly(es: seq<Event>)
    requires LegalRun(FRESH, es)
    ensures CanOpen(Run(FRESH, es)) <==> !EverRejected(FRESH, es)
    ensures EverRejected(FRESH, es) ==>
              var b := Run(FRESH, es);
              forall more | LegalRun(b, more) :: Run(b, more) == b && forall i | 0 <= i < |more| :: !Answer(b, more[i])
  {
    hide Inv, Run, LegalRun, EverRejected, CanOpen, Answer;
    var b := Run(FRESH, es);
    FreshInv();
    StuckRun(FRESH, es);
    InvRun(FRESH, es);
    InvIsSound(b);
    CanOpenExactly(b);
    if Stuck(b) {
      forall more | LegalRun(b, more)
        ensures Run(b, more) == b && forall i | 0 <= i < |more| :: !Answer(b, more[i])
      {
        StuckForever(b, more);
      }
    }
  }

  lemma InvIsSound(b: Bus)
    requires Inv(b)
    ensures Sound(b)
  {
    hide FramesOk, RepliesOk;
  }

  /** One `Connect` with a rejected URL on a fresh client is enough. */
  lemma RejectedUrl()
    ensures LegalRun(FRESH, [EvConnect(false)]) && !CanOpen(Run(FRESH, [EvConnect(false)]))
  {
    hide CanOpen, Run, LegalRun;
    assert [] + [EvConnect(false)] == [EvConnect(false)];
    RunOfNothing(FRESH);
    RunSnoc(FRESH, [], EvConnect(false));
    RejectedUrlExactly([EvConnect(false)]);
  }
}
