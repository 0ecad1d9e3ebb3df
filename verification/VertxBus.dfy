/** `VertxBus` as the object it is, each call and callback taken as atomic, against `BusModel`. */
module VertxBus {
  import opened Bytes
  import opened JsonValue
  import opened JsonMap
  import opened JsonNumber
  import opened JsonToken
  import opened JsonParse
  import opened JsonWriter
  import opened JsonReader
  import opened BusModel

  const ADDRESS: bytes := [0x61, 0x64, 0x64, 0x72, 0x65, 0x73, 0x73]
  const REPLY_ADDRESS: bytes := [0x72, 0x65, 0x70, 0x6C, 0x79, 0x41, 0x64, 0x64, 0x72, 0x65, 0x73, 0x73]
  const TYPE: bytes := [0x74, 0x79, 0x70, 0x65]
  const ERR: bytes := [0x65, 0x72, 0x72]

  /** `asString`, which throws on containers. */
  function AsString(v: Value, show: Show): Option<bytes> {
    match v
    case Null => Some([])
    case String(s) => Some(s)
    case Bool(b) => Some(if b then TRUE_TEXT else FALSE_TEXT)
    case Int(i) => Some(IntText(i))
    case UInt(u) => Some(Digits(u))
    case Real(r) => Some(show(r))
    case _ => None
  }

  /** `empty()`, on which the reply address is replaced by the empty string. */
  predicate IsEmpty(v: Value) {
    v.Null? || (IsContainer(v) && v.entries == [])
  }

  function HowToCall(es: seq<Entry>): How {
    if Lookup(es, Name(TYPE)) == Some(String(ERR)) then AsFailure
    else
      var replyTo := Lookup(es, Name(REPLY_ADDRESS));
      if replyTo.Some? && IsContainer(replyTo.value) && !IsEmpty(replyTo.value) then AsThrow else AsReply
  }

  /** How `OnMessage` understands a parsed payload. `get` throws on anything but an object or null. */
  function Interpret(v: Value, show: Show): Incoming {
    if !v.Null? && !v.Object? then Throws
    else
      var es := if v.Object? then v.entries else [];
      var address := Lookup(es, Name(ADDRESS));
      var text := AsString(if address.Some? then address.value else Null, show);
      if text.None? then Throws else Message(text.value, HowToCall(es))
  }

  function Receive(payload: bytes, scan: bytes -> Option<real>, show: Show): Incoming {
    match ReadValue(Doc(payload, scan), 0, 0)
    case Parsed(v, _) => Interpret(v, show)
    case Failed(_, _) => Unparsed
    case Thrown => Throws
  }

  lemma {:induction false} NoCalls(list: seq<Pair>)
    ensures AllCalls(list, AsThrow) == []
  {
    if list != [] {
      NoCalls(list[1..]);
    }
  }

  lemma SearchStep(list: seq<Pair>, i: nat, h: Handler)
    requires i < |list|
    ensures list[..i] + RemoveFirst(list[i..], h) ==
            if list[i].reply == h then list[..i] + list[i + 1..] else list[..i + 1] + RemoveFirst(list[i + 1..], h)
  {
    assert list[i..][1..] == list[i + 1..];
    assert list[..i + 1] == list[..i] + [list[i]];
  }

  lemma SearchEnd(list: seq<Pair>, h: Handler)
    ensures list[..|list|] + RemoveFirst(list[|list|..], h) == list
  {
  }

  class VertxBus {
    var state: State
    var handlers: map<bytes, seq<Pair>>
    var replies: map<bytes, Pair>
    var doPing: bool
    var pingThreads: nat
    const scan: bytes -> Option<real>
    const show: Show
    // The endpoint's side, and the history.
    ghost var endpoint: Endpoint
    ghost var frames: seq<Sent>
    ghost var past: seq<seq<Sent>>
    ghost var used: set<bytes>
    ghost var routes: seq<Route>

    ghost function Model(): Bus
      reads this
    {
      Bus(state, endpoint, handlers, replies, doPing, pingThreads, frames, past, used, routes)
    }

    ghost predicate Valid()
      reads this
    {
      Inv(Model())
    }

    constructor (scan: bytes -> Option<real>, show: Show)
      ensures Valid() && Model() == FRESH
    {
      this.scan, this.show := scan, show;
      state, handlers, replies, doPing, pingThreads := Closed, map[], map[], false, 0;
      endpoint, frames, past, used, routes := Idle, [], [], {}, [];
      new;
      FreshInv();
    }

    /** Hand a frame to the endpoint, which takes it or not. */
    method Send(frame: Frame, taken: bool)
      modifies this`frames
      ensures frames == old(frames) + [Sent(frame, taken)]
    {
      frames := frames + [Sent(frame, taken)];
    }

    /** A client that is not closed is left exactly as it was. */
    method Connect(accepted: bool) returns (ok: bool)
      requires Valid()
      modifies this
      ensures Valid() && Model() == Step(old(Model()), EvConnect(accepted)) && ok == Answer(old(Model()), EvConnect(accepted))
      ensures old(state) != Closed ==> Model() == old(Model()) && !ok
    {
      InvStep(Model(), EvConnect(accepted));
      if state != Closed {
        return false;
      }
      state := Connecting;
      if !accepted {
        return false;
      }
      endpoint := Attempting;
      return true;
    }

    method RegisterHandler(address: bytes, reply: Handler, failure: Handler, taken: bool) returns (ok: bool)
      requires Valid()
      modifies this
      ensures Valid() && Model() == Step(old(Model()), EvRegister(address, reply, failure, taken))
      ensures ok == Answer(old(Model()), EvRegister(address, reply, failure, taken))
    {
      InvStep(Model(), EvRegister(address, reply, failure, taken));
      if state != Open || reply.NoHandler? {
        return false;
      }
      var list := HandlersAt(handlers, address);
      var doReg := list == [];
      handlers := handlers[address := list + [Pair(reply, failure)]];
      if doReg {
        Send(Register(address), taken);
        return taken;
      }
      return true;
    }

    method UnregisterHandler(address: bytes, reply: Handler, taken: bool) returns (ok: bool)
      requires Valid()
      modifies this
      ensures Valid() && Model() == Step(old(Model()), EvUnregister(address, reply, taken))
      ensures ok == Answer(old(Model()), EvUnregister(address, reply, taken))
    {
      InvStep(Model(), EvUnregister(address, reply, taken));
      if state != Open {
        return false;
      }
      var list := HandlersAt(handlers, address);
      handlers := handlers[address := list];
      if list != [] {
        var left := LeftAfter(list, reply);
        handlers := handlers[address := left];
        assert handlers == old(handlers)[address := left];
        if left == [] {
          Send(Unregister(address), taken);
          return taken;
        }
      }
      return true;
    }

    method LeftAfter(list: seq<Pair>, reply: Handler) returns (left: seq<Pair>)
      ensures left == Remaining(list, reply)
    {
      left := list;
      match reply
      case NoHandler => left := [];
      case Plain(_) => left := EraseFirst(list, reply);
      case Closure(_) =>
    }

    /** The search loop of `UnregisterHandler`, which erases at most one element. */
    method EraseFirst(list: seq<Pair>, reply: Handler) returns (left: seq<Pair>)
      ensures left == RemoveFirst(list, reply)
    {
      hide RemoveFirst;
      left := list;
      var found, i := false, 0;
      assert list[..0] == [] && list[0..] == list;
      while !found && i != |list|
        invariant 0 <= i <= |list|
        invariant !found ==> left == list && RemoveFirst(list, reply) == list[..i] + RemoveFirst(list[i..], reply)
        invariant found ==> left == RemoveFirst(list, reply)
        decreases |list| - i, !found
      {
        SearchStep(list, i, reply);
        if list[i].reply == reply {
          left := list[..i] + list[i + 1..];
          found := true;
        } else {
          i := i + 1;
        }
      }
      if !found {
        SearchEnd(list, reply);
      }
    }

    method SendOrPub(address: bytes, reply: Handler, failure: Handler, replyAddress: bytes, taken: bool) returns (ok: bool)
      requires Valid() && replyAddress !in used
      modifies this
      ensures Valid() && Model() == Step(old(Model()), EvSend(address, reply, failure, replyAddress, taken))
      ensures ok == Answer(old(Model()), EvSend(address, reply, failure, replyAddress, taken))
    {
      InvStep(Model(), EvSend(address, reply, failure, replyAddress, taken));
      if state != Open {
        return false;
      }
      if !reply.NoHandler? {
        replies := replies[replyAddress := Pair(reply, failure)];
        used := used + {replyAddress};
      }
      Send(Envelope(address), taken);
      return taken;
    }

    method Close(taken: bool) returns (ok: bool)
      requires Valid()
      modifies this
      ensures Valid() && Model() == Step(old(Model()), EvClose(taken)) && ok == Answer(old(Model()), EvClose(taken))
    {
      InvStep(Model(), EvClose(taken));
      if state != Open {
        return false;
      }
      if taken {
        state := Closing;
      }
      return taken;
    }

    method SendPing(taken: bool) returns (ok: bool)
      modifies this`frames
      ensures ok == (state == Open && taken)
      ensures frames == if state == Open then old(frames) + [Sent(Ping, taken)] else old(frames)
    {
      if state != Open {
        return false;
      }
      Send(Ping, taken);
      return taken;
    }

    method StartPingInterval()
      modifies this`doPing, this`pingThreads
      ensures doPing && pingThreads == if old(doPing) then old(pingThreads) else old(pingThreads) + 1
    {
      if doPing {
        return;
      }
      doPing := true;
      pingThreads := pingThreads + 1;
    }

    method StopPingInterval()
      modifies this`doPing, this`pingThreads
      ensures !doPing
      ensures pingThreads == if old(doPing) && old(pingThreads) > 0 then old(pingThreads) - 1 else old(pingThreads)
    {
      if !doPing {
        return;
      }
      doPing := false;
      if pingThreads > 0 {
        pingThreads := pingThreads - 1;
      }
    }

    /** The ping asked for here is not sent: the client is not open yet. */
    method OnOpen(taken: bool)
      requires Valid() && endpoint == Attempting
      modifies this
      ensures Valid() && Model() == Step(old(Model()), EvOnOpen)
    {
      InvStep(Model(), EvOnOpen);
      endpoint := Up;
      var _ := SendPing(taken);
      state := Open;
      StartPingInterval();
    }

    method OnClose()
      requires Valid() && endpoint == Up
      modifies this
      ensures Valid() && Model() == Step(old(Model()), EvOnClose)
    {
      InvStep(Model(), EvOnClose);
      endpoint := Idle;
      past, frames := past + [frames], [];
      state := Closed;
      StopPingInterval();
      replies := map[];
      handlers := map[];
    }

    method OnFail()
      requires Valid() && endpoint == Attempting
      modifies this
      ensures Valid() && Model() == Step(old(Model()), EvOnFail)
    {
      InvStep(Model(), EvOnFail);
      endpoint := Idle;
      state := Closed;
    }

    /** One turn of the ping thread's loop when its wait times out. */
    method OnPingTimeout(taken: bool)
      requires Valid() && pingThreads > 0
      modifies this
      ensures Valid() && Model() == Step(old(Model()), EvPingTimeout(taken))
    {
      InvStep(Model(), EvPingTimeout(taken));
      var _ := SendPing(taken);
    }

    method OnMessage(payload: bytes)
      requires Valid() && endpoint == Up
      modifies this
      ensures Valid() && Model() == Step(old(Model()), EvOnMessage(Receive(payload, scan, show)))
    {
      InvStep(Model(), EvOnMessage(Receive(payload, scan, show)));
      var reader := new Reader(scan);
      var thrown, parsed, json := reader.Parse(payload, Null);
      if thrown || !parsed {
        return;
      }
      var incoming := Interpret(json, show);
      if incoming.Throws? {
        return;
      }
      Dispatch(incoming.address, incoming.how);
    }

    method Dispatch(address: bytes, how: How)
      modifies this
      ensures Model() == MessageStep(old(Model()), address, how)
    {
      var list := HandlersAt(handlers, address);
      handlers := handlers[address := list];
      if list != [] {
        var calls := CallAll(list, how);
        routes := routes + [ToHandlers(address, calls)];
      } else if address in replies {
        var pair := replies[address];
        replies := replies - {address};
        routes := routes + [ToReply(address, CallsFor(pair, how))];
      } else if how.AsFailure? {
        routes := routes + [ToFailureCallback];
      } else {
        routes := routes + [ToLog];
      }
    }

    /** The loop over the copied handler list. */
    method CallAll(list: seq<Pair>, how: How) returns (calls: seq<Call>)
      ensures calls == AllCalls(list, how)
    {
      hide CallsFor;
      calls := [];
      for i := 0 to |list|
        invariant AllCalls(list, how) == calls + AllCalls(list[i..], how)
      {
        if how.AsThrow? {
          NoCalls(list[i..]);
          return;
        }
        ghost var rest := AllCalls(list[i + 1..], how);
        assert list[i..][1..] == list[i + 1..];
        assert calls + (CallsFor(list[i], how) + rest) == calls + CallsFor(list[i], how) + rest;
        calls := calls + CallsFor(list[i], how);
      }
      assert AllCalls(list[|list|..], how) == [];
    }
  }
}
