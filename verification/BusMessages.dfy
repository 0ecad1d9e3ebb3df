/** What `OnMessage` takes a JSON payload for, in terms of the members the payload has. */
module BusMessages {
  import opened Bytes
  import opened JsonValue
  import opened JsonMap
  import opened JsonNumber
  import opened JsonToken
  import opened JsonParse
  import opened JsonWriter
  import opened JsonRoundTrip
  import opened BusModel
  import opened BusRuns
  import Client = VertxBus

  /** Object `v` has a member of this name and value. */
  ghost predicate Has(v: Value, name: bytes, w: Value) {
    v.Object? && exists i | 0 <= i < |v.entries| :: v.entries[i] == Entry(Name(name), w)
  }

  /** "address": */
  ghost predicate Address(v: Value, w: Value) {
    Has(v, [0x61, 0x64, 0x64, 0x72, 0x65, 0x73, 0x73], w)
  }

  /** "type": "err" */
  ghost predicate IsError(v: Value) {
    Has(v, [0x74, 0x79, 0x70, 0x65], String([0x65, 0x72, 0x72]))
  }

  /** "replyAddress": a container that is not empty */
  ghost predicate BadReplyAddress(v: Value) {
    exists w ::
      && Has(v, [0x72, 0x65, 0x70, 0x6C, 0x79, 0x41, 0x64, 0x64, 0x72, 0x65, 0x73, 0x73], w)
      && (w.Array? || w.Object?) && w.entries != []
  }

  lemma LookupIsHas(v: Value, name: bytes, w: Value)
    requires WellFormed(v) && v.Object?
    ensures Lookup(v.entries, Name(name)) == Some(w) <==> Has(v, name, w)
  {
    hide Lookup;
    assert IsMap(v.entries, false);
    if Lookup(v.entries, Name(name)).Some? {
      var i := LookupFinds(v.entries, Name(name), false);
    }
    if Has(v, name, w) {
      var i :| 0 <= i < |v.entries| && v.entries[i] == Entry(Name(name), w);
      LookupAt(v.entries, false, i);
    }
  }

  /** How a message asks to be called. */
  lemma HowMeans(v: Value)
    requires WellFormed(v) && v.Object?
    ensures Client.HowToCall(v.entries) == if IsError(v) then AsFailure else if BadReplyAddress(v) then AsThrow else AsReply
  {
    hide Lookup, Has;
    LookupIsHas(v, Client.TYPE, String(Client.ERR));
    forall w ensures Lookup(v.entries, Name(Client.REPLY_ADDRESS)) == Some(w) <==> Has(v, Client.REPLY_ADDRESS, w) {
      LookupIsHas(v, Client.REPLY_ADDRESS, w);
    }
    var found := Lookup(v.entries, Name(Client.REPLY_ADDRESS));
    if found.Some? {
      assert Has(v, Client.REPLY_ADDRESS, found.value);
    }
  }

  /**
    * An object is a message for the text its "address" holds, for the empty text if it has none or
    * a null one; a container there throws. Type "err" asks for the failure handlers; otherwise a
    * "replyAddress" that is a non-empty container throws in place of the first reply call.
    */
  lemma InterpretMeans(v: Value, show: Show)
    requires WellFormed(v) && v.Object?
    ensures var m := Client.Interpret(v, show);
            && (forall a | Address(v, String(a)) :: m.Message? && m.address == a)
            && ((forall w :: !Address(v, w)) || Address(v, Null) ==> m.Message? && m.address == [])
            && (Address(v, Bool(true)) ==> m.Message? && m.address == [0x74, 0x72, 0x75, 0x65])
            && (Address(v, Bool(false)) ==> m.Message? && m.address == [0x66, 0x61, 0x6C, 0x73, 0x65])
            && (forall i | Address(v, Int(i)) :: m.Message? && m.address == IntText(i))
            && (forall u | Address(v, UInt(u)) :: m.Message? && m.address == Digits(u))
            && (forall r | Address(v, Real(r)) :: m.Message? && m.address == show(r))
            && (forall w | Address(v, w) :: m.Throws? <==> w.Array? || w.Object?)
            && (m.Message? ==> m.how == if IsError(v) then AsFailure else if BadReplyAddress(v) then AsThrow else AsReply)
  {
    hide Lookup, Has, BadReplyAddress, IsError, IntText, Digits;
    HowMeans(v);
    forall w ensures Lookup(v.entries, Name(Client.ADDRESS)) == Some(w) <==> Address(v, w) {
      LookupIsHas(v, Client.ADDRESS, w);
    }
    var found := Lookup(v.entries, Name(Client.ADDRESS));
    if found.Some? {
      assert Address(v, found.value);
    }
  }

  /** Null is a message without members; anything else but an object makes the accessors throw. */
  lemma InterpretOthers(v: Value, show: Show)
    requires !v.Object?
    ensures Client.Interpret(v, show) == if v.Null? then Message([], AsReply) else Throws
  {
  }

  // ---- written by one side, received by the other ----

  lemma {:induction false} RereadWellFormed(v: Value)
    requires WellFormed(v) && RealFree(v)
    ensures WellFormed(Reread(v))
    decreases v, 2
  {
    hide RereadMembers, RereadElements, PrintedLength, WellFormed;
    match v
    case Array(es) => RereadArrayWellFormed(es);
    case Object(es) =>
      forall k | 0 <= k < |es| ensures WellFormed(Reread(es[k].value)) {
        assert (es decreases to es[k]);
        MemberFacts(es, k);
        RereadWellFormed(es[k].value);
      }
      RereadObjectWellFormed(es);
    case _ => ScalarWellFormed(v);
  }

  lemma ScalarWellFormed(v: Value)
    requires WellFormed(v) && !IsContainer(v)
    ensures WellFormed(Reread(v))
  {
  }

  lemma MemberFacts(es: seq<Entry>, k: nat)
    requires WellFormed(Object(es)) && RealFree(Object(es)) && k < |es|
    ensures WellFormed(es[k].value) && RealFree(es[k].value)
  {
  }

  lemma RereadObjectWellFormed(es: seq<Entry>)
    requires WellFormed(Object(es)) && forall k | 0 <= k < |es| :: WellFormed(Reread(es[k].value))
    ensures WellFormed(Object(RereadMembers(es, 0)))
  {
    hide RereadMembers, Reread, Ordered;
    RereadMembersAt(es, 0);
    var ms := RereadMembers(es, 0);
    forall k | 0 <= k < |ms| ensures ms[k].key == es[k].key && WellFormed(ms[k].value) {
      assert ms[k - 0] == Entry(es[k].key, Reread(es[k].value));
    }
    SameKeys(es, ms);
  }

  lemma SameKeys(es: seq<Entry>, ms: seq<Entry>)
    requires Ordered(es) && |ms| == |es| && forall k | 0 <= k < |ms| :: ms[k].key == es[k].key
    ensures Ordered(ms)
  {
    hide KeyLess;
    forall i, j | 0 <= i < j < |ms| ensures KeyLess(ms[i].key, ms[j].key) {
      assert KeyLess(es[i].key, es[j].key);
    }
  }

  lemma {:induction false} RereadArrayWellFormed(es: seq<Entry>)
    requires WellFormed(Array(es)) && RealFree(Array(es))
    ensures WellFormed(Array(RereadElements(es, 0, PrintedLength(es))))
    decreases es, 1
  {
    hide RereadElements, RereadElement;
    var n := PrintedLength(es);
    RereadElementsAt(es, 0, n);
    var ms := RereadElements(es, 0, n);
    forall j | 0 <= j < |ms| ensures ms[j].key == Index(j) && WellFormed(ms[j].value) {
      assert ms[j - 0] == Entry(Index(j), RereadElement(es, j));
      RereadElementWellFormed(es, j);
    }
  }

  lemma {:induction false} RereadElementWellFormed(es: seq<Entry>, j: nat)
    requires WellFormed(Array(es)) && RealFree(Array(es))
    ensures WellFormed(RereadElement(es, j))
    decreases es, 0
  {
    var p := LowerBound(es, Index(j));
    if p < |es| && es[p].key == Index(j) {
      assert (es decreases to es[p]);
      RereadWellFormed(es[p].value);
    }
  }

  lemma RereadHas(v: Value, name: bytes, w: Value)
    requires v.Object?
    ensures Has(v, name, w) ==> Has(Reread(v), name, Reread(w))
    ensures Has(Reread(v), name, w) ==> exists u :: Has(v, name, u) && w == Reread(u)
  {
    hide RereadMembers;
    var es := v.entries;
    RereadMembersAt(es, 0);
    var ms := RereadMembers(es, 0);
    assert Reread(v) == Object(ms);
    forall k | 0 <= k < |es| ensures ms[k] == Entry(es[k].key, Reread(es[k].value)) {
      assert ms[k - 0] == Entry(es[k].key, Reread(es[k].value));
    }
    if Has(Reread(v), name, w) {
      var k :| 0 <= k < |ms| && ms[k] == Entry(Name(name), w);
      assert es[k] == Entry(Name(name), es[k].value);
      assert Has(v, name, es[k].value);
    }
  }

  lemma RereadString(w: Value, s: bytes)
    ensures Reread(w) == String(s) <==> w == String(s)
  {
  }

  /** The error mark, the text address and the container reply address survive writing and reading. */
  lemma RereadMessage(v: Value, a: bytes)
    requires WellFormed(v) && v.Object? && Address(v, String(a))
    ensures Address(Reread(v), String(a)) && (IsError(Reread(v)) <==> IsError(v))
    ensures SizesFit(v) ==> (BadReplyAddress(Reread(v)) <==> BadReplyAddress(v))
  {
    hide Has, Reread, SizesFit;
    var err := String([0x65, 0x72, 0x72]);
    var kind := [0x74, 0x79, 0x70, 0x65];
    RereadHas(v, [0x61, 0x64, 0x64, 0x72, 0x65, 0x73, 0x73], String(a));
    RereadString(String(a), a);
    RereadHas(v, kind, err);
    RereadString(err, err.s);
    if IsError(Reread(v)) {
      var u :| Has(v, kind, u) && err == Reread(u);
      RereadString(u, err.s);
    }
    if SizesFit(v) {
      RereadReplyAddress(v);
    }
  }

  lemma RereadReplyAddress(v: Value)
    requires WellFormed(v) && v.Object? && SizesFit(v)
    ensures BadReplyAddress(Reread(v)) <==> BadReplyAddress(v)
  {
    hide Has, Reread, SizesFit;
    var name := [0x72, 0x65, 0x70, 0x6C, 0x79, 0x41, 0x64, 0x64, 0x72, 0x65, 0x73, 0x73];
    if BadReplyAddress(v) {
      var w :| Has(v, name, w) && (w.Array? || w.Object?) && w.entries != [];
      MemberFits(v, name, w);
      RereadHas(v, name, w);
      RereadContainer(w);
    }
    if BadReplyAddress(Reread(v)) {
      var w :| Has(Reread(v), name, w) && (w.Array? || w.Object?) && w.entries != [];
      RereadHas(v, name, w);
      var u :| Has(v, name, u) && w == Reread(u);
      MemberFits(v, name, u);
      RereadContainer(u);
    }
  }

  lemma MemberFits(v: Value, name: bytes, w: Value)
    requires WellFormed(v) && SizesFit(v) && Has(v, name, w)
    ensures WellFormed(w) && SizesFit(w)
  {
    var i :| 0 <= i < |v.entries| && v.entries[i] == Entry(Name(name), w);
  }

  lemma RereadContainer(w: Value)
    requires WellFormed(w) && SizesFit(w)
    ensures var r := Reread(w);
            (r.Array? || r.Object?) && r.entries != [] <==> (w.Array? || w.Object?) && w.entries != []
  {
    hide RereadElements, RereadMembers, PrintedLength;
    match w
    case Array(es) =>
      PrintedLengthIs(es);
      RereadElementsAt(es, 0, PrintedLength(es));
    case Object(es) => RereadMembersAt(es, 0);
    case _ =>
  }

  /**
    * One side writes an object with a text address, the other receives it: there is one more route,
    * and it is the one for that address.
    */
  method WriteThenReceive(client: Client.VertxBus, v: Value, a: bytes)
    requires client.Valid() && client.endpoint == Up
    requires WellFormed(v) && RealFree(v) && SizesFit(v) && Depth(v) <= STACK_LIMIT && v.Object? && Address(v, String(a))
    modifies client
    ensures client.Valid() && |client.routes| == |old(client.routes)| + 1 && client.routes[..|old(client.routes)|] == old(client.routes)
    ensures var how := if IsError(v) then AsFailure else if BadReplyAddress(v) then AsThrow else AsReply;
            RouteFor(old(HandlersAt(client.handlers, a)), old(ReplyAt(client.Model(), a)), Message(a, how),
                     client.routes[|old(client.routes)|])
  {
    hide Has, Address, IsError, BadReplyAddress, SizesFit, Reread, Depth, FastText, ReadValue, RouteFor, HandlersAt, ReplyAt, Step;
    var writer := new FastWriter(client.show);
    var text := writer.Write(v);
    RoundTrip(v, client.show, client.scan);
    RereadWellFormed(v);
    RereadIsObject(v);
    RereadMessage(v, a);
    InterpretMeans(Reread(v), client.show);
    ghost var how := if IsError(v) then AsFailure else if BadReplyAddress(v) then AsThrow else AsReply;
    assert Client.Receive(text, client.scan, client.show) == Message(a, how);
    MessageRouted(client.Model(), Message(a, how));
    client.OnMessage(text);
  }

  lemma RereadIsObject(v: Value)
    requires v.Object?
    ensures Reread(v).Object?
  {
  }
}
