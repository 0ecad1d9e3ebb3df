/** The default-feature grammar that `Json::Reader` follows, as functions of document and position. */
module JsonParse {
  import opened Bytes
  import opened JsonValue
  import opened JsonMap
  import opened JsonNumber
  import opened JsonString
  import opened JsonToken

  /** A document, and the `sscanf` of a floating-point token, which is outside this model. */
  datatype Doc = Doc(text: bytes, scan: bytes -> Option<real>)

  datatype Message =
    | ValueExpected | ColonExpected | MemberEndExpected | MemberNameExpected | ElementEndExpected
    | NotANumber | BadString(problem: Problem)

  datatype Error = Error(message: Message, token: Token)

  /** `Thrown`: the depth limit was hit. On failure reading resumes at `pos` in the enclosing container. */
  datatype Outcome = Parsed(value: Value, pos: nat) | Failed(pos: nat, error: Error) | Thrown

  const STACK_LIMIT: nat := 1000

  function DecodeNumberToken(d: Doc, t: Token): Option<Value>
    requires t.start <= t.end <= |d.text|
  {
    var text := TokenText(d.text, t);
    var integer := DecodeInteger(text);
    if integer.Some? then integer
    else
      var r := d.scan(text);
      if r.Some? then Some(Real(r.value)) else None
  }

  function FailedAt(d: Doc, p: nat, kind: Kind, e: Error): Outcome
    requires p <= |d.text|
  {
    Failed(Recover(d.text, p, kind), e)
  }

  predicate Within(d: Doc, p: nat, o: Outcome) {
    match o
    case Parsed(_, q) => p <= q <= |d.text|
    case Failed(q, _) => p <= q <= |d.text|
    case Thrown => true
  }

  /** `readValue` with `depth` calls of it already open. */
  function ReadValue(d: Doc, p: nat, depth: nat): (o: Outcome)
    requires p <= |d.text|
    ensures Within(d, p, o) && (o.Parsed? ==> p < o.pos)
    decreases |d.text| - p, 0
  {
    if depth >= STACK_LIMIT then Thrown
    else
      var t := NextToken(d.text, p);
      match t.kind
      case ObjectBegin => ReadMembers(d, t.end, depth + 1, [], [])
      case ArrayBegin => ReadArray(d, t.end, depth + 1)
      case NumberToken =>
        var n := DecodeNumberToken(d, t);
        if n.Some? then Parsed(n.value, t.end) else Failed(t.end, Error(NotANumber, t))
      case StringToken =>
        var s := DecodeBody(Body(d.text, t));
        if s.Text? then Parsed(String(s.text), t.end) else Failed(t.end, Error(BadString(s.problem), t))
      case TrueToken => Parsed(Bool(true), t.end)
      case FalseToken => Parsed(Bool(false), t.end)
      case NullToken => Parsed(Null, t.end)
      case _ => Failed(t.end, Error(ValueExpected, t))
  }

  function ReadArray(d: Doc, p: nat, depth: nat): (o: Outcome)
    requires p <= |d.text|
    ensures Within(d, p, o)
    decreases |d.text| - p, 2
  {
    var s := SkipSpaces(d.text, p);
    if At(d.text, s) == RBRACKET then Parsed(Array([]), ReadToken(d.text, s).end)
    else ReadElements(d, s, depth, [])
  }

  function ReadElements(d: Doc, p: nat, depth: nat, acc: seq<Entry>): (o: Outcome)
    requires p <= |d.text|
    ensures Within(d, p, o)
    decreases |d.text| - p, 1
  {
    var o := ReadValue(d, p, depth);
    match o
    case Thrown => Thrown
    case Failed(q, e) => FailedAt(d, q, ArrayEnd, e)
    case Parsed(v, q) =>
      var t := NextToken(d.text, q);
      var acc' := acc + [Entry(Index(|acc|), v)];
      if t.kind == ArrayEnd then Parsed(Array(acc'), t.end)
      else if t.kind == ArraySeparator then ReadElements(d, t.end, depth, acc')
      else FailedAt(d, t.end, ArrayEnd, Error(ElementEndExpected, t))
  }

  /**
    * `readObject`, from before a member name; `last` is the name of the member before. A closing
    * brace is taken here only when that name is empty, as in `{}` but also after a comma.
    */
  function ReadMembers(d: Doc, p: nat, depth: nat, acc: seq<Entry>, last: bytes): (o: Outcome)
    requires p <= |d.text|
    ensures Within(d, p, o)
    decreases |d.text| - p, 1
  {
    var t := NextToken(d.text, p);
    if t.kind == ObjectEnd && last == [] then Parsed(Object(acc), t.end)
    else if t.kind != StringToken then FailedAt(d, t.end, ObjectEnd, Error(MemberNameExpected, t))
    else
      var s := DecodeBody(Body(d.text, t));
      if s.Bad? then FailedAt(d, t.end, ObjectEnd, Error(BadString(s.problem), t))
      else ReadMember(d, t.end, depth, acc, s.text)
  }

  /** The rest of a member from the colon on. After a comment any token counts as the comma. */
  function ReadMember(d: Doc, p: nat, depth: nat, acc: seq<Entry>, name: bytes): (o: Outcome)
    requires p <= |d.text|
    ensures Within(d, p, o)
    decreases |d.text| - p, 1
  {
    var colon := ReadToken(d.text, p);
    if colon.kind != MemberSeparator then FailedAt(d, colon.end, ObjectEnd, Error(ColonExpected, colon))
    else
      match ReadValue(d, colon.end, depth)
      case Thrown => Thrown
      case Failed(q, e) => FailedAt(d, q, ObjectEnd, e)
      case Parsed(v, q) =>
        var comma := ReadToken(d.text, q);
        if comma.kind != ObjectEnd && comma.kind != ArraySeparator && comma.kind != Comment then
          FailedAt(d, comma.end, ObjectEnd, Error(MemberEndExpected, comma))
        else
          var t := NextToken(d.text, q);
          var acc' := Put(acc, Name(name), v);
          if t.kind == ObjectEnd then Parsed(Object(acc'), t.end)
          else ReadMembers(d, t.end, depth, acc', name)
  }
}
