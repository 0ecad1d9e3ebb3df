/** `Json::Reader` with default features, as the object it is, proved against `JsonParse`. */
module JsonReader {
  import opened Bytes
  import opened JsonValue
  import opened JsonMap
  import opened JsonNumber
  import opened JsonString
  import opened JsonToken
  import opened JsonParse

  /** What `readValue` makes of a token that opens no container. */
  function ScalarOutcome(d: Doc, t: Token): Outcome
    requires t.start <= t.end <= |d.text| && (t.kind == StringToken ==> t.start + 2 <= t.end)
  {
    match t.kind
    case NumberToken =>
      var n := DecodeNumberToken(d, t);
      if n.Some? then Parsed(n.value, t.end) else Failed(t.end, Error(NotANumber, t))
    case StringToken =>
      var s := DecodeBody(Body(d.text, t));
      if s.Text? then Parsed(String(s.text), t.end) else Failed(t.end, Error(BadString(s.problem), t))
    case TrueToken => Parsed(Bool(true), t.end)
    case FalseToken => Parsed(Bool(false), t.end)
    case NullToken => Parsed(Null, t.end)
    case _ => Failed(t.end, Error(ValueExpected, t))
  }

  lemma ValueStep(d: Doc, p: nat, depth: nat)
    requires p <= |d.text|
    ensures var t := NextToken(d.text, p);
            ReadValue(d, p, depth) ==
            if depth >= STACK_LIMIT then Thrown
            else if t.kind == ObjectBegin then ReadMembers(d, t.end, depth + 1, [], [])
            else if t.kind == ArrayBegin then ReadArray(d, t.end, depth + 1)
            else ScalarOutcome(d, t)
  {
    hide NextToken, ReadMembers, ReadArray, DecodeBody, DecodeNumberToken, Body;
  }

  /** Since `before`, `readValue` has been entered with exactly `n` errors on record each time. */
  ghost predicate EnteredWith(before: seq<nat>, after: seq<nat>, n: nat) {
    before <= after && forall i | |before| <= i < |after| :: after[i] == n
  }

  lemma EnteredNone(a: seq<nat>, n: nat)
    ensures EnteredWith(a, a, n)
  {
  }

  lemma EnteredOnce(a: seq<nat>, n: nat)
    ensures EnteredWith(a, a + [n], n)
  {
  }

  lemma EnteredTwice(a: seq<nat>, b: seq<nat>, c: seq<nat>, n: nat)
    requires EnteredWith(a, b, n) && EnteredWith(b, c, n)
    ensures EnteredWith(a, c, n)
  {
  }

  class Reader {
    var text: bytes
    const scan: bytes -> Option<real>
    var current: nat
    /** `nodes_`: the values under construction, outermost first. A pop writes the child back. */
    var nodes: seq<Value>
    var errors: seq<Error>
    var stackDepth: nat
    /** How many errors had been recorded at each entry to `readValue`. */
    ghost var entered: seq<nat>

    constructor (scan: bytes -> Option<real>)
      ensures this.scan == scan && text == [] && current == 0
    {
      this.scan := scan;
      text, current, nodes, errors, stackDepth, entered := [], 0, [], [], 0, [];
    }

    ghost function Document(): Doc
      reads this
    {
      Doc(text, scan)
    }

    // ---- characters and tokens ----

    method GetNextChar() returns (c: byte)
      requires current <= |text|
      modifies this`current
      ensures current == Min(old(current) + 1, |text|) && c == At(text, old(current))
    {
      if current == |text| {
        return 0;
      }
      c := text[current];
      current := current + 1;
    }

    method SkipSpaceChars()
      requires current <= |text|
      modifies this`current
      ensures current == SkipSpaces(text, old(current))
    {
      while current != |text|
        invariant current <= |text| && SkipSpaces(text, current) == SkipSpaces(text, old(current))
        decreases |text| - current
      {
        var c := text[current];
        if IsSpace(c) {
          current := current + 1;
        } else {
          break;
        }
      }
    }

    method Match(pattern: bytes) returns (ok: bool)
      requires current <= |text|
      modifies this`current
      ensures ScanWord(text, old(current), pattern) == Scan(current, ok)
    {
      if |text| - current < |pattern| {
        return false;
      }
      var index := |pattern|;
      while index > 0
        invariant 0 <= index <= |pattern| && current == old(current)
        invariant forall j | index <= j < |pattern| :: text[current + j] == pattern[j]
      {
        index := index - 1;
        if text[current + index] != pattern[index] {
          assert text[current..current + |pattern|][index] != pattern[index];
          return false;
        }
      }
      assert text[current..current + |pattern|] == pattern;
      current := current + |pattern|;
      return true;
    }

    method ReadStringChars() returns (ok: bool)
      requires current <= |text|
      modifies this`current
      ensures ScanString(text, old(current)) == Scan(current, ok)
    {
      var c: byte := 0;
      while current != |text|
        invariant current <= |text| && c != QUOTE
        invariant ScanString(text, current) == ScanString(text, old(current))
        decreases |text| - current
      {
        c := GetNextChar();
        if c == BACKSLASH {
          var _ := GetNextChar();
        } else if c == QUOTE {
          break;
        }
      }
      return c == QUOTE;
    }

    method ReadCStyleComment() returns (ok: bool)
      requires current <= |text|
      modifies this`current
      ensures ScanBlockComment(text, old(current)) == Scan(current, ok)
    {
      while current != |text|
        invariant current <= |text|
        invariant ScanBlockComment(text, current) == ScanBlockComment(text, old(current))
        decreases |text| - current
      {
        var c := GetNextChar();
        if c == STAR && At(text, current) == SLASH {
          break;
        }
      }
      var last := GetNextChar();
      return last == SLASH;
    }

    method ReadCppStyleComment()
      requires current <= |text|
      modifies this`current
      ensures ScanLineComment(text, old(current)) == current
    {
      while current != |text|
        invariant current <= |text|
        invariant ScanLineComment(text, current) == ScanLineComment(text, old(current))
        decreases |text| - current
      {
        var c := GetNextChar();
        if c == NEWLINE {
          break;
        }
        if c == RETURN {
          if current != |text| && text[current] == NEWLINE {
            var _ := GetNextChar();
          }
          break;
        }
      }
    }

    method ReadComment() returns (ok: bool)
      requires current <= |text|
      modifies this`current
      ensures ScanComment(text, old(current)) == Scan(current, ok)
    {
      var c := GetNextChar();
      ok := false;
      if c == STAR {
        ok := ReadCStyleComment();
      } else if c == SLASH {
        ReadCppStyleComment();
        ok := true;
      }
    }

    /** Moves to `p` and reads the octet there, zero at the end of the text. */
    method Advance(p: nat) returns (c: byte, next: nat)
      requires p <= |text|
      modifies this`current
      ensures current == p && c == At(text, p) && next == Min(p + 1, |text|)
    {
      current := p;
      if p < |text| {
        return text[p], p + 1;
      }
      return 0, p;
    }

    /** Moves past digits, one octet at a time, keeping the octet read and the place behind it. */
    method AdvanceDigits(c0: byte, p0: nat) returns (c: byte, p: nat)
      requires p0 <= |text| && current <= |text|
      requires IsDigit(c0) || (c0 == At(text, current) && p0 == Min(current + 1, |text|))
      modifies this`current
      ensures current == if IsDigit(c0) then SkipDigits(text, p0) else old(current)
      ensures c == At(text, current) && p == Min(current + 1, |text|) && !IsDigit(c)
    {
      c, p := c0, p0;
      while IsDigit(c)
        invariant p <= |text| && current <= |text|
        invariant IsDigit(c) ==> IsDigit(c0) && SkipDigits(text, p) == SkipDigits(text, p0)
        invariant !IsDigit(c) ==> c == At(text, current) && p == Min(current + 1, |text|) &&
                                  current == if IsDigit(c0) then SkipDigits(text, p0) else old(current)
        decreases |text| - p, IsDigit(c)
      {
        c, p := Advance(p);
      }
    }

    method ReadNumber()
      requires current <= |text|
      modifies this`current
      ensures ScanNumber(text, old(current)) == current
    {
      hide SkipDigits, ScanFraction, ScanExponent;
      var p, c := current, ZERO;
      c, p := AdvanceDigits(c, p);
      c, p := ReadFraction(c, p);
      ReadExponent(c, p);
    }

    method ReadFraction(c0: byte, p0: nat) returns (c: byte, p: nat)
      requires current <= |text| && c0 == At(text, current) && p0 == Min(current + 1, |text|)
      modifies this`current
      ensures current == ScanFraction(text, old(current))
      ensures c == At(text, current) && p == Min(current + 1, |text|)
    {
      c, p := c0, p0;
      if c == 0x2E {
        c, p := Advance(p);
        c, p := AdvanceDigits(c, p);
      }
    }

    method ReadExponent(c0: byte, p0: nat)
      requires current <= |text| && c0 == At(text, current) && p0 == Min(current + 1, |text|)
      modifies this`current
      ensures current == ScanExponent(text, old(current))
    {
      var c, p := c0, p0;
      if c == 0x65 || c == 0x45 {
        c, p := Advance(p);
        if c == 0x2B || c == MINUS {
          c, p := Advance(p);
        }
        c, p := AdvanceDigits(c, p);
      }
    }

    method ReadOneToken() returns (t: Token)
      requires current <= |text|
      modifies this`current
      ensures t == ReadToken(text, old(current)) && current == t.end
    {
      hide ScanString, ScanComment, ScanNumber, ScanWord, SkipSpaces;
      SkipSpaceChars();
      var start := current;
      var c := GetNextChar();
      var kind, ok := ErrorToken, true;
      if start == |text| {
        return Token(EndOfStream, start, current);
      }
      if c == LBRACE { kind := ObjectBegin; }
      else if c == RBRACE { kind := ObjectEnd; }
      else if c == LBRACKET { kind := ArrayBegin; }
      else if c == RBRACKET { kind := ArrayEnd; }
      else if c == QUOTE { kind := StringToken; ok := ReadStringChars(); }
      else if c == SLASH { kind := Comment; ok := ReadComment(); }
      else if IsDigit(c) || c == MINUS { kind := NumberToken; ReadNumber(); }
      else if c == 0x74 { kind := TrueToken; ok := Match(TRUE_TEXT[1..]); }
      else if c == 0x66 { kind := FalseToken; ok := Match(FALSE_TEXT[1..]); }
      else if c == 0x6E { kind := NullToken; ok := Match(NULL_TEXT[1..]); }
      else if c == COMMA { kind := ArraySeparator; }
      else if c == COLON { kind := MemberSeparator; }
      else if c == 0 { kind := EndOfStream; }
      else { ok := false; }
      return Token(if ok then kind else ErrorToken, start, current);
    }

    method SkipCommentTokens() returns (t: Token)
      requires current <= |text|
      modifies this`current
      ensures t == NextToken(text, old(current)) && current == t.end
    {
      t := ReadOneToken();
      while t.kind == Comment
        invariant t.start <= t.end == current <= |text| && (t.start == t.end ==> t.kind == EndOfStream)
        invariant NextToken(text, old(current)) == if t.kind == Comment then NextToken(text, current) else t
        decreases |text| - current, t.kind == Comment
      {
        t := ReadOneToken();
      }
    }

    // ---- errors ----

    method AddError(message: Message, token: Token)
      modifies this`errors
      ensures errors == old(errors) + [Error(message, token)]
    {
      errors := errors + [Error(message, token)];
    }

    method RecoverFromError(skipUntil: Kind)
      requires current <= |text|
      modifies this`current, this`errors
      ensures current == Recover(text, old(current), skipUntil) && errors == old(errors)
    {
      var errorCount := |errors|;
      while true
        invariant current <= |text| && errors == old(errors)
        invariant Recover(text, current, skipUntil) == Recover(text, old(current), skipUntil)
        decreases |text| - current
      {
        var skip := ReadOneToken();
        if skip.kind == skipUntil || skip.kind == EndOfStream {
          break;
        }
      }
      errors := errors[..errorCount];
    }
  
    // ---- values ----

    /** What a call that was to read a value at the top node has done. */
    ghost predicate Achieved(o: Outcome, thrown: bool, ok: bool, nodes0: seq<Value>, errors0: seq<Error>, entered0: seq<nat>)
      reads this`text, this`current, this`nodes, this`errors, this`entered
    {
      && thrown == o.Thrown?
      && EnteredWith(entered0, entered, |errors0|)
      && current <= |text|
      && (!thrown ==> nodes0 != [] && |nodes| == |nodes0| && nodes[..|nodes| - 1] == nodes0[..|nodes0| - 1])
      && (o.Parsed? ==> ok && current == o.pos && nodes[|nodes| - 1] == o.value && errors == errors0)
      && (o.Failed? ==> !ok && current == o.pos && errors == errors0 + [o.error])
    }

    lemma AchievedSince(o: Outcome, thrown: bool, ok: bool, nodes0: seq<Value>, errors0: seq<Error>, a: seq<nat>, b: seq<nat>)
      requires EnteredWith(a, b, |errors0|) && Achieved(o, thrown, ok, nodes0, errors0, b)
      ensures Achieved(o, thrown, ok, nodes0, errors0, a)
    {
      EnteredTwice(a, b, entered, |errors0|);
    }

    lemma AchievedThrow(nodes0: seq<Value>, errors0: seq<Error>, a: seq<nat>)
      requires EnteredWith(a, entered, |errors0|) && current <= |text|
      ensures Achieved(Thrown, true, false, nodes0, errors0, a)
    {
    }

    method SetTop(v: Value)
      requires nodes != []
      modifies this`nodes
      ensures nodes == old(nodes)[..|old(nodes)| - 1] + [v]
    {
      nodes := nodes[..|nodes| - 1] + [v];
    }

    /** `readValue`. On failure it may leave `stackDepth` one too high, which nothing reads again. */
    method ReadOneValue() returns (thrown: bool, ok: bool)
      requires current <= |text| && nodes != []
      modifies this`current, this`nodes, this`errors, this`stackDepth, this`entered
      ensures Achieved(ReadValue(Document(), old(current), old(stackDepth)), thrown, ok, old(nodes), old(errors), old(entered))
      ensures !thrown ==> stackDepth >= old(stackDepth) && (ok ==> stackDepth == old(stackDepth))
      decreases |text| - current, 0
    {
      hide EnteredWith, NextToken, ReadValue, ReadMembers, ReadArray, ScalarOutcome, Achieved;
      EnteredOnce(entered, |errors|);
      entered := entered + [|errors|];
      ghost var entered1 := entered;
      ValueStep(Document(), current, stackDepth);
      if stackDepth >= STACK_LIMIT {
        AchievedThrow(nodes, errors, old(entered));
        return true, false;
      }
      stackDepth := stackDepth + 1;
      var t := SkipCommentTokens();
      thrown, ok := false, true;
      match t.kind {
        case ObjectBegin => thrown, ok := ReadObject();
        case ArrayBegin => thrown, ok := ReadArrayValue();
        case NumberToken | StringToken | TrueToken | FalseToken | NullToken => ok := ReadScalar(t);
        case _ =>
          ok := RefuseToken(t);
          AchievedSince(ScalarOutcome(Document(), t), false, false, old(nodes), old(errors), old(entered), entered1);
          return false, false;
      }
      AchievedSince(ReadValue(Document(), old(current), old(stackDepth)), thrown, ok, old(nodes), old(errors), old(entered), entered1);
      if !thrown {
        stackDepth := stackDepth - 1;
      }
    }

    method RefuseToken(t: Token) returns (ok: bool)
      requires t.kind !in {ObjectBegin, ArrayBegin, NumberToken, StringToken, TrueToken, FalseToken, NullToken}
      requires t.start <= t.end == current <= |text| && nodes != []
      modifies this`errors
      ensures !ok && Achieved(ScalarOutcome(Document(), t), false, ok, old(nodes), old(errors), old(entered))
    {
      EnteredNone(entered, |errors|);
      AddError(ValueExpected, t);
      return false;
    }

    /** The cases of `readValue` that read nothing further. */
    method ReadScalar(t: Token) returns (ok: bool)
      requires t.kind in {NumberToken, StringToken, TrueToken, FalseToken, NullToken}
      requires t.start <= t.end == current <= |text| && nodes != [] && (t.kind == StringToken ==> t.start + 2 <= t.end)
      modifies this`nodes, this`errors
      ensures Achieved(ScalarOutcome(Document(), t), false, ok, old(nodes), old(errors), old(entered))
    {
      hide EnteredWith, DecodeBody, DecodeNumberToken, Body;
      EnteredNone(entered, |errors|);
      ok := true;
      match t.kind {
        case NumberToken => ok := DecodeNumberAtTop(t);
        case StringToken => ok := DecodeStringAtTop(t);
        case TrueToken => SetTop(Bool(true));
        case FalseToken => SetTop(Bool(false));
        case NullToken => SetTop(Null);
      }
    }

    method DecodeNumberAtTop(t: Token) returns (ok: bool)
      requires t.start <= t.end <= |text| && nodes != []
      modifies this`nodes, this`errors
      ensures var n := DecodeNumberToken(Document(), t);
              && ok == n.Some?
              && nodes == (if ok then old(nodes)[..|old(nodes)| - 1] + [n.value] else old(nodes))
              && errors == if ok then old(errors) else old(errors) + [Error(NotANumber, t)]
    {
      var decoded := DecodeNumber(text[t.start..t.end]);
      if decoded.None? {
        var r := scan(text[t.start..t.end]);
        if r.None? {
          AddError(NotANumber, t);
          return false;
        }
        decoded := Some(Real(r.value));
      }
      SetTop(decoded.value);
      return true;
    }

    method DecodeStringToken(t: Token) returns (s: Decoded)
      requires t.start + 2 <= t.end <= |text|
      ensures s == DecodeBody(Body(text, t))
    {
      var token := text[t.start..t.end];
      assert token[1..|token| - 1] == Body(text, t);
      s := DecodeString(token);
    }

    method DecodeStringAtTop(t: Token) returns (ok: bool)
      requires t.start + 2 <= t.end <= |text| && nodes != []
      modifies this`nodes, this`errors
      ensures var s := DecodeBody(Body(text, t));
              && ok == s.Text?
              && nodes == (if ok then old(nodes)[..|old(nodes)| - 1] + [String(s.text)] else old(nodes))
              && errors == if ok then old(errors) else old(errors) + [Error(BadString(s.problem), t)]
    {
      var s := DecodeStringToken(t);
      if s.Bad? {
        AddError(BadString(s.problem), t);
        return false;
      }
      SetTop(String(s.text));
      return true;
    }

    /** Reads one value into a new slot that held `v0`: pushed on the node stack, read and popped. */
    method ReadChild(v0: Value) returns (thrown: bool, ok: bool, v: Value)
      requires current <= |text| && nodes != []
      modifies this`current, this`nodes, this`errors, this`stackDepth, this`entered
      ensures var o := ReadValue(Document(), old(current), old(stackDepth));
              && thrown == o.Thrown? && current <= |text|
              && EnteredWith(old(entered), entered, |old(errors)|)
              && (!thrown ==> nodes == old(nodes) && stackDepth >= old(stackDepth))
              && (o.Parsed? ==> ok && current == o.pos && v == o.value && errors == old(errors) && stackDepth == old(stackDepth))
              && (o.Failed? ==> !ok && current == o.pos && errors == old(errors) + [o.error])
      decreases |text| - current, 1
    {
      nodes := nodes + [v0];
      thrown, ok := ReadOneValue();
      v := v0;
      if !thrown {
        v := nodes[|nodes| - 1];
        nodes := nodes[..|nodes| - 1];
      }
    }

    method ReadObject() returns (thrown: bool, ok: bool)
      requires current <= |text| && nodes != []
      modifies this`current, this`nodes, this`errors, this`stackDepth, this`entered
      ensures Achieved(ReadMembers(Document(), old(current), old(stackDepth), [], []), thrown, ok, old(nodes), old(errors), old(entered))
      ensures !thrown ==> stackDepth >= old(stackDepth) && (ok ==> stackDepth == old(stackDepth))
      decreases |text| - current, 3
    {
      hide EnteredWith, NextToken, ReadToken, ReadMember, DecodeBody, Put, Lookup, Recover;
      EnteredNone(entered, |errors|);
      ghost var o := ReadMembers(Document(), current, stackDepth, [], []);
      SetTop(Object([]));
      var acc: seq<Entry>, name: bytes := [], [];
      while true
        invariant old(current) <= current <= |text| && nodes == old(nodes)[..|old(nodes)| - 1] + [Object(acc)]
        invariant errors == old(errors) && stackDepth == old(stackDepth)
        invariant o == ReadMembers(Document(), current, stackDepth, acc, name)
        invariant EnteredWith(old(entered), entered, |errors|)
        decreases |text| - current
      {
        var t := SkipCommentTokens();
        if t.kind == ObjectEnd && name == [] {
          return false, true;
        }
        name := [];
        if t.kind != StringToken {
          AddError(MemberNameExpected, t);
          RecoverFromError(ObjectEnd);
          return false, false;
        }
        var decoded := DecodeStringToken(t);
        if decoded.Bad? {
          AddError(BadString(decoded.problem), t);
          RecoverFromError(ObjectEnd);
          return false, false;
        }
        name := decoded.text;
        assert o == ReadMember(Document(), current, stackDepth, acc, name);
        var more;
        ghost var before := entered;
        assert EnteredWith(old(entered), before, |old(errors)|);
        thrown, ok, more, acc := ReadMemberValue(acc, name);
        EnteredTwice(old(entered), before, entered, |old(errors)|);
        if thrown || !ok || !more {
          return;
        }
      }
    }

    /** The body of the loop of `readObject` from the colon on; `more` when a comma was read. */
    method ReadMemberValue(acc: seq<Entry>, name: bytes) returns (thrown: bool, ok: bool, more: bool, acc': seq<Entry>)
      requires current <= |text| && nodes != [] && nodes[|nodes| - 1] == Object(acc)
      modifies this`current, this`nodes, this`errors, this`stackDepth, this`entered
      ensures var o := ReadMember(Document(), old(current), old(stackDepth), acc, name);
              if !thrown && ok && more then
                && old(current) <= current <= |text| && nodes == old(nodes)[..|old(nodes)| - 1] + [Object(acc')]
                && o == ReadMembers(Document(), current, stackDepth, acc', name)
                && errors == old(errors)
                && EnteredWith(old(entered), entered, |errors|)
              else Achieved(o, thrown, ok, old(nodes), old(errors), old(entered))
      ensures !thrown ==> stackDepth >= old(stackDepth) && (ok ==> stackDepth == old(stackDepth))
      decreases |text| - current, 2
    {
      hide EnteredWith, NextToken, ReadToken, ReadValue, ReadMembers, DecodeBody, Put, Lookup, Recover;
      EnteredNone(entered, |errors|);
      more, acc' := false, acc;
      var colon := ReadOneToken();
      if colon.kind != MemberSeparator {
        AddError(ColonExpected, colon);
        RecoverFromError(ObjectEnd);
        return false, false, false, acc;
      }
      var slot := Lookup(acc, Name(name));
      var v;
      thrown, ok, v := ReadChild(if slot.Some? then slot.value else Null);
      if thrown {
        return;
      }
      acc' := Put(acc, Name(name), v);
      SetTop(Object(acc'));
      if !ok {
        RecoverFromError(ObjectEnd);
        return;
      }
      ok, more := ReadMemberEnd();
    }

    /** The comma or brace after a member, past any comments. */
    method ReadMemberEnd() returns (ok: bool, more: bool)
      requires current <= |text|
      modifies this`current, this`errors
      ensures var comma, t := ReadToken(text, old(current)), NextToken(text, old(current));
              if comma.kind != ObjectEnd && comma.kind != ArraySeparator && comma.kind != Comment then
                && !ok && current == Recover(text, comma.end, ObjectEnd)
                && errors == old(errors) + [Error(MemberEndExpected, comma)]
              else ok && current == t.end && more == (t.kind != ObjectEnd) && errors == old(errors)
    {
      ghost var q := current;
      more := false;
      var comma := ReadOneToken();
      if comma.kind != ObjectEnd && comma.kind != ArraySeparator && comma.kind != Comment {
        AddError(MemberEndExpected, comma);
        RecoverFromError(ObjectEnd);
        return false, false;
      }
      while comma.kind == Comment
        invariant comma.start <= comma.end == current <= |text| && q <= current
        invariant comma.start == comma.end ==> comma.kind == EndOfStream
        invariant NextToken(text, q) == if comma.kind == Comment then NextToken(text, current) else comma
        modifies this`current
        decreases |text| - current, comma.kind == Comment
      {
        comma := ReadOneToken();
      }
      return true, comma.kind != ObjectEnd;
    }

    method ReadArrayValue() returns (thrown: bool, ok: bool)
      requires current <= |text| && nodes != []
      modifies this`current, this`nodes, this`errors, this`stackDepth, this`entered
      ensures Achieved(ReadArray(Document(), old(current), old(stackDepth)), thrown, ok, old(nodes), old(errors), old(entered))
      ensures !thrown ==> stackDepth >= old(stackDepth) && (ok ==> stackDepth == old(stackDepth))
      decreases |text| - current, 3
    {
      SetTop(Array([]));
      SkipSpaceChars();
      if At(text, current) == RBRACKET {
        var _ := ReadOneToken();
        return false, true;
      }
      thrown, ok := ReadElementList();
    }

    method ReadElementList() returns (thrown: bool, ok: bool)
      requires current <= |text| && nodes != [] && nodes[|nodes| - 1] == Array([])
      modifies this`current, this`nodes, this`errors, this`stackDepth, this`entered
      ensures Achieved(ReadElements(Document(), old(current), old(stackDepth), []), thrown, ok, old(nodes), old(errors), old(entered))
      ensures !thrown ==> stackDepth >= old(stackDepth) && (ok ==> stackDepth == old(stackDepth))
      decreases |text| - current, 2
    {
      hide EnteredWith, NextToken, ReadToken, ReadValue, Recover, Put, GetOrNull;
      EnteredNone(entered, |errors|);
      ghost var o := ReadElements(Document(), current, stackDepth, []);
      var acc: seq<Entry> := [];
      while true
        invariant old(current) <= current <= |text| && nodes == old(nodes)[..|old(nodes)| - 1] + [Array(acc)]
        invariant Dense(acc) && errors == old(errors) && stackDepth == old(stackDepth)
        invariant o == ReadElements(Document(), current, stackDepth, acc)
        invariant EnteredWith(old(entered), entered, |errors|)
        decreases |text| - current
      {
        var v;
        ghost var before := entered;
        thrown, ok, v := ReadChild(GetOrNull(acc, |acc|));
        EnteredTwice(old(entered), before, entered, |old(errors)|);
        if thrown {
          return;
        }
        PutLast(acc, Index(|acc|), v);
        acc := Put(acc, Index(|acc|), v);
        SetTop(Array(acc));
        if !ok {
          RecoverFromError(ArrayEnd);
          return;
        }
        var t := SkipCommentTokens();
        if t.kind != ArraySeparator && t.kind != ArrayEnd {
          AddError(ElementEndExpected, t);
          RecoverFromError(ArrayEnd);
          return false, false;
        }
        if t.kind == ArrayEnd {
          return false, true;
        }
      }
    }
  
    /**
      * `parse`: terminates on every document. Unless the depth limit throws, the node stack ends
      * balanced, no error is recorded on success and exactly one on failure, and no `readValue`
      * was ever entered once an error had been recorded.
      */
    method Parse(document: bytes, root: Value) returns (thrown: bool, successful: bool, result: Value)
      modifies this
      ensures text == document
      ensures var o := ReadValue(Doc(document, scan), 0, 0);
              && thrown == o.Thrown?
              && (o.Parsed? ==> successful && result == o.value && errors == [])
              && (o.Failed? ==> !successful && errors == [o.error])
      ensures !thrown ==> |nodes| == 1
      ensures forall i | 0 <= i < |entered| :: entered[i] == 0
    {
      text := document;
      current := 0;
      errors := [];
      nodes := [root];
      stackDepth := 0;
      entered := [];
      thrown, successful := ReadOneValue();
      result := root;
      if !thrown {
        var _ := SkipCommentTokens();
        result := nodes[0];
      }
    }
  }
}
