/** What `Reader` makes of a document depends on its tokens only, so both writers' texts read the same. */
module JsonSame {
  import opened Bytes
  import opened JsonValue
  import opened JsonMap
  import opened JsonNumber
  import opened JsonString
  import opened JsonToken
  import opened JsonParse
  import opened JsonReader
  import opened JsonWriter
  import opened JsonRoundTrip
  import opened JsonLayout
  import opened JsonStyled
  import opened JsonStyledWriter

  predicate NoComment(ts: seq<Spelling>) {
    forall i | 0 <= i < |ts| :: ts[i].kind != Comment
  }

  /** From here on the two documents hold the same tokens, none of them a comment. */
  ghost predicate Same(d: Doc, p: nat, e: Doc, q: nat) {
    && p <= |d.text| && q <= |e.text| && d.scan == e.scan
    && Tokens(d.text, p) == Tokens(e.text, q) && NoComment(Tokens(d.text, p))
  }

  /** The two readers end alike: same value and same tokens ahead, same complaint, or both thrown. */
  ghost predicate Alike(d: Doc, x: Outcome, e: Doc, y: Outcome) {
    match (x, y)
    case (Parsed(v, p), Parsed(w, q)) => v == w && Same(d, p, e, q)
    case (Failed(_, m), Failed(_, n)) => m.message == n.message
    case (Thrown, Thrown) => true
    case _ => false
  }

  lemma TokensStep(text: bytes, p: nat)
    requires p <= |text|
    ensures var t := ReadToken(text, p);
            Tokens(text, p) ==
            if t.kind == EndOfStream then [] else [Spelling(t.kind, TokenText(text, t))] + Tokens(text, t.end)
  {
    hide ReadToken;
  }

  lemma NextIsRead(text: bytes, p: nat)
    requires p <= |text| && ReadToken(text, p).kind != Comment
    ensures NextToken(text, p) == ReadToken(text, p)
  {
    hide ReadToken;
  }

  /** The next token of both, and what is the same behind it. */
  lemma SameNext(d: Doc, p: nat, e: Doc, q: nat)
    requires Same(d, p, e, q)
    ensures var t, u := ReadToken(d.text, p), ReadToken(e.text, q);
            && NextToken(d.text, p) == t && NextToken(e.text, q) == u && t.kind == u.kind != Comment
            && (t.kind != EndOfStream ==> TokenText(d.text, t) == TokenText(e.text, u) && Same(d, t.end, e, u.end))
  {
    hide ReadToken, NextToken, Tokens, TokenText;
    TokensStep(d.text, p);
    TokensStep(e.text, q);
    var t, u := ReadToken(d.text, p), ReadToken(e.text, q);
    var ts := Tokens(d.text, p);
    if t.kind != EndOfStream {
      assert ts[0].kind == t.kind == u.kind;
      assert ts[1..] == Tokens(d.text, t.end) == Tokens(e.text, u.end);
      assert NoComment(ts[1..]);
    }
    NextIsRead(d.text, p);
    NextIsRead(e.text, q);
  }

  lemma SameBody(d: Doc, t: Token, e: Doc, u: Token)
    requires t.start + 2 <= t.end <= |d.text| && u.start + 2 <= u.end <= |e.text|
    requires TokenText(d.text, t) == TokenText(e.text, u)
    ensures Body(d.text, t) == Body(e.text, u)
  {
    hide Body, TokenText;
    BodyOfText(d.text, t);
    BodyOfText(e.text, u);
  }

  lemma BodyOfText(text: bytes, t: Token)
    requires t.start + 2 <= t.end <= |text|
    ensures var a := TokenText(text, t); |a| >= 2 && Body(text, t) == a[1..|a| - 1]
  {
    var a := TokenText(text, t);
    forall i | 0 <= i < |a| - 2 ensures Body(text, t)[i] == a[1..|a| - 1][i] {
      assert Body(text, t)[i] == text[t.start + 1 + i];
    }
  }

  /** A token that opens no container. */
  lemma SameScalar(d: Doc, t: Token, e: Doc, u: Token)
    requires t.start <= t.end <= |d.text| && u.start <= u.end <= |e.text| && d.scan == e.scan
    requires t.kind == u.kind && (t.kind == StringToken ==> t.start + 2 <= t.end && u.start + 2 <= u.end)
    requires t.kind != EndOfStream ==> TokenText(d.text, t) == TokenText(e.text, u) && Same(d, t.end, e, u.end)
    ensures Alike(d, ScalarOutcome(d, t), e, ScalarOutcome(e, u))
  {
    hide DecodeBody, DecodeInteger, Same, Body, TokenText;
    if t.kind == StringToken {
      SameBody(d, t, e, u);
    }
  }

  lemma {:induction false} SameValue(d: Doc, p: nat, e: Doc, q: nat, depth: nat)
    requires Same(d, p, e, q)
    ensures Alike(d, ReadValue(d, p, depth), e, ReadValue(e, q, depth))
    decreases |d.text| - p, 0
  {
    hide ReadValue, ReadMembers, ReadArray, ReadToken, NextToken, ScalarOutcome, TokenText, Same;
    SameBounds(d, p, e, q);
    ValueStep(d, p, depth);
    ValueStep(e, q, depth);
    SameNext(d, p, e, q);
    var t, u := ReadToken(d.text, p), ReadToken(e.text, q);
    if depth >= STACK_LIMIT {
    } else if t.kind == ObjectBegin {
      SameMembers(d, t.end, e, u.end, depth + 1, [], []);
    } else if t.kind == ArrayBegin {
      SameArray(d, t.end, e, u.end, depth + 1);
    } else {
      SameScalar(d, t, e, u);
    }
  }

  lemma SameBounds(d: Doc, p: nat, e: Doc, q: nat)
    requires Same(d, p, e, q)
    ensures p <= |d.text| && q <= |e.text| && d.scan == e.scan
  {
  }

  /** An array is empty when its first token closes it. */
  lemma ArrayStart(text: bytes, p: nat)
    requires p <= |text|
    ensures var s := SkipSpaces(text, p);
            && ReadToken(text, s) == ReadToken(text, p) && Tokens(text, s) == Tokens(text, p)
            && (At(text, s) == RBRACKET <==> ReadToken(text, p).kind == ArrayEnd)
  {
    hide SkipSpaces, ReadToken, Tokens;
    ReadTokenSkips(text, p);
    TokensStep(text, p);
    TokensStep(text, SkipSpaces(text, p));
    ClosesArray(text, p);
  }

  lemma ClosesArray(text: bytes, p: nat)
    requires p <= |text|
    ensures At(text, SkipSpaces(text, p)) == RBRACKET <==> ReadToken(text, p).kind == ArrayEnd
  {
    hide SkipSpaces, ScanString, ScanComment, ScanNumber, ScanWord;
  }

  lemma {:induction false} SameArray(d: Doc, p: nat, e: Doc, q: nat, depth: nat)
    requires Same(d, p, e, q)
    ensures Alike(d, ReadArray(d, p, depth), e, ReadArray(e, q, depth))
    decreases |d.text| - p, 2
  {
    hide ReadElements, ReadToken, NextToken, TokenText, SkipSpaces, Tokens, NoComment;
    ArrayStart(d.text, p);
    ArrayStart(e.text, q);
    SameNext(d, p, e, q);
    if ReadToken(d.text, p).kind != ArrayEnd {
      SameElements(d, SkipSpaces(d.text, p), e, SkipSpaces(e.text, q), depth, []);
    }
  }

  lemma {:induction false} SameElements(d: Doc, p: nat, e: Doc, q: nat, depth: nat, acc: seq<Entry>)
    requires Same(d, p, e, q)
    ensures Alike(d, ReadElements(d, p, depth, acc), e, ReadElements(e, q, depth, acc))
    decreases |d.text| - p, 1
  {
    hide ReadValue, ReadElements, ReadToken, NextToken, TokenText, Recover, Same;
    SameBounds(d, p, e, q);
    ElementsUnfold(d, p, depth, acc);
    ElementsUnfold(e, q, depth, acc);
    SameValue(d, p, e, q, depth);
    var x, y := ReadValue(d, p, depth), ReadValue(e, q, depth);
    if x.Parsed? {
      SameNext(d, x.pos, e, y.pos);
      var t, u := ReadToken(d.text, x.pos), ReadToken(e.text, y.pos);
      if t.kind == ArraySeparator {
        SameElements(d, t.end, e, u.end, depth, acc + [Entry(Index(|acc|), x.value)]);
      }
    }
  }

  lemma ElementsUnfold(d: Doc, p: nat, depth: nat, acc: seq<Entry>)
    requires p <= |d.text|
    ensures ReadElements(d, p, depth, acc) ==
            match ReadValue(d, p, depth)
            case Thrown => Thrown
            case Failed(q, e) => FailedAt(d, q, ArrayEnd, e)
            case Parsed(v, q) =>
              var t := NextToken(d.text, q);
              var acc' := acc + [Entry(Index(|acc|), v)];
              if t.kind == ArrayEnd then Parsed(Array(acc'), t.end)
              else if t.kind == ArraySeparator then ReadElements(d, t.end, depth, acc')
              else FailedAt(d, t.end, ArrayEnd, Error(ElementEndExpected, t))
  {
    hide ReadValue, NextToken, FailedAt;
  }

  lemma {:induction false} SameMembers(d: Doc, p: nat, e: Doc, q: nat, depth: nat, acc: seq<Entry>, last: bytes)
    requires Same(d, p, e, q)
    ensures Alike(d, ReadMembers(d, p, depth, acc, last), e, ReadMembers(e, q, depth, acc, last))
    decreases |d.text| - p, 1
  {
    hide ReadMember, ReadToken, NextToken, TokenText, Recover, DecodeBody, Body, Same;
    SameBounds(d, p, e, q);
    SameNext(d, p, e, q);
    var t, u := ReadToken(d.text, p), ReadToken(e.text, q);
    if t.kind == StringToken {
      SameBody(d, t, e, u);
      var s := DecodeBody(Body(d.text, t));
      if s.Text? {
        SameMember(d, t.end, e, u.end, depth, acc, s.text);
      }
    }
  }

  lemma {:induction false} SameMember(d: Doc, p: nat, e: Doc, q: nat, depth: nat, acc: seq<Entry>, name: bytes)
    requires Same(d, p, e, q)
    ensures Alike(d, ReadMember(d, p, depth, acc, name), e, ReadMember(e, q, depth, acc, name))
    decreases |d.text| - p, 1
  {
    hide ReadValue, ReadMembers, ReadToken, NextToken, TokenText, Recover, Put, Same;
    SameBounds(d, p, e, q);
    SameNext(d, p, e, q);
    var t, u := ReadToken(d.text, p), ReadToken(e.text, q);
    if t.kind == MemberSeparator {
      SameValue(d, t.end, e, u.end, depth);
      var x, y := ReadValue(d, t.end, depth), ReadValue(e, u.end, depth);
      if x.Parsed? {
        SameNext(d, x.pos, e, y.pos);
        var t', u' := ReadToken(d.text, x.pos), ReadToken(e.text, y.pos);
        if t'.kind == ArraySeparator {
          SameMembers(d, t'.end, e, u'.end, depth, Put(acc, Name(name), x.value), name);
        }
      }
    }
  }

  // ---- the styled text read back ----

  lemma LaidHasNoComment(text: bytes, ls: seq<Lexeme>)
    requires Laid(text, ls)
    ensures NoComment(Tokens(text, 0))
  {
    hide Laid, Tokens, Spell;
    assert text[0..] == text;
    LaidTokens(text, 0, ls);
  }

  /** Any text laid out as the styled writer does reads as the fast writer's text when no name holds a NUL. */
  lemma StyledReadsBack(v: Value, styled: bytes, scan: bytes -> Option<real>)
    requires Printable(v) && NamesNulFree(v) && Laid(styled, Lexemes(v, true))
    ensures var o := ReadValue(Doc(styled, scan), 0, 0);
            if Depth(v) <= STACK_LIMIT then o.Parsed? && o.value == Reread(v) else o.Thrown?
  {
    hide Laid, Lexemes, FastText, Tokens, ReadValue, NoComment, Depth, Reread;
    var show := r => [];
    var fast := FastText(v, show) + [NEWLINE];
    SameTokensExactly(v, styled, show);
    LaidHasNoComment(styled, Lexemes(v, true));
    SameValue(Doc(styled, scan), 0, Doc(fast, scan), 0, 0);
    RoundTrip(v, show, scan);
  }

  /** Writing with `StyledWriter` and parsing with `Reader`. */
  method StyleThenParse(v: Value, scan: bytes -> Option<real>) returns (thrown: bool, successful: bool, result: Value)
    requires Printable(v) && NamesNulFree(v)
    ensures thrown <==> Depth(v) > STACK_LIMIT
    ensures !thrown ==> successful && result == Reread(v)
  {
    hide Laid, Lexemes, ReadValue, Depth, Reread, Printable, NamesNulFree;
    var writer := new StyledWriter();
    var text := writer.Write(v);
    StyledReadsBack(v, text, scan);
    var reader := new Reader(scan);
    thrown, successful, result := reader.Parse(text, Null);
  }

  /** Writing with `FastWriter` and parsing with `Reader`. */
  method WriteThenParse(v: Value, show: Show, scan: bytes -> Option<real>) returns (thrown: bool, successful: bool, result: Value)
    requires WellFormed(v) && RealFree(v)
    ensures thrown <==> Depth(v) > STACK_LIMIT
    ensures !thrown ==> successful && result == Reread(v)
  {
    hide FastText, ReadValue, Depth, Reread;
    var writer := new FastWriter(show);
    var text := writer.Write(v);
    RoundTrip(v, show, scan);
    var reader := new Reader(scan);
    thrown, successful, result := reader.Parse(text, Null);
  }

  /** An object whose one member is named NUL: the two writers' texts tokenise differently. */
  method NulNameIsLost(show: Show) returns (styled: bytes, fast: bytes)
    ensures Tokens(styled, 0) != Tokens(fast, 0)
  {
    hide Laid, Lexemes, Tokens, FastText;
    var es := [Entry(Name([0]), Null)];
    assert 0 in NameOf(es[0].key);
    var writer := new StyledWriter();
    styled := writer.Write(Object(es));
    var plain := new FastWriter(show);
    fast := plain.Write(Object(es));
    SameTokensExactly(Object(es), styled, show);
  }
}
