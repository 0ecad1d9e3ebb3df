/** Layouts of a value, and when the names cut at NUL spell the same tokens as the whole ones. */
module JsonStyled {
  import opened Bytes
  import opened JsonValue
  import opened JsonMap
  import opened JsonNumber
  import opened JsonString
  import opened JsonToken
  import opened JsonWriter
  import opened JsonRoundTrip
  import opened JsonLayout

  const SPACE: byte := 0x20

  // ---- FastWriter lays out the lexemes of the value ----

  lemma ScalarLaid(v: Value, show: Show, cut: bool)
    requires !IsContainer(v) && !v.Real?
    ensures Laid(FastText(v, show), Lexemes(v, cut))
  {
    hide Laid;
    match v
    case Null => LaidLexeme(NullWord);
    case Int(i) => LaidLexeme(Num(i));
    case UInt(u) => LaidLexeme(Num(u));
    case String(s) => LaidLexeme(Str(s));
    case Bool(b) => LaidLexeme(if b then TrueWord else FalseWord);
  }

  lemma {:induction false} FastLaid(v: Value, show: Show)
    requires RealFree(v)
    ensures Laid(FastText(v, show), Lexemes(v, false))
    decreases v, 0
  {
    hide Laid, FastElements, FastMembers, ElementsLexemes, MembersLexemes, PrintedLength;
    match v
    case Array(es) =>
      var n := PrintedLength(es);
      ElementsLaid(es, 0, n, show);
      LaidLexeme(Punct(LBRACKET));
      LaidAppend([LBRACKET], [Punct(LBRACKET)],
                 FastElements(es, 0, n, show) + [RBRACKET], ElementsLexemes(es, 0, n, false) + [Punct(RBRACKET)]);
      assert FastText(v, show) == [LBRACKET] + (FastElements(es, 0, n, show) + [RBRACKET]);
      assert Lexemes(v, false) == [Punct(LBRACKET)] + (ElementsLexemes(es, 0, n, false) + [Punct(RBRACKET)]);
    case Object(es) =>
      MembersLaid(es, 0, show);
      LaidLexeme(Punct(LBRACE));
      LaidAppend([LBRACE], [Punct(LBRACE)],
                 FastMembers(es, 0, show) + [RBRACE], MembersLexemes(es, 0, false) + [Punct(RBRACE)]);
      assert FastText(v, show) == [LBRACE] + (FastMembers(es, 0, show) + [RBRACE]);
      assert Lexemes(v, false) == [Punct(LBRACE)] + (MembersLexemes(es, 0, false) + [Punct(RBRACE)]);
    case _ =>
      ScalarLaid(v, show, false);
  }

  /** `sep`, a piece and the rest: the shape in which both containers are printed. */
  lemma LaidPiece(i: nat, piece: bytes, x: seq<Lexeme>, rest: bytes, y: seq<Lexeme>)
    requires Laid(piece, x) && Laid(rest, y) && StartsClean(rest)
    ensures Laid(Separator(i) + piece + rest, Comma(i) + x + y)
  {
    hide Laid;
    LaidAppend(piece, x, rest, y);
    assert Separator(i) + piece + rest == Separator(i) + (piece + rest);
    assert Comma(i) + x + y == Comma(i) + (x + y);
    if i > 0 {
      LaidLexeme(Punct(COMMA));
      LaidAppend([COMMA], [Punct(COMMA)], piece + rest, x + y);
    } else {
      assert Separator(i) + (piece + rest) == piece + rest && Comma(i) + (x + y) == x + y;
    }
  }

  lemma {:induction false} ElementsLaid(es: seq<Entry>, i: nat, n: nat, show: Show)
    requires RealFree(Array(es))
    ensures Laid(FastElements(es, i, n, show) + [RBRACKET], ElementsLexemes(es, i, n, false) + [Punct(RBRACKET)])
    ensures i > 0 ==> StartsClean(FastElements(es, i, n, show) + [RBRACKET])
    decreases es, 1, n - i
  {
    hide Laid, FastElement, ElementLexemes, RealFree;
    if i >= n {
      LaidLexeme(Punct(RBRACKET));
      assert FastElements(es, i, n, show) + [RBRACKET] == [RBRACKET];
      assert ElementsLexemes(es, i, n, false) + [Punct(RBRACKET)] == [Punct(RBRACKET)];
    } else {
      var e, x := FastElement(es, i, show), ElementLexemes(es, i, false);
      var rest, y := FastElements(es, i + 1, n, show) + [RBRACKET], ElementsLexemes(es, i + 1, n, false) + [Punct(RBRACKET)];
      ElementLaid(es, i, show);
      ElementsLaid(es, i + 1, n, show);
      LaidPiece(i, e, x, rest, y);
      assert FastElements(es, i, n, show) + [RBRACKET] == Separator(i) + e + rest;
      assert ElementsLexemes(es, i, n, false) + [Punct(RBRACKET)] == Comma(i) + x + y;
    }
  }

  lemma {:induction false} ElementLaid(es: seq<Entry>, i: nat, show: Show)
    requires RealFree(Array(es))
    ensures Laid(FastElement(es, i, show), ElementLexemes(es, i, false))
    decreases es, 0
  {
    hide Laid, LowerBound;
    var p := LowerBound(es, Index(i));
    if p < |es| && es[p].key == Index(i) {
      assert (es decreases to es[p]);
      FastLaid(es[p].value, show);
    } else {
      LaidLexeme(NullWord);
    }
  }

  lemma {:induction false} MembersLaid(es: seq<Entry>, i: nat, show: Show)
    requires RealFree(Object(es))
    ensures Laid(FastMembers(es, i, show) + [RBRACE], MembersLexemes(es, i, false) + [Punct(RBRACE)])
    ensures i > 0 ==> StartsClean(FastMembers(es, i, show) + [RBRACE])
    decreases es, 1, |es| - i
  {
    hide Laid, FastMember, MemberLexemes;
    if i >= |es| {
      LaidLexeme(Punct(RBRACE));
      assert FastMembers(es, i, show) + [RBRACE] == [RBRACE];
      assert MembersLexemes(es, i, false) + [Punct(RBRACE)] == [Punct(RBRACE)];
    } else {
      var e, x := FastMember(es[i], show), MemberLexemes(es[i], false);
      var rest, y := FastMembers(es, i + 1, show) + [RBRACE], MembersLexemes(es, i + 1, false) + [Punct(RBRACE)];
      assert (es decreases to es[i]);
      MemberLaid(es[i], show);
      MembersLaid(es, i + 1, show);
      LaidPiece(i, e, x, rest, y);
      assert FastMembers(es, i, show) + [RBRACE] == Separator(i) + e + rest;
      assert MembersLexemes(es, i, false) + [Punct(RBRACE)] == Comma(i) + x + y;
    }
  }

  lemma {:induction false} MemberLaid(e: Entry, show: Show)
    requires RealFree(e.value)
    ensures Laid(FastMember(e, show), MemberLexemes(e, false))
    decreases e, 0
  {
    hide Laid, FastText, Lexemes;
    var name := NameOf(e.key);
    var text, x := FastText(e.value, show), Lexemes(e.value, false);
    FastLaid(e.value, show);
    LaidLexeme(Punct(COLON));
    LaidAppend([COLON], [Punct(COLON)], text, x);
    LaidLexeme(Str(name));
    LaidAppend(Quote(name), [Str(name)], [COLON] + text, [Punct(COLON)] + x);
    assert FastMember(e, show) == Quote(name) + ([COLON] + text);
    assert MemberLexemes(e, false) == [Str(name)] + ([Punct(COLON)] + x);
  }

  // ---- when whole and cut names spell the same ----

  ghost predicate NamesNulFree(v: Value) {
    match v
    case Array(es) => forall k | 0 <= k < |es| :: NamesNulFree(es[k].value)
    case Object(es) => forall k | 0 <= k < |es| :: 0 !in NameOf(es[k].key) && NamesNulFree(es[k].value)
    case _ => true
  }

  predicate SameSpelling(x: seq<Lexeme>, y: seq<Lexeme>) {
    Spelled(x) == Spelled(y)
  }

  lemma SpelledConcat(x: seq<Lexeme>, y: seq<Lexeme>)
    ensures Spelled(x + y) == Spelled(x) + Spelled(y)
  {
    hide Spell, KindOf;
  }

  lemma SameConcat(x: seq<Lexeme>, x': seq<Lexeme>, y: seq<Lexeme>, y': seq<Lexeme>)
    requires |x| == |y|
    ensures SameSpelling(x + x', y + y') <==> SameSpelling(x, y) && SameSpelling(x', y')
  {
    hide Spelled;
    SpelledConcat(x, x');
    SpelledConcat(y, y');
    SpelledLength(x);
    SpelledLength(y);
    if SameSpelling(x + x', y + y') {
      assert Spelled(x) == Spelled(x + x')[..|x|] && Spelled(x') == Spelled(x + x')[|x|..];
      assert Spelled(y) == Spelled(y + y')[..|y|] && Spelled(y') == Spelled(y + y')[|y|..];
    }
  }

  lemma SpelledLength(x: seq<Lexeme>)
    ensures |Spelled(x)| == |x|
  {
  }

  lemma {:induction false} SameLength(v: Value)
    ensures |Lexemes(v, true)| == |Lexemes(v, false)|
    decreases v, 0
  {
    hide PrintedLength;
    match v
    case Array(es) => ElementsSameLength(es, 0, PrintedLength(es));
    case Object(es) => MembersSameLength(es, 0);
    case _ =>
  }

  lemma {:induction false} ElementSameLength(es: seq<Entry>, i: nat)
    ensures |ElementLexemes(es, i, true)| == |ElementLexemes(es, i, false)|
    decreases es, 0
  {
    hide LowerBound;
    var p := LowerBound(es, Index(i));
    if p < |es| && es[p].key == Index(i) {
      assert (es decreases to es[p]);
      SameLength(es[p].value);
    }
  }

  lemma {:induction false} ElementsSameLength(es: seq<Entry>, i: nat, n: nat)
    ensures |ElementsLexemes(es, i, n, true)| == |ElementsLexemes(es, i, n, false)|
    decreases es, 1, n - i
  {
    hide ElementLexemes;
    if i < n {
      ElementSameLength(es, i);
      ElementsSameLength(es, i + 1, n);
    }
  }

  lemma {:induction false} MembersSameLength(es: seq<Entry>, i: nat)
    ensures |MembersLexemes(es, i, true)| == |MembersLexemes(es, i, false)|
    decreases es, 1, |es| - i
  {
    hide Lexemes;
    if i < |es| {
      assert (es decreases to es[i]);
      SameLength(es[i].value);
      MembersSameLength(es, i + 1);
    }
  }

  lemma QuoteInjective(a: bytes, b: bytes)
    requires Quote(a) == Quote(b)
    ensures a == b
  {
    hide Escape, DecodeBody;
    assert Quote(a)[1..|Quote(a)| - 1] == Escape(a) && Quote(b)[1..|Quote(b)| - 1] == Escape(b);
    DecodeInvertsEscape(a);
    DecodeInvertsEscape(b);
  }

  lemma NameSpelling(name: bytes)
    ensures SameSpelling([Str(UpToNul(name))], [Str(name)]) <==> 0 !in name
  {
    hide Quote;
    UpToNulWhole(name);
    var x, y := [Str(UpToNul(name))], [Str(name)];
    if SameSpelling(x, y) {
      assert Spelled(x)[0].text == Quote(UpToNul(name)) && Spelled(y)[0].text == Quote(name);
      QuoteInjective(UpToNul(name), name);
    }
  }

  lemma {:induction false} MemberSpelling(e: Entry)
    requires WellFormed(e.value) && SizesFit(e.value)
    ensures SameSpelling(MemberLexemes(e, true), MemberLexemes(e, false)) <==> 0 !in NameOf(e.key) && NamesNulFree(e.value)
    decreases e, 0
  {
    hide Lexemes, Spelled, UpToNul;
    var name := NameOf(e.key);
    var x, y := Lexemes(e.value, true), Lexemes(e.value, false);
    SpellingExactly(e.value);
    SameConcat([Punct(COLON)], x, [Punct(COLON)], y);
    SameConcat([Str(UpToNul(name))], [Punct(COLON)] + x, [Str(name)], [Punct(COLON)] + y);
    NameSpelling(name);
    assert MemberLexemes(e, true) == [Str(UpToNul(name))] + ([Punct(COLON)] + x);
    assert MemberLexemes(e, false) == [Str(name)] + ([Punct(COLON)] + y);
  }

  lemma {:induction false} MembersSpelling(es: seq<Entry>, i: nat)
    requires WellFormed(Object(es)) && SizesFit(Object(es))
    ensures SameSpelling(MembersLexemes(es, i, true), MembersLexemes(es, i, false)) <==>
            forall k | i <= k < |es| :: 0 !in NameOf(es[k].key) && NamesNulFree(es[k].value)
    decreases es, 1, |es| - i
  {
    hide MemberLexemes, Spelled, NameOf, NamesNulFree;
    if i < |es| {
      assert (es decreases to es[i]);
      MemberSpelling(es[i]);
      MembersSpelling(es, i + 1);
      var x, y := MemberLexemes(es[i], true), MemberLexemes(es[i], false);
      var x', y' := MembersLexemes(es, i + 1, true), MembersLexemes(es, i + 1, false);
      MemberSameLength(es[i]);
      SameConcat(x, x', y, y');
      SameConcat(Comma(i), x + x', Comma(i), y + y');
      assert MembersLexemes(es, i, true) == Comma(i) + (x + x') && MembersLexemes(es, i, false) == Comma(i) + (y + y');
    }
  }

  lemma MemberSameLength(e: Entry)
    ensures |MemberLexemes(e, true)| == |MemberLexemes(e, false)|
  {
    SameLength(e.value);
  }

  lemma {:induction false} ElementsSpelling(es: seq<Entry>, i: nat, n: nat)
    ensures SameSpelling(ElementsLexemes(es, i, n, true), ElementsLexemes(es, i, n, false)) <==>
            forall j: nat | i <= j < n :: SlotSame(es, j)
    decreases n - i
  {
    hide ElementLexemes, Spelled;
    if i < n {
      ElementsSpelling(es, i + 1, n);
      ElementSameLength(es, i);
      var x, y := ElementLexemes(es, i, true), ElementLexemes(es, i, false);
      var x', y' := ElementsLexemes(es, i + 1, n, true), ElementsLexemes(es, i + 1, n, false);
      SameConcat(x, x', y, y');
      SameConcat(Comma(i), x + x', Comma(i), y + y');
      assert SlotSame(es, i) <==> SameSpelling(x, y);
      assert ElementsLexemes(es, i, n, true) == Comma(i) + (x + x');
      assert ElementsLexemes(es, i, n, false) == Comma(i) + (y + y');
    }
  }

  ghost predicate SlotSame(es: seq<Entry>, j: nat) {
    SameSpelling(ElementLexemes(es, j, true), ElementLexemes(es, j, false))
  }

  lemma {:induction false} SlotSpelling(es: seq<Entry>, k: nat)
    requires WellFormed(Array(es)) && SizesFit(Array(es)) && k < |es|
    ensures es[k].key.index < PrintedLength(es)
    ensures SlotSame(es, es[k].key.index) <==> NamesNulFree(es[k].value)
    decreases es, 0
  {
    hide LowerBound, PrintedLength, Lexemes, Spelled;
    PrintedLengthIs(es);
    if k < |es| - 1 { assert KeyLess(es[k].key, es[|es| - 1].key); }
    LookupAt(es, true, k);
    assert (es decreases to es[k]);
    SpellingExactly(es[k].value);
  }

  lemma {:induction false} ArraySpelling(es: seq<Entry>)
    requires WellFormed(Array(es)) && SizesFit(Array(es))
    ensures (forall j: nat | j < PrintedLength(es) :: SlotSame(es, j)) <==> NamesNulFree(Array(es))
    decreases es, 1
  {
    hide LowerBound, PrintedLength, Lexemes, SameSpelling, SizesFit;
    forall k | 0 <= k < |es|
      ensures es[k].key.index < PrintedLength(es)
      ensures SlotSame(es, es[k].key.index) <==> NamesNulFree(es[k].value)
    {
      SlotSpelling(es, k);
    }
    if NamesNulFree(Array(es)) {
      forall j: nat | j < PrintedLength(es) ensures SlotSame(es, j) {
        var p := LowerBound(es, Index(j));
        if p < |es| && es[p].key == Index(j) {
          assert es[p].key.index == j;
        } else {
          SameItself([NullWord]);
        }
      }
    }
  }

  lemma SameItself(x: seq<Lexeme>)
    ensures SameSpelling(x, x)
  {
  }

  lemma {:induction false} SpellingExactly(v: Value)
    requires WellFormed(v) && SizesFit(v)
    ensures SameSpelling(Lexemes(v, true), Lexemes(v, false)) <==> NamesNulFree(v)
    decreases v, 2
  {
    hide Spelled, PrintedLength, ElementsLexemes, MembersLexemes;
    match v
    case Array(es) =>
      var n := PrintedLength(es);
      ElementsSpelling(es, 0, n);
      ArraySpelling(es);
      ElementsSameLength(es, 0, n);
      Bracketed(Punct(LBRACKET), ElementsLexemes(es, 0, n, true), ElementsLexemes(es, 0, n, false), Punct(RBRACKET));
    case Object(es) =>
      MembersSpelling(es, 0);
      MembersSameLength(es, 0);
      Bracketed(Punct(LBRACE), MembersLexemes(es, 0, true), MembersLexemes(es, 0, false), Punct(RBRACE));
    case _ =>
  }

  lemma Bracketed(l: Lexeme, x: seq<Lexeme>, y: seq<Lexeme>, r: Lexeme)
    requires |x| == |y|
    ensures SameSpelling([l] + x + [r], [l] + y + [r]) <==> SameSpelling(x, y)
  {
    hide Spelled;
    SameConcat([l], x, [l], y);
    SameConcat([l] + x, [r], [l] + y, [r]);
  }

  // ---- sizes ----

  /** `size()` of any value; an object's count is cast to 32 bits. */
  function SizeOf(v: Value): nat {
    match v
    case Array(es) => if es == [] || !es[|es| - 1].key.Index? then 0 else ArraySize(es)
    case Object(es) => |es| % TWO32
    case _ => 0
  }

  /** Array sizes fit an `int` and object sizes 32 bits, throughout. */
  ghost predicate Sized(v: Value) {
    match v
    case Array(es) => Span(es) < TWO31 && forall k | 0 <= k < |es| :: Sized(es[k].value)
    case Object(es) => |es| < TWO32 && forall k | 0 <= k < |es| :: Sized(es[k].value)
    case _ => true
  }

  lemma {:induction false} SizedFits(v: Value)
    requires Sized(v)
    ensures SizesFit(v)
    decreases v
  {
    if IsContainer(v) {
      forall k | 0 <= k < |v.entries| ensures SizesFit(v.entries[k].value) {
        SizedFits(v.entries[k].value);
      }
    }
  }

  ghost predicate Printable(v: Value) {
    WellFormed(v) && RealFree(v) && Sized(v)
  }

  predicate IsLeaf(v: Value) {
    IsContainer(v) ==> SizeOf(v) == 0
  }

  lemma EndsCleanConcat(a: bytes, b: bytes)
    requires b != [] && !IsDigit(b[|b| - 1])
    ensures EndsClean(a + b)
  {
  }

  lemma SpacesAround(a: bytes, t: bytes, x: seq<Lexeme>, b: bytes)
    requires AllSpace(a) && AllSpace(b) && Laid(t, x)
    ensures Laid(a + t + b, x)
  {
    hide Laid;
    LaidSpaces(a);
    LaidSpaces(b);
    LaidAppend(t, x, b, []);
    LaidAppend(a, [], t + b, x + []);
    assert a + t + b == a + (t + b) && [] + (x + []) == x;
  }

  // ---- pieces of layout ----

  lemma ArraySizeIs(es: seq<Entry>)
    requires Printable(Array(es))
    ensures SizeOf(Array(es)) == PrintedLength(es)
  {
    if es != [] {
      assert es[|es| - 1].key.Index?;
    }
  }

  lemma EmptyArrayLaid(es: seq<Entry>)
    requires PrintedLength(es) == 0
    ensures Laid([LBRACKET, RBRACKET], Lexemes(Array(es), true))
  {
    hide Laid, PrintedLength;
    LaidLexeme(Punct(LBRACKET));
    LaidLexeme(Punct(RBRACKET));
    LaidAppend([LBRACKET], [Punct(LBRACKET)], [RBRACKET], [Punct(RBRACKET)]);
    assert [LBRACKET] + [RBRACKET] == [LBRACKET, RBRACKET];
    assert [Punct(LBRACKET)] + [Punct(RBRACKET)] == Lexemes(Array(es), true);
  }

  lemma EmptyObjectLaid()
    ensures Laid([LBRACE, RBRACE], Lexemes(Object([]), true))
  {
    hide Laid;
    LaidLexeme(Punct(LBRACE));
    LaidLexeme(Punct(RBRACE));
    LaidAppend([LBRACE], [Punct(LBRACE)], [RBRACE], [Punct(RBRACE)]);
    assert [LBRACE] + [RBRACE] == [LBRACE, RBRACE];
    assert [Punct(LBRACE)] + [Punct(RBRACE)] == Lexemes(Object([]), true);
  }

  lemma MemberPieceLaid(ws: bytes, name: bytes, text: bytes, x: seq<Lexeme>)
    requires AllSpace(ws) && Laid(text, x)
    ensures Laid(ws + Quote(name) + [SPACE, COLON, SPACE] + text, [Str(name), Punct(COLON)] + x)
  {
    hide Laid, Quote;
    LaidLexeme(Str(name));
    LaidLexeme(Punct(COLON));
    SpacesAround(ws, Quote(name), [Str(name)], []);
    SpacesAround([SPACE], [COLON], [Punct(COLON)], [SPACE]);
    assert ws + Quote(name) + [] == ws + Quote(name) && [SPACE] + [COLON] + [SPACE] == [SPACE, COLON, SPACE];
    LaidAppend(ws + Quote(name), [Str(name)], [SPACE, COLON, SPACE], [Punct(COLON)]);
    EndsCleanConcat(ws + Quote(name), [SPACE, COLON, SPACE]);
    LaidAppend(ws + Quote(name) + [SPACE, COLON, SPACE], [Str(name)] + [Punct(COLON)], text, x);
    assert [Str(name)] + [Punct(COLON)] == [Str(name), Punct(COLON)];
  }

  /**
    * Any text laid out as the styled writer lays out `v` tokenises to the tokens of the fast
    * writer's text exactly when no member name in `v` holds a NUL.
    */
  lemma SameTokensExactly(v: Value, styled: bytes, show: Show)
    requires Printable(v) && Laid(styled, Lexemes(v, true))
    ensures Tokens(styled, 0) == Tokens(FastText(v, show) + [NEWLINE], 0) <==> NamesNulFree(v)
  {
    hide Laid, Lexemes, FastText, Tokens;
    var fast := FastText(v, show) + [NEWLINE];
    FastLaid(v, show);
    LaidSpaces([NEWLINE]);
    LaidAppend(FastText(v, show), Lexemes(v, false), [NEWLINE], []);
    assert Lexemes(v, false) + [] == Lexemes(v, false);
    assert styled[0..] == styled && fast[0..] == fast;
    LaidTokens(styled, 0, Lexemes(v, true));
    LaidTokens(fast, 0, Lexemes(v, false));
    SizedFits(v);
    SpellingExactly(v);
  }
}
