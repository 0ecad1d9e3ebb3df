/** `StyledWriter`: the text it writes, line by line, and the class that writes it. */
module JsonStyledWriter {
  import opened Bytes
  import opened JsonValue
  import opened JsonMap
  import opened JsonNumber
  import opened JsonString
  import opened JsonToken
  import opened JsonWriter
  import opened JsonRoundTrip
  import opened JsonLayout
  import opened JsonStyled

  // ---- the text ----

  function Spaces(n: nat): (s: bytes)
    ensures |s| == n && forall i | 0 <= i < n :: s[i] == 0x20
  {
    seq(n, _ => 0x20)
  }

  /** A new line, indented by `n`. */
  function Line(n: nat): bytes {
    [0x0A] + Spaces(n)
  }

  /**
    * What is written for `v` where the indentation is `ind`. Members, and elements of an array that
    * is broken, stand on lines of their own, indented by three more; the closing bracket stands
    * under the line of the opening one.
    */
  function StyledText(v: Value, ind: nat): bytes
    decreases v, 0
  {
    match v
    case Array(es) =>
      var n := SizeOf(v);
      if n == 0 then [0x5B, 0x5D]
      else if Broken(es) then [0x5B] + StyledElements(es, 0, n, ind + 3) + (Line(ind) + [0x5D])
      else [0x5B, 0x20] + OneLine(es, 0, n) + [0x20, 0x5D]
    case Object(es) =>
      if es == [] then [0x7B, 0x7D] else [0x7B] + StyledMembers(es, 0, ind + 3) + (Line(ind) + [0x7D])
    case _ => FastText(v, r => [])
  }

  function StyledElement(es: seq<Entry>, i: nat, ind: nat): bytes
    decreases es, 0
  {
    var p := LowerBound(es, Index(i));
    if p < |es| && es[p].key == Index(i) then
      assert (es decreases to es[p]);
      StyledText(es[p].value, ind)
    else NULL_TEXT
  }

  /** Elements `i..n`, one to a line. */
  function StyledElements(es: seq<Entry>, i: nat, n: nat, ind: nat): bytes
    decreases es, 1, n - i
  {
    if i >= n then []
    else Separator(i) + (Line(ind) + StyledElement(es, i, ind)) + StyledElements(es, i + 1, n, ind)
  }

  function Gap(i: nat): bytes {
    if i > 0 then [0x20] else []
  }

  /** Elements `i..n` on one line. */
  function OneLine(es: seq<Entry>, i: nat, n: nat): bytes
    decreases es, 1, n - i
  {
    if i >= n then [] else Separator(i) + (Gap(i) + StyledElement(es, i, 0)) + OneLine(es, i + 1, n)
  }

  function StyledMember(e: Entry, ind: nat): bytes
    decreases e, 0
  {
    Line(ind) + Quote(UpToNul(NameOf(e.key))) + [0x20, 0x3A, 0x20] + StyledText(e.value, ind)
  }

  function StyledMembers(es: seq<Entry>, i: nat, ind: nat): bytes
    decreases es, 1, |es| - i
  {
    if i >= |es| then []
    else
      assert (es decreases to es[i]);
      Separator(i) + StyledMember(es[i], ind) + StyledMembers(es, i + 1, ind)
  }

  /**
    * An array is broken over lines if it has 25 elements or more, if an element is a container that
    * is not empty, or if on one line it would take 74 characters. The `int` sums wrap.
    */
  predicate Broken(es: seq<Entry>)
    decreases es, 3
  {
    var n := SizeOf(Array(es));
    || ToInt32(n * 3) >= 74
    || (exists i: nat | i < n :: !IsLeaf(GetOrNull(es, i)))
    || LineLength(es, n, n) >= 74
  }

  /** `[ `, ` ]` and the separators of `n` elements, and the first `i` of them. */
  function LineLength(es: seq<Entry>, i: nat, n: nat): int
    decreases es, 2, i
  {
    if i == 0 then ToInt32(4 + n * 2 - 2) else ToInt32(LineLength(es, i - 1, n) + |StyledElement(es, i - 1, 0)|)
  }

  /** Below 2^29 elements and 2^29 octets of text the sums are exact. */
  lemma {:induction false} LineLengthIs(es: seq<Entry>, i: nat, n: nat)
    requires i <= n < 0x2000_0000 && TextLength(es, i) < 0x2000_0000
    ensures LineLength(es, i, n) == 4 + (n - 1) * 2 + TextLength(es, i)
  {
    hide StyledElement;
    if i > 0 {
      LineLengthIs(es, i - 1, n);
    }
  }

  function TextLength(es: seq<Entry>, i: nat): nat {
    if i == 0 then 0 else TextLength(es, i - 1) + |StyledElement(es, i - 1, 0)|
  }

  // ---- it is a layout ----

  lemma LineIsSpace(n: nat)
    ensures AllSpace(Line(n)) && Line(n) != [] && Line(n)[0] == 0x0A
  {
  }

  lemma ClosingLaid(ind: nat, c: byte)
    requires c in {RBRACE, RBRACKET}
    ensures Laid(Line(ind) + [c], [Punct(c)]) && StartsClean(Line(ind) + [c])
  {
    hide Laid, Line;
    LineIsSpace(ind);
    LaidLexeme(Punct(c));
    SpacesAround(Line(ind), [c], [Punct(c)], []);
    assert Line(ind) + [c] + [] == Line(ind) + [c];
    assert (Line(ind) + [c])[0] == 0x0A;
  }

  /** An opening bracket before a laid out body. */
  lemma OpeningLaid(c: byte, body: bytes, x: seq<Lexeme>)
    requires c in {LBRACE, LBRACKET} && Laid(body, x)
    ensures Laid([c] + body, [Punct(c)] + x)
  {
    hide Laid;
    LaidLexeme(Punct(c));
    LaidAppend([c], [Punct(c)], body, x);
  }

  lemma {:induction false} StyledLaid(v: Value, ind: nat)
    requires Printable(v)
    ensures Laid(StyledText(v, ind), Lexemes(v, true))
    decreases v, 3
  {
    hide Laid, StyledElements, OneLine, StyledMembers, Line, ElementsLexemes, MembersLexemes, Broken, PrintedLength, Printable;
    PrintableParts(v);
    match v
    case Array(es) => ArrayStyled(es, ind);
    case Object(es) =>
      if es == [] {
        EmptyObjectLaid();
      } else {
        ClosingLaid(ind, RBRACE);
        MembersStyled(es, 0, ind + 3, Line(ind) + [RBRACE], [Punct(RBRACE)]);
        OpeningLaid(LBRACE, StyledMembers(es, 0, ind + 3) + (Line(ind) + [RBRACE]), MembersLexemes(es, 0, true) + [Punct(RBRACE)]);
        Enclosed([LBRACE], StyledMembers(es, 0, ind + 3), Line(ind) + [RBRACE]);
        EnclosedLexemes(Punct(LBRACE), MembersLexemes(es, 0, true), Punct(RBRACE));
      }
    case _ => ScalarLaid(v, r => [], true);
  }

  lemma PrintableParts(v: Value)
    requires Printable(v)
    ensures WellFormed(v) && RealFree(v) && !v.Real?
  {
  }

  lemma Enclosed(a: bytes, b: bytes, c: bytes)
    ensures a + b + c == a + (b + c)
  {
  }

  lemma EnclosedLexemes(open: Lexeme, x: seq<Lexeme>, close: Lexeme)
    ensures [open] + x + [close] == [open] + (x + [close])
  {
  }

  lemma {:induction false} ArrayStyled(es: seq<Entry>, ind: nat)
    requires Printable(Array(es))
    ensures Laid(StyledText(Array(es), ind), Lexemes(Array(es), true))
    decreases es, 2
  {
    hide Laid, StyledElements, OneLine, Line, ElementsLexemes, Broken, PrintedLength, Printable, SizeOf;
    ArraySizeIs(es);
    var n := SizeOf(Array(es));
    EnclosedLexemes(Punct(LBRACKET), ElementsLexemes(es, 0, n, true), Punct(RBRACKET));
    if n == 0 {
      EmptyArrayLaid(es);
    } else if Broken(es) {
      ClosingLaid(ind, RBRACKET);
      LinesStyled(es, 0, n, ind + 3, Line(ind) + [RBRACKET], [Punct(RBRACKET)]);
      OpeningLaid(LBRACKET, StyledElements(es, 0, n, ind + 3) + (Line(ind) + [RBRACKET]), ElementsLexemes(es, 0, n, true) + [Punct(RBRACKET)]);
      Enclosed([LBRACKET], StyledElements(es, 0, n, ind + 3), Line(ind) + [RBRACKET]);
    } else {
      LaidLexeme(Punct(RBRACKET));
      SpacesAround([SPACE], [RBRACKET], [Punct(RBRACKET)], []);
      assert [SPACE] + [RBRACKET] + [] == [SPACE, RBRACKET];
      OneLineStyled(es, 0, n, [SPACE, RBRACKET], [Punct(RBRACKET)]);
      var body := OneLine(es, 0, n) + [SPACE, RBRACKET];
      SpacesAround([SPACE], body, ElementsLexemes(es, 0, n, true) + [Punct(RBRACKET)], []);
      assert [SPACE] + body + [] == [SPACE] + body;
      OpeningLaid(LBRACKET, [SPACE] + body, ElementsLexemes(es, 0, n, true) + [Punct(RBRACKET)]);
      assert [LBRACKET] + ([SPACE] + body) == [LBRACKET, SPACE] + OneLine(es, 0, n) + [SPACE, RBRACKET];
    }
  }

  lemma {:induction false} ElementStyled(es: seq<Entry>, i: nat, ind: nat)
    requires Printable(Array(es))
    ensures Laid(StyledElement(es, i, ind), ElementLexemes(es, i, true))
    decreases es, 0
  {
    hide Laid, LowerBound, StyledText, Lexemes;
    var p := LowerBound(es, Index(i));
    if p < |es| && es[p].key == Index(i) {
      assert (es decreases to es[p]);
      StyledLaid(es[p].value, ind);
    } else {
      LaidLexeme(NullWord);
    }
  }

  /** A piece with its comma before a rest that is laid out. */
  lemma PieceThenRest(i: nat, piece: bytes, x: seq<Lexeme>, rest: bytes, y: seq<Lexeme>, close: bytes, ls: seq<Lexeme>)
    requires Laid(piece, x) && Laid(rest + close, y + ls) && StartsClean(rest + close)
    ensures Laid(Separator(i) + piece + rest + close, Comma(i) + x + y + ls)
    ensures i > 0 ==> StartsClean(Separator(i) + piece + rest + close)
  {
    hide Laid;
    LaidPiece(i, piece, x, rest + close, y + ls);
    assert Separator(i) + piece + (rest + close) == Separator(i) + piece + rest + close;
    assert Comma(i) + x + (y + ls) == Comma(i) + x + y + ls;
  }

  lemma NothingThen(close: bytes, ls: seq<Lexeme>)
    ensures [] + close == close && [] + ls == ls
  {
  }

  lemma ElementsLexemesFrom(es: seq<Entry>, i: nat, n: nat)
    ensures ElementsLexemes(es, i, n, true) ==
            if i >= n then [] else Comma(i) + ElementLexemes(es, i, true) + ElementsLexemes(es, i + 1, n, true)
  {
    hide ElementLexemes;
  }

  /** White space before a piece. */
  lemma SpacedPiece(ws: bytes, text: bytes, x: seq<Lexeme>)
    requires AllSpace(ws) && Laid(text, x)
    ensures Laid(ws + text, x)
  {
    hide Laid;
    SpacesAround(ws, text, x, []);
    assert ws + text + [] == ws + text;
  }

  lemma {:induction false} LinesStyled(es: seq<Entry>, i: nat, n: nat, ind: nat, close: bytes, ls: seq<Lexeme>)
    requires Printable(Array(es)) && Laid(close, ls) && StartsClean(close)
    ensures Laid(StyledElements(es, i, n, ind) + close, ElementsLexemes(es, i, n, true) + ls)
    ensures i > 0 ==> StartsClean(StyledElements(es, i, n, ind) + close)
    decreases es, 1, n - i
  {
    hide Laid, StyledElement, StyledElements, ElementLexemes, ElementsLexemes, Line, Printable, Separator, Comma;
    StyledElementsFrom(es, i, n, ind);
    ElementsLexemesFrom(es, i, n);
    if i >= n {
      NothingThen(close, ls);
    } else {
      var text, x := StyledElement(es, i, ind), ElementLexemes(es, i, true);
      ElementStyled(es, i, ind);
      LineIsSpace(ind);
      SpacedPiece(Line(ind), text, x);
      LinesStyled(es, i + 1, n, ind, close, ls);
      PieceThenRest(i, Line(ind) + text, x, StyledElements(es, i + 1, n, ind), ElementsLexemes(es, i + 1, n, true), close, ls);
    }
  }

  lemma StyledElementsFrom(es: seq<Entry>, i: nat, n: nat, ind: nat)
    ensures StyledElements(es, i, n, ind) ==
            if i >= n then [] else Separator(i) + (Line(ind) + StyledElement(es, i, ind)) + StyledElements(es, i + 1, n, ind)
  {
    hide StyledElement, Line, Separator;
  }

  lemma {:induction false} OneLineStyled(es: seq<Entry>, i: nat, n: nat, close: bytes, ls: seq<Lexeme>)
    requires Printable(Array(es)) && Laid(close, ls) && StartsClean(close)
    ensures Laid(OneLine(es, i, n) + close, ElementsLexemes(es, i, n, true) + ls)
    ensures i > 0 ==> StartsClean(OneLine(es, i, n) + close)
    decreases es, 1, n - i
  {
    hide Laid, StyledElement, OneLine, ElementLexemes, ElementsLexemes, Printable, Separator, Comma;
    OneLineFrom(es, i, n);
    ElementsLexemesFrom(es, i, n);
    if i >= n {
      NothingThen(close, ls);
    } else {
      var text, x := StyledElement(es, i, 0), ElementLexemes(es, i, true);
      ElementStyled(es, i, 0);
      SpacedPiece(Gap(i), text, x);
      OneLineStyled(es, i + 1, n, close, ls);
      PieceThenRest(i, Gap(i) + text, x, OneLine(es, i + 1, n), ElementsLexemes(es, i + 1, n, true), close, ls);
    }
  }

  lemma {:induction false} MembersStyled(es: seq<Entry>, i: nat, ind: nat, close: bytes, ls: seq<Lexeme>)
    requires Printable(Object(es)) && Laid(close, ls) && StartsClean(close)
    ensures Laid(StyledMembers(es, i, ind) + close, MembersLexemes(es, i, true) + ls)
    ensures i > 0 ==> StartsClean(StyledMembers(es, i, ind) + close)
    decreases es, 2, |es| - i
  {
    hide Laid, StyledMember, StyledMembers, MemberLexemes, MembersLexemes, Printable, Separator, Comma;
    StyledMembersFrom(es, i, ind);
    if i >= |es| {
      NothingThen(close, ls);
    } else {
      var piece, x := StyledMember(es[i], ind), MemberLexemes(es[i], true);
      MemberPrintable(es, i);
      StyledLaid(es[i].value, ind);
      MemberStyled(es[i], ind);
      MembersStyled(es, i + 1, ind, close, ls);
      PieceThenRest(i, piece, x, StyledMembers(es, i + 1, ind), MembersLexemes(es, i + 1, true), close, ls);
    }
  }

  lemma StyledMembersFrom(es: seq<Entry>, i: nat, ind: nat)
    ensures StyledMembers(es, i, ind) ==
            if i >= |es| then [] else Separator(i) + StyledMember(es[i], ind) + StyledMembers(es, i + 1, ind)
    ensures MembersLexemes(es, i, true) ==
            if i >= |es| then [] else Comma(i) + MemberLexemes(es[i], true) + MembersLexemes(es, i + 1, true)
  {
    hide StyledMember, MemberLexemes, Separator, Comma;
  }

  lemma MemberPrintable(es: seq<Entry>, i: nat)
    requires Printable(Object(es)) && i < |es|
    ensures es[i].key.Name? && Printable(es[i].value)
    ensures (es decreases to es[i])
  {
  }

  lemma MemberStyled(e: Entry, ind: nat)
    requires Laid(StyledText(e.value, ind), Lexemes(e.value, true))
    ensures Laid(StyledMember(e, ind), MemberLexemes(e, true))
  {
    hide Laid, StyledText, Lexemes, Quote, Line;
    LineIsSpace(ind);
    MemberPieceLaid(Line(ind), UpToNul(NameOf(e.key)), StyledText(e.value, ind), Lexemes(e.value, true));
  }

  // ---- how texts end ----

  /** The text goes on neither from an indented nor from a fresh line. */
  predicate Solid(t: bytes) {
    t != [] && t[|t| - 1] != 0x20 && t[|t| - 1] != 0x0A
  }

  lemma SolidEnd(a: bytes, b: bytes)
    requires Solid(b)
    ensures Solid(a + b)
  {
  }

  lemma ScalarSolid(v: Value)
    requires !IsContainer(v) && !v.Real?
    ensures Solid(FastText(v, r => []))
  {
    match v
    case Int(i) => DigitsSolid(if i < 0 then -i else i);
    case UInt(u) => DigitsSolid(u);
    case _ =>
  }

  lemma DigitsSolid(n: nat)
    ensures Solid(Digits(n))
  {
    DigitsDenote(n);
    var ds := Digits(n);
    assert IsDigit(ds[|ds| - 1]);
  }

  lemma StyledSolid(v: Value, ind: nat)
    requires !v.Real?
    ensures Solid(StyledText(v, ind))
  {
    hide StyledElements, OneLine, StyledMembers, Broken, SizeOf, FastText;
    match v
    case Array(es) =>
      if SizeOf(v) != 0 {
        SolidEnd([0x5B] + StyledElements(es, 0, SizeOf(v), ind + 3), Line(ind) + [0x5D]);
        SolidEnd([0x5B, 0x20] + OneLine(es, 0, SizeOf(v)), [0x20, 0x5D]);
      }
    case Object(es) =>
      if es != [] {
        SolidEnd([0x7B] + StyledMembers(es, 0, ind + 3), Line(ind) + [0x7D]);
      }
    case _ => ScalarSolid(v);
  }

  /** A leaf is written alike wherever it stands. */
  lemma LeafText(v: Value, a: nat, b: nat)
    requires IsLeaf(v) && Printable(v)
    ensures StyledText(v, a) == StyledText(v, b)
  {
    hide StyledMembers, StyledElements, OneLine, Broken, FastText;
  }

  lemma LeafElement(es: seq<Entry>, i: nat, a: nat, b: nat)
    requires Printable(Array(es)) && IsLeaf(GetOrNull(es, i))
    ensures StyledElement(es, i, a) == StyledElement(es, i, b)
  {
    hide StyledText, LowerBound;
    var p := LowerBound(es, Index(i));
    if p < |es| && es[p].key == Index(i) {
      LeafText(es[p].value, a, b);
    }
  }

  // ---- class StyledWriter ----

  const RIGHT_MARGIN: int := 74
  const INDENT: bytes := [SPACE, SPACE, SPACE]

  /** What `writeIndent` adds. */
  function NewIndent(document: bytes, indent: bytes): bytes {
    if document == [] then indent
    else if document[|document| - 1] == SPACE then []
    else if document[|document| - 1] != NEWLINE then [NEWLINE] + indent
    else indent
  }

  lemma SolidIndent(document: bytes, ind: nat)
    requires Solid(document)
    ensures NewIndent(document, Spaces(ind)) == Line(ind)
  {
  }

  /** Where a value may start: at the top of the text or behind a space. */
  predicate Ready(document: bytes, indent: bytes) {
    if document == [] then indent == [] else document[|document| - 1] == SPACE
  }

  ghost predicate ChildTexts(cs: seq<bytes>, es: seq<Entry>, n: nat) {
    |cs| == n && forall i | 0 <= i < n :: cs[i] == StyledElement(es, i, 0)
  }

  class StyledWriter {
    var document: bytes
    var childValues: seq<bytes>
    var addChildValues: bool
    var indentString: bytes

    constructor ()
      ensures document == [] && !addChildValues
    {
      document, childValues, addChildValues, indentString := [], [], false, [];
    }

    method PushValue(value: bytes)
      modifies this`document, this`childValues
      ensures addChildValues ==> document == old(document) && childValues == old(childValues) + [value]
      ensures !addChildValues ==> document == old(document) + value && childValues == old(childValues)
    {
      if addChildValues {
        childValues := childValues + [value];
      } else {
        document := document + value;
      }
    }

    method WriteIndent()
      modifies this`document
      ensures document == old(document) + NewIndent(old(document), indentString)
    {
      if document != [] {
        var last := document[|document| - 1];
        if last == SPACE {
          return;
        }
        if last != NEWLINE {
          document := document + [NEWLINE];
        }
      }
      document := document + indentString;
    }

    method WriteWithIndent(value: bytes)
      modifies this`document
      ensures document == old(document) + NewIndent(old(document), indentString) + value
    {
      WriteIndent();
      document := document + value;
    }

    method Indent()
      requires indentString == Spaces(|indentString|)
      modifies this`indentString
      ensures indentString == Spaces(|old(indentString)| + 3)
    {
      indentString := indentString + INDENT;
    }

    /** The assertion that there is something to take off is the precondition here. */
    method Unindent()
      requires indentString == Spaces(|indentString|) && |indentString| >= |INDENT|
      modifies this`indentString
      ensures indentString == Spaces(|old(indentString)| - 3)
    {
      indentString := indentString[..|indentString| - |INDENT|];
    }

    /** Writes exactly the styled text and a line feed, and that is a layout of the value. */
    method Write(root: Value) returns (text: bytes)
      requires Printable(root)
      modifies this
      ensures text == document == StyledText(root, 0) + [NEWLINE]
      ensures Laid(text, Lexemes(root, true))
    {
      hide Laid, Lexemes, StyledText;
      document, addChildValues, indentString := [], false, [];
      WriteValue(root);
      document := document + [NEWLINE];
      StyledLaid(root, 0);
      LaidSpaces([NEWLINE]);
      LaidAppend(StyledText(root, 0), Lexemes(root, true), [NEWLINE], []);
      assert Lexemes(root, true) + [] == Lexemes(root, true);
      return document;
    }

    method WriteValue(value: Value)
      requires Printable(value) && indentString == Spaces(|indentString|)
      requires if addChildValues then IsLeaf(value) else Ready(document, indentString)
      modifies this
      ensures indentString == old(indentString) && addChildValues == old(addChildValues)
      ensures var text := StyledText(value, |indentString|);
              if addChildValues then document == old(document) && childValues == old(childValues) + [text]
              else document == old(document) + text
      decreases value, 1
    {
      hide StyledElements, StyledMembers, OneLine, Broken;
      if value.Array? {
        WriteArrayValue(value.entries);
      } else if value.Object? {
        WriteObjectValue(value.entries);
      } else {
        var t := ScalarText(value);
        PushValue(t);
      }
    }

    method ScalarText(value: Value) returns (t: bytes)
      requires !IsContainer(value) && !value.Real? && WellFormed(value)
      ensures t == FastText(value, r => [])
    {
      match value
      case Null => t := NULL_TEXT;
      case Int(i) => t := IntToString(i);
      case UInt(u) => t := UIntToText(u);
      case String(s) => t := ValueToQuotedStringN(s);
      case Bool(b) => t := if b then TRUE_TEXT else FALSE_TEXT;
    }

    // ---- objects ----

    method WriteObjectValue(es: seq<Entry>)
      requires Printable(Object(es)) && indentString == Spaces(|indentString|)
      requires if addChildValues then IsLeaf(Object(es)) else Ready(document, indentString)
      modifies this
      ensures indentString == old(indentString) && addChildValues == old(addChildValues)
      ensures var text := StyledText(Object(es), |indentString|);
              if addChildValues then document == old(document) && childValues == old(childValues) + [text]
              else document == old(document) + text
      decreases es, 3
    {
      hide StyledMembers, Line, Solid, NewIndent;
      if es == [] {
        PushValue([LBRACE, RBRACE]);
        return;
      }
      ghost var ind := |indentString|;
      ReadyIndent(document, indentString);
      WriteWithIndent([LBRACE]);
      SolidMark(old(document), LBRACE);
      Indent();
      WriteMembers(es);
      Unindent();
      SolidIndent(document, ind);
      WriteWithIndent([RBRACE]);
      Pieces(old(document), [LBRACE], StyledMembers(es, 0, ind + 3), Line(ind), [RBRACE]);
    }

    /** The member loop. */
    method WriteMembers(es: seq<Entry>)
      requires Printable(Object(es)) && indentString == Spaces(|indentString|) && es != [] && !addChildValues && Solid(document)
      modifies this
      ensures indentString == old(indentString) && !addChildValues && Solid(document)
      ensures document == old(document) + StyledMembers(es, 0, |indentString|)
      decreases es, 2
    {
      hide StyledMember, StyledMembers, Printable, Spaces, Solid;
      ghost var ind, body := |indentString|, [];
      MembersFrom(es, 0, ind);
      var i := 0;
      while true
        invariant 0 <= i < |es| && indentString == old(indentString) && !addChildValues && Solid(document)
        invariant document == old(document) + body
        invariant StyledMembers(es, 0, ind) == body + (StyledMember(es[i], ind) + StyledMembers(es, i + 1, ind))
        decreases |es| - i
      {
        MemberPrintable(es, i);
        WriteMember(es[i]);
        MembersFrom(es, i + 1, ind);
        ghost var piece := StyledMember(es[i], ind);
        if i + 1 == |es| {
          Grown(old(document), body, piece);
          break;
        }
        SolidMark(document, COMMA);
        document := document + [COMMA];
        Regroup(body, piece, StyledMember(es[i + 1], ind) + StyledMembers(es, i + 2, ind));
        Grown(old(document), body, piece);
        body := body + piece + [COMMA];
        i := i + 1;
      }
    }

    method WriteMember(e: Entry)
      requires Printable(e.value) && e.key.Name? && indentString == Spaces(|indentString|) && !addChildValues && Solid(document)
      modifies this
      ensures indentString == old(indentString) && !addChildValues && Solid(document)
      ensures document == old(document) + StyledMember(e, |indentString|)
      decreases e, 2
    {
      hide StyledText, Printable, Quote;
      ghost var ind := |indentString|;
      var quoted := ValueToQuotedString(e.key.name);
      SolidIndent(document, ind);
      WriteWithIndent(quoted);
      document := document + [SPACE, COLON, SPACE];
      PrintableParts(e.value);
      StyledSolid(e.value, ind);
      WriteValue(e.value);
      ghost var text := StyledText(e.value, ind);
      SolidEnd(old(document) + Line(ind) + quoted + [SPACE, COLON, SPACE], text);
      assert document == old(document) + Line(ind) + quoted + [SPACE, COLON, SPACE] + text;
      assert document == old(document) + (Line(ind) + quoted + [SPACE, COLON, SPACE] + text);
    }

    // ---- arrays ----

    method WriteArrayValue(es: seq<Entry>)
      requires Printable(Array(es)) && indentString == Spaces(|indentString|)
      requires if addChildValues then IsLeaf(Array(es)) else Ready(document, indentString)
      modifies this
      ensures indentString == old(indentString) && addChildValues == old(addChildValues)
      ensures var text := StyledText(Array(es), |indentString|);
              if addChildValues then document == old(document) && childValues == old(childValues) + [text]
              else document == old(document) + text
      decreases es, 5
    {
      hide StyledElements, OneLine, Broken, Spaces, Line, Printable;
      var size := SizeOf(Array(es));
      if size == 0 {
        PushValue([LBRACKET, RBRACKET]);
        return;
      }
      var isArrayMultiLine := IsMultilineArray(es);
      if isArrayMultiLine {
        WriteOnLines(es, size);
      } else {
        assert |childValues| == size;  // the source asserts this here
        WriteOnOneLine(es, size);
      }
    }

    method WriteOnLines(es: seq<Entry>, size: nat)
      requires Printable(Array(es)) && indentString == Spaces(|indentString|) && !addChildValues && 0 < size == SizeOf(Array(es))
      requires childValues == [] || (ChildTexts(childValues, es, size) && forall i: nat | i < size :: IsLeaf(GetOrNull(es, i)))
      requires Ready(document, indentString)
      modifies this
      ensures indentString == old(indentString) && !addChildValues
      ensures document ==
              old(document) + ([0x5B] + StyledElements(es, 0, size, |indentString| + 3) + (Line(|indentString|) + [0x5D]))
      decreases es, 4
    {
      hide StyledElements, Printable, ChildTexts, Line, Solid, IsLeaf, SizeOf, NewIndent;
      ghost var ind := |indentString|;
      ReadyIndent(document, indentString);
      WriteWithIndent([LBRACKET]);
      SolidMark(old(document), LBRACKET);
      Indent();
      WriteLines(es, size);
      Unindent();
      SolidIndent(document, ind);
      WriteWithIndent([RBRACKET]);
      Pieces(old(document), [LBRACKET], StyledElements(es, 0, size, ind + 3), Line(ind), [RBRACKET]);
    }

    /** Multi-line branch: from the cached child texts if there are any, from the children if not. */
    method WriteLines(es: seq<Entry>, size: nat)
      requires Printable(Array(es)) && indentString == Spaces(|indentString|) && 0 < |indentString| && !addChildValues && 0 < size
      requires childValues == [] || (ChildTexts(childValues, es, size) && forall i: nat | i < size :: IsLeaf(GetOrNull(es, i)))
      requires Solid(document)
      modifies this
      ensures indentString == old(indentString) && !addChildValues && Solid(document)
      ensures document == old(document) + StyledElements(es, 0, size, |indentString|)
      decreases es, 3
    {
      hide StyledElement, StyledElements, Printable, ChildTexts, Line, Spaces, IsLeaf, Solid;
      ghost var ind, body := |indentString|, [];
      var hasChildValue := childValues != [];
      ElementsFrom(es, 0, size, ind);
      var index := 0;
      while true
        invariant 0 <= index < size && indentString == old(indentString) && !addChildValues && Solid(document)
        invariant hasChildValue ==> childValues == old(childValues)
        invariant document == old(document) + body
        invariant StyledElements(es, 0, size, ind) ==
                  body + ((Line(ind) + StyledElement(es, index, ind)) + StyledElements(es, index + 1, size, ind))
        decreases size - index
      {
        WriteLine(es, size, index, hasChildValue);
        ElementsFrom(es, index + 1, size, ind);
        ghost var piece := Line(ind) + StyledElement(es, index, ind);
        if index + 1 == size {
          Grown(old(document), body, piece);
          break;
        }
        SolidMark(document, COMMA);
        document := document + [COMMA];
        Regroup(body, piece, (Line(ind) + StyledElement(es, index + 1, ind)) + StyledElements(es, index + 2, size, ind));
        Grown(old(document), body, piece);
        body := body + piece + [COMMA];
        index := index + 1;
      }
    }

    method WriteLine(es: seq<Entry>, size: nat, index: nat, hasChildValue: bool)
      requires Printable(Array(es)) && indentString == Spaces(|indentString|) && 0 < |indentString| && !addChildValues && index < size
      requires hasChildValue ==> ChildTexts(childValues, es, size) && IsLeaf(GetOrNull(es, index))
      requires Solid(document)
      modifies this
      ensures indentString == old(indentString) && !addChildValues && Solid(document)
      ensures hasChildValue ==> childValues == old(childValues)
      ensures document == old(document) + (Line(|indentString|) + StyledElement(es, index, |indentString|))
      decreases es, 2
    {
      hide StyledElement, Printable, IsLeaf;
      ghost var ind := |indentString|;
      ghost var text := StyledElement(es, index, ind);
      SolidIndent(document, ind);
      ElementSolid(es, index, ind);
      if hasChildValue {
        LeafElement(es, index, 0, ind);
        WriteWithIndent(childValues[index]);
      } else {
        WriteIndent();
        WriteElement(es, index);
      }
      SolidEnd(old(document) + Line(ind), text);
      assert document == old(document) + Line(ind) + text;
      assert document == old(document) + (Line(ind) + text);
    }

    method WriteOnOneLine(es: seq<Entry>, size: nat)
      requires ChildTexts(childValues, es, size)
      modifies this`document
      ensures document == old(document) + ([0x5B, 0x20] + OneLine(es, 0, size) + [0x20, 0x5D])
    {
      hide StyledElement, OneLine;
      document := document + [LBRACKET, SPACE];
      ghost var body: bytes := [];
      for index := 0 to size
        invariant document == old(document) + [LBRACKET, SPACE] + body
        invariant OneLine(es, 0, size) == body + OneLine(es, index, size)
      {
        OneLineFrom(es, index, size);
        ghost var rest := OneLine(es, index + 1, size);
        ghost var gap, text := Separator(index) + Gap(index), StyledElement(es, index, 0);
        if index > 0 {
          document := document + [COMMA, SPACE];
        }
        assert document == old(document) + [LBRACKET, SPACE] + body + gap;
        document := document + childValues[index];
        OneLineStep(body, Separator(index), Gap(index), text, rest);
        Appended(old(document) + [LBRACKET, SPACE], body, gap, text);
        body := body + gap + text;
      }
      OneLineFrom(es, size, size);
      assert body + [] == body;
      document := document + [SPACE, RBRACKET];
      Appended(old(document), [LBRACKET, SPACE], body, [SPACE, RBRACKET]);
    }

    /** `writeValue(value[index])` */
    method WriteElement(es: seq<Entry>, index: nat)
      requires Printable(Array(es)) && indentString == Spaces(|indentString|)
      requires if addChildValues then IsLeaf(GetOrNull(es, index)) else Ready(document, indentString)
      modifies this
      ensures indentString == old(indentString) && addChildValues == old(addChildValues)
      ensures var text := StyledElement(es, index, |indentString|);
              if addChildValues then document == old(document) && childValues == old(childValues) + [text]
              else document == old(document) + text
      decreases es, 1
    {
      hide LowerBound, StyledText, Spaces;
      var p := LowerBound(es, Index(index));
      if p < |es| && es[p].key == Index(index) {
        assert (es decreases to es[p]);
        WriteValue(es[p].value);
      } else {
        PushValue(NULL_TEXT);
      }
    }

    /**
      * `isMultineArray`, which answers whether the array is broken. When it answers no, and whenever
      * it has cached any child text at all, the cache holds exactly one text per element.
      */
    method IsMultilineArray(es: seq<Entry>) returns (isMultiLine: bool)
      requires Printable(Array(es)) && indentString == Spaces(|indentString|) && !addChildValues
      modifies this
      ensures indentString == old(indentString) && !addChildValues && document == old(document)
      ensures isMultiLine == Broken(es)
      ensures var n := SizeOf(Array(es));
              && (childValues == [] || (ChildTexts(childValues, es, n) && forall i: nat | i < n :: IsLeaf(GetOrNull(es, i))))
              && (!isMultiLine ==> ChildTexts(childValues, es, n))
      decreases es, 4
    {
      hide StyledElement, LowerBound, Printable, IsLeaf, LineLength, Spaces;
      var size := SizeOf(Array(es));
      isMultiLine := ToInt32(size * 3) >= RIGHT_MARGIN;
      childValues := [];
      var index := 0;
      while index < size && !isMultiLine
        invariant 0 <= index <= size
        invariant isMultiLine <==> ToInt32(size * 3) >= RIGHT_MARGIN || exists j: nat | j < index :: !IsLeaf(GetOrNull(es, j))
        decreases size - index
        modifies {}
      {
        isMultiLine := !IsLeaf(GetOrNull(es, index));
        index := index + 1;
      }
      if !isMultiLine {
        var lineLength := CacheChildren(es, size);
        isMultiLine := lineLength >= RIGHT_MARGIN;
      }
    }

    /** Caches the text of every child, all of them leaves, and adds up their lengths. */
    method CacheChildren(es: seq<Entry>, size: nat) returns (lineLength: int)
      requires Printable(Array(es)) && indentString == Spaces(|indentString|) && !addChildValues && childValues == []
      requires size == SizeOf(Array(es)) && forall i: nat | i < size :: IsLeaf(GetOrNull(es, i))
      modifies this
      ensures indentString == old(indentString) && !addChildValues && document == old(document)
      ensures ChildTexts(childValues, es, size) && lineLength == LineLength(es, size, size)
      decreases es, 3
    {
      hide StyledElement, LowerBound, Printable, IsLeaf, Spaces;
      addChildValues := true;
      lineLength := ToInt32(4 + size * 2 - 2);
      for i := 0 to size
        invariant addChildValues && indentString == old(indentString) && document == old(document)
        invariant ChildTexts(childValues, es, i) && lineLength == LineLength(es, i, size)
      {
        LeafElement(es, i, |indentString|, 0);
        WriteElement(es, i);
        lineLength := ToInt32(lineLength + |childValues[i]|);
      }
      addChildValues := false;
    }
  }

  lemma OneLineStep(body: bytes, comma: bytes, gap: bytes, text: bytes, rest: bytes)
    ensures body + (comma + (gap + text) + rest) == (body + (comma + gap) + text) + rest
  {
  }

  lemma Appended(a: bytes, b: bytes, c: bytes, d: bytes)
    ensures a + b + c + d == a + (b + c + d)
  {
  }

  lemma ReadyIndent(document: bytes, indent: bytes)
    requires Ready(document, indent)
    ensures NewIndent(document, indent) == [] && document + [] == document
  {
  }

  lemma SolidMark(a: bytes, c: byte)
    requires c != 0x20 && c != 0x0A
    ensures Solid(a + [c])
  {
  }

  lemma Pieces(a: bytes, b: bytes, c: bytes, d: bytes, e: bytes)
    ensures a + b + c + d + e == a + (b + c + (d + e))
  {
  }

  lemma Grown(a: bytes, body: bytes, piece: bytes)
    ensures a + body + piece == a + (body + piece) && a + body + piece + [COMMA] == a + (body + piece + [COMMA])
    ensures body + (piece + []) == body + piece
  {
  }

  lemma Regroup(body: bytes, piece: bytes, rest: bytes)
    ensures body + (piece + ([COMMA] + rest)) == body + piece + [COMMA] + rest
  {
  }

  lemma MembersFrom(es: seq<Entry>, i: nat, ind: nat)
    ensures i == 0 && es != [] ==>
              StyledMembers(es, 0, ind) == [] + (StyledMember(es[0], ind) + StyledMembers(es, 1, ind))
    ensures i > 0 ==>
              StyledMembers(es, i, ind) ==
              if i >= |es| then [] else [COMMA] + (StyledMember(es[i], ind) + StyledMembers(es, i + 1, ind))
  {
    hide StyledMember;
  }

  lemma ElementsFrom(es: seq<Entry>, i: nat, n: nat, ind: nat)
    ensures i == 0 && n > 0 ==>
              StyledElements(es, 0, n, ind) == [] + ((Line(ind) + StyledElement(es, 0, ind)) + StyledElements(es, 1, n, ind))
    ensures i > 0 ==>
              StyledElements(es, i, n, ind) ==
              if i >= n then [] else [COMMA] + ((Line(ind) + StyledElement(es, i, ind)) + StyledElements(es, i + 1, n, ind))
  {
    hide StyledElement, Line;
  }

  lemma OneLineFrom(es: seq<Entry>, i: nat, n: nat)
    ensures OneLine(es, i, n) ==
            if i >= n then [] else Separator(i) + (Gap(i) + StyledElement(es, i, 0)) + OneLine(es, i + 1, n)
  {
    hide StyledElement;
  }

  lemma ElementSolid(es: seq<Entry>, i: nat, ind: nat)
    requires Printable(Array(es))
    ensures Solid(StyledElement(es, i, ind))
  {
    hide LowerBound, StyledText;
    var p := LowerBound(es, Index(i));
    if p < |es| && es[p].key == Index(i) {
      assert Printable(es[p].value);
      PrintableParts(es[p].value);
      StyledSolid(es[p].value, ind);
    }
  }
}
