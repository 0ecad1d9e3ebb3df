/**
  * The other half of what `Reader` does: on text without comments it accepts nothing beyond a looser
  * grammar, in which numbers and strings may be ill-formed in the ways listed here and a comma may
  * stand before the closing brace of an object whose last name is empty.
  */
module JsonAccepts {
  import opened Bytes
  import opened JsonValue
  import opened JsonMap
  import Number = JsonNumber
  import Str = JsonString
  import opened JsonToken
  import opened JsonParse
  import opened JsonReader
  import opened JsonLayout
  import Same = JsonSame
  import Rfc = Rfc8259
  import Reading = JsonRfc

  // ---- tokens ----

  /** First octet a digit or a minus, then digits, then perhaps a point and digits, then perhaps an exponent. */
  ghost predicate LooseNumber(t: bytes) {
    exists a, b, c ::
      && t == a + b + c && a != [] && (Number.IsDigit(a[0]) || a[0] == 0x2D) && Rfc.AreDigits(a[1..])
      && (b == [] || (b[0] == 0x2E && Rfc.AreDigits(b[1..])))
      && (c == [] || ((c[0] == 0x65 || c[0] == 0x45) &&
                      (Rfc.AreDigits(c[1..]) || (|c| > 1 && (c[1] == 0x2B || c[1] == 0x2D) && Rfc.AreDigits(c[2..])))))
  }

  /** What a token of each kind looks like. */
  ghost predicate Shape(kind: Kind, t: bytes) {
    match kind
    case ObjectBegin => t == [0x7B]
    case ObjectEnd => t == [0x7D]
    case ArrayBegin => t == [0x5B]
    case ArrayEnd => t == [0x5D]
    case ArraySeparator => t == [0x2C]
    case MemberSeparator => t == [0x3A]
    case NullToken => t == [0x6E, 0x75, 0x6C, 0x6C]
    case TrueToken => t == [0x74, 0x72, 0x75, 0x65]
    case FalseToken => t == [0x66, 0x61, 0x6C, 0x73, 0x65]
    case StringToken => |t| >= 2 && t[0] == 0x22 && t[|t| - 1] == 0x22 && Str.Closed(t[1..|t| - 1])
    case NumberToken => LooseNumber(t)
    case Comment => |t| >= 2 && t[0] == 0x2F
    case _ => true
  }

  lemma {:induction false} SkippedAreWhite(text: bytes, p: nat)
    requires p <= |text|
    ensures forall i | p <= i < SkipSpaces(text, p) :: Rfc.IsWhite(text[i])
    ensures SkipSpaces(text, p) < |text| ==> !Rfc.IsWhite(text[SkipSpaces(text, p)])
    decreases |text| - p
  {
    if p < |text| && IsSpace(text[p]) {
      SkippedAreWhite(text, p + 1);
    }
  }

  lemma {:induction false} SkippedDigits(text: bytes, p: nat)
    requires p <= |text|
    ensures Rfc.AreDigits(text[p..SkipDigits(text, p)])
    decreases |text| - p
  {
    if p < |text| && Number.IsDigit(text[p]) {
      SkippedDigits(text, p + 1);
      assert text[p..SkipDigits(text, p)] == [text[p]] + text[p + 1..SkipDigits(text, p + 1)];
    }
  }

  lemma NumberShape(text: bytes, p: nat)
    requires p < |text| && (Number.IsDigit(text[p]) || text[p] == 0x2D)
    ensures LooseNumber(text[p..ScanNumber(text, p + 1)])
  {
    hide SkipDigits;
    var w := SkipDigits(text, p + 1);
    var f := ScanFraction(text, w);
    var x := ScanExponent(text, f);
    var a, b, c := text[p..w], text[w..f], text[f..x];
    SkippedDigits(text, p + 1);
    assert a[1..] == text[p + 1..w];
    FractionShape(text, w);
    ExponentShape(text, f);
    assert text[p..x] == a + b + c;
  }

  lemma FractionShape(text: bytes, w: nat)
    requires w <= |text|
    ensures var b := text[w..ScanFraction(text, w)]; b == [] || (b[0] == 0x2E && Rfc.AreDigits(b[1..]))
  {
    hide SkipDigits;
    if At(text, w) == 0x2E {
      SkippedDigits(text, w + 1);
      assert text[w..ScanFraction(text, w)][1..] == text[w + 1..ScanFraction(text, w)];
    }
  }

  lemma ExponentShape(text: bytes, f: nat)
    requires f <= |text|
    ensures var c := text[f..ScanExponent(text, f)];
            c == [] || ((c[0] == 0x65 || c[0] == 0x45) &&
                        (Rfc.AreDigits(c[1..]) || (|c| > 1 && (c[1] == 0x2B || c[1] == 0x2D) && Rfc.AreDigits(c[2..]))))
  {
    hide SkipDigits;
    if At(text, f) == 0x65 || At(text, f) == 0x45 {
      var s := if At(text, f + 1) == 0x2B || At(text, f + 1) == 0x2D then f + 2 else f + 1;
      SkippedDigits(text, s);
      var x := ScanExponent(text, f);
      assert text[f..x][s - f..] == text[s..x];
    }
  }

  lemma WordShape(text: bytes, s: nat, c: byte, rest: bytes)
    requires s < |text| && text[s] == c && Has(text, s + 1, rest)
    ensures text[s..s + 1 + |rest|] == [c] + rest
  {
  }

  /** White space is skipped, and every token has its shape. */
  lemma TokenShapes(text: bytes, p: nat)
    requires p <= |text|
    ensures var t := ReadToken(text, p);
            && (forall i | p <= i < t.start :: Rfc.IsWhite(text[i]))
            && Shape(t.kind, TokenText(text, t))
            && (t.kind == EndOfStream ==> t.start == |text| || text[t.start] == 0)
  {
    hide SkipSpaces, ScanString, ScanComment, ScanNumber, LooseNumber, Str.Closed;
    SkippedAreWhite(text, p);
    var s := SkipSpaces(text, p);
    if s < |text| {
      var c := text[s];
      if c == 0x22 {
        StringShape(text, s);
      } else if Number.IsDigit(c) || c == 0x2D {
        NumberShape(text, s);
      } else if c == 0x2F {
        CommentShape(text, s);
      } else if c == 0x74 && Has(text, s + 1, TRUE_TEXT[1..]) {
        WordShape(text, s, c, TRUE_TEXT[1..]);
      } else if c == 0x66 && Has(text, s + 1, FALSE_TEXT[1..]) {
        WordShape(text, s, c, FALSE_TEXT[1..]);
      } else if c == 0x6E && Has(text, s + 1, NULL_TEXT[1..]) {
        WordShape(text, s, c, NULL_TEXT[1..]);
      }
    }
  }

  lemma StringShape(text: bytes, s: nat)
    requires s < |text| && text[s] == 0x22
    ensures var r := ScanString(text, s + 1); r.ok ==> Shape(StringToken, text[s..r.end])
  {
    hide Str.Closed, ScanString;
    StringScanned(text, s + 1);
    var r := ScanString(text, s + 1);
    if r.ok {
      var t := text[s..r.end];
      assert t[1..|t| - 1] == text[s + 1..r.end - 1];
    }
  }

  lemma CommentShape(text: bytes, s: nat)
    requires s < |text| && text[s] == 0x2F
    ensures var r := ScanComment(text, s + 1); r.ok ==> Shape(Comment, text[s..r.end])
  {
  }

  // ---- strings ----

  /** Raw octets below 0x20, lone low surrogates and any second half of a pair are let through. */
  predicate LooseChar(c: Rfc.Char) {
    match c
    case Raw(o) => o != 0x22 && o != 0x5C
    case Short(l) => l in {0x22, 0x5C, 0x2F, 0x62, 0x66, 0x6E, 0x72, 0x74}
    case Hex(d) => Rfc.IsHex4(d) && !(0xD800 <= Rfc.Hex4(d) <= 0xDBFF)
    case Twin(h, l) => Rfc.IsHex4(h) && Rfc.IsHex4(l) && 0xD800 <= Rfc.Hex4(h) <= 0xDBFF
  }

  function LooseOctets(c: Rfc.Char): bytes
    requires LooseChar(c)
  {
    match c
    case Raw(o) => [o]
    case Short(l) =>
      if l == 0x62 then [0x08] else if l == 0x66 then [0x0C] else if l == 0x6E then [0x0A]
      else if l == 0x72 then [0x0D] else if l == 0x74 then [0x09] else [l]
    case Hex(d) => Str.CodePointToUtf8(Rfc.Hex4(d))
    case Twin(h, l) => Str.CodePointToUtf8(0x10000 + 0x400 * (Rfc.Hex4(h) - 0xD800) + Rfc.Hex4(l) % 0x400)
  }

  predicate LooseString(cs: seq<Rfc.Char>) {
    forall i | 0 <= i < |cs| :: LooseChar(cs[i])
  }

  function AllOctets(cs: seq<Rfc.Char>): bytes
    requires LooseString(cs)
  {
    if cs == [] then [] else LooseOctets(cs[0]) + AllOctets(cs[1..])
  }

  lemma HexBack(b: bytes)
    requires Str.DecodeUnit(b).Unit?
    ensures |b| >= 4 && Rfc.IsHex4(b[..4]) && Str.DecodeUnit(b) == Str.Unit(Rfc.Hex4(b[..4]), 4)
  {
    var d := b[..4];
    assert d[0] == b[0] && d[1] == b[1] && d[2] == b[2] && d[3] == b[3];
    Reading.HexSame(b[0]);
    Reading.HexSame(b[1]);
    Reading.HexSame(b[2]);
    Reading.HexSame(b[3]);
  }

  /** The character at the start of what decodes. */
  lemma FirstDecoded(b: bytes) returns (c: Rfc.Char)
    requires Str.Closed(b) && b != [] && Str.DecodeBody(b).Text?
    ensures LooseChar(c) && Rfc.CharText(c) <= b && Str.Closed(b[|Rfc.CharText(c)|..])
    ensures Str.DecodeBody(b[|Rfc.CharText(c)|..]).Text?
    ensures Str.DecodeBody(b).text == LooseOctets(c) + Str.DecodeBody(b[|Rfc.CharText(c)|..]).text
  {
    hide Rfc.Hex4, Str.CodePointToUtf8, Str.DecodeUnit;
    if b[0] != 0x5C {
      c := Rfc.Raw(b[0]);
      assert Rfc.CharText(c) == b[..1];
    } else if b[1] != 0x75 {
      c := Rfc.Short(b[1]);
      assert Rfc.CharText(c) == b[..2];
    } else {
      c := FirstEscape(b);
    }
  }

  lemma FirstEscape(b: bytes) returns (c: Rfc.Char)
    requires Str.Closed(b) && |b| >= 2 && b[0] == 0x5C && b[1] == 0x75 && Str.DecodeBody(b).Text?
    ensures LooseChar(c) && Rfc.CharText(c) <= b && Str.Closed(b[|Rfc.CharText(c)|..])
    ensures Str.DecodeBody(b[|Rfc.CharText(c)|..]).Text?
    ensures Str.DecodeBody(b).text == LooseOctets(c) + Str.DecodeBody(b[|Rfc.CharText(c)|..]).text
  {
    hide Rfc.Hex4, Str.CodePointToUtf8, Str.DecodeUnit, Str.Closed;
    var x := b[2..];
    var u := Str.DecodeCodePoint(x);
    ClosedBehind(b);
    Str.CodePointSpan(x);
    HexBack(x);
    var d := x[..4];
    if 0xD800 <= Rfc.Hex4(d) <= 0xDBFF {
      HexBack(x[6..]);
      var l := x[6..][..4];
      c := Rfc.Twin(d, l);
      assert Rfc.CharText(c) == b[..12];
      Reading.LowTen(Rfc.Hex4(d), 0xD800);
      assert b[12..] == x[10..];
    } else {
      c := Rfc.Hex(d);
      assert Rfc.CharText(c) == b[..6];
      assert b[6..] == x[4..];
    }
  }

  lemma ClosedBehind(b: bytes)
    requires Str.Closed(b) && |b| >= 2 && b[0] == 0x5C
    ensures Str.Closed(b[2..])
  {
  }

  /** A string that decodes is made of such characters, and decodes to their octets. */
  lemma {:induction false} DecodedFromChars(b: bytes) returns (cs: seq<Rfc.Char>)
    requires Str.Closed(b) && Str.DecodeBody(b).Text?
    ensures LooseString(cs) && Rfc.StringText(cs) == b && Str.DecodeBody(b).text == AllOctets(cs)
    decreases |b|
  {
    hide Str.DecodeBody, Str.Closed, LooseChar, LooseOctets, Rfc.CharText;
    if b == [] {
      cs := [];
      NothingDecoded();
    } else {
      var c := FirstDecoded(b);
      var n := |Rfc.CharText(c)|;
      CharHasText(c);
      var rest := DecodedFromChars(b[n..]);
      cs := [c] + rest;
      assert b == b[..n] + b[n..];
    }
  }

  lemma NothingDecoded()
    ensures Str.DecodeBody([]) == Str.Text([])
  {
  }

  lemma CharHasText(c: Rfc.Char)
    ensures |Rfc.CharText(c)| > 0
  {
  }

  // ---- documents ----

  datatype Loose =
    | LNull | LTrue | LFalse
    | LNum(text: bytes)
    | LStr(text: bytes)
    | LArr(items: seq<Loose>)
    | LObj(members: seq<LMember>)

  /** A name token, a value, and whether a comma follows. */
  datatype LMember = LMember(name: bytes, value: Loose, comma: bool)

  function LNumber(t: bytes, scan: bytes -> Option<real>): Option<Value> {
    var i := Number.DecodeInteger(t);
    if i.Some? then i
    else
      var r := scan(t);
      if r.Some? then Some(Real(r.value)) else None
  }

  predicate DecodesAt(t: bytes) {
    |t| >= 2 && Str.DecodeBody(t[1..|t| - 1]).Text?
  }

  function Inner(t: bytes): bytes
    requires DecodesAt(t)
  {
    Str.DecodeBody(t[1..|t| - 1]).text
  }

  predicate LValid(l: Loose, scan: bytes -> Option<real>)
    decreases l
  {
    match l
    case LNum(t) => LNumber(t, scan).Some?
    case LStr(t) => DecodesAt(t)
    case LArr(items) => forall k | 0 <= k < |items| :: LValid(items[k], scan)
    case LObj(ms) => forall k | 0 <= k < |ms| :: LMemberValid(ms[k], k + 1 == |ms|, scan)
    case _ => true
  }

  /** Only the last member may lack its comma; it may have one if its name is empty. */
  predicate LMemberValid(m: LMember, last: bool, scan: bytes -> Option<real>)
    decreases m
  {
    DecodesAt(m.name) && LValid(m.value, scan) && (if last then m.comma ==> Inner(m.name) == [] else m.comma)
  }

  function LMeaning(l: Loose, scan: bytes -> Option<real>): Value
    requires LValid(l, scan)
    decreases l, 0
  {
    match l
    case LNull => Null
    case LTrue => Bool(true)
    case LFalse => Bool(false)
    case LNum(t) => LNumber(t, scan).value
    case LStr(t) => String(Inner(t))
    case LArr(items) => Array(LEntries(0, items, scan))
    case LObj(ms) => Object(LPut([], ms, scan))
  }

  predicate ItemsValid(items: seq<Loose>, scan: bytes -> Option<real>) {
    forall k | 0 <= k < |items| :: LValid(items[k], scan)
  }

  predicate MembersValid(ms: seq<LMember>, scan: bytes -> Option<real>) {
    forall k | 0 <= k < |ms| :: LMemberValid(ms[k], k + 1 == |ms|, scan)
  }

  /** Items from index `i` on. */
  function LEntries(i: nat, items: seq<Loose>, scan: bytes -> Option<real>): seq<Entry>
    requires ItemsValid(items, scan)
    decreases items, 1
  {
    if items == [] then []
    else
      assert (items decreases to items[0]);
      [Entry(Index(i), LMeaning(items[0], scan))] + LEntries(i + 1, items[1..], scan)
  }

  /** The members stored one after the other on top of `acc`. */
  function LPut(acc: seq<Entry>, ms: seq<LMember>, scan: bytes -> Option<real>): seq<Entry>
    requires MembersValid(ms, scan)
    decreases ms, 1
  {
    if ms == [] then acc
    else
      assert (ms decreases to ms[0]);
      assert LMemberValid(ms[0], 0 + 1 == |ms|, scan);
      MembersTail(ms, scan);
      LPut(Put(acc, Name(Inner(ms[0].name)), LMeaning(ms[0].value, scan)), ms[1..], scan)
  }

  lemma MembersTail(ms: seq<LMember>, scan: bytes -> Option<real>)
    requires MembersValid(ms, scan) && ms != []
    ensures MembersValid(ms[1..], scan)
  {
    forall k | 0 <= k < |ms| - 1 ensures LMemberValid(ms[1..][k], k + 1 == |ms[1..]|, scan) {
      assert LMemberValid(ms[k + 1], k + 1 + 1 == |ms|, scan);
    }
  }

  function LToks(l: Loose): seq<Spelling>
    decreases l, 0
  {
    match l
    case LNull => [Spelling(NullToken, [0x6E, 0x75, 0x6C, 0x6C])]
    case LTrue => [Spelling(TrueToken, [0x74, 0x72, 0x75, 0x65])]
    case LFalse => [Spelling(FalseToken, [0x66, 0x61, 0x6C, 0x73, 0x65])]
    case LNum(t) => [Spelling(NumberToken, t)]
    case LStr(t) => [Spelling(StringToken, t)]
    case LArr(items) =>
      [Spelling(ArrayBegin, [0x5B])] + if items == [] then [Spelling(ArrayEnd, [0x5D])] else LItems(items)
    case LObj(ms) => [Spelling(ObjectBegin, [0x7B])] + LMembers(ms)
  }

  function LItems(items: seq<Loose>): seq<Spelling>
    decreases items, 1
  {
    if items == [] then []
    else
      assert (items decreases to items[0]);
      LToks(items[0]) +
      if |items| == 1 then [Spelling(ArrayEnd, [0x5D])] else [Spelling(ArraySeparator, [0x2C])] + LItems(items[1..])
  }

  function LMembers(ms: seq<LMember>): seq<Spelling>
    decreases ms, 1
  {
    if ms == [] then [Spelling(ObjectEnd, [0x7D])]
    else
      assert (ms decreases to ms[0]);
      [Spelling(StringToken, ms[0].name), Spelling(MemberSeparator, [0x3A])] + LToks(ms[0].value) +
      if ms[0].comma then [Spelling(ArraySeparator, [0x2C])] + LMembers(ms[1..]) else [Spelling(ObjectEnd, [0x7D])]
  }

  // ---- what was read came from such a document ----

  /** The next token, known not to be a comment, with its shape. */
  lemma Take(d: Doc, p: nat) returns (t: Token)
    requires p <= |d.text| && Same.NoComment(Tokens(d.text, p))
    ensures t == ReadToken(d.text, p) == NextToken(d.text, p) && t.kind != Comment && Shape(t.kind, TokenText(d.text, t))
    ensures t.kind != EndOfStream ==>
              && Tokens(d.text, p) == [Spelling(t.kind, TokenText(d.text, t))] + Tokens(d.text, t.end)
              && Same.NoComment(Tokens(d.text, t.end)) && p < t.end
  {
    hide ReadToken, NextToken, TokenText, Shape;
    t := ReadToken(d.text, p);
    Same.TokensStep(d.text, p);
    TokenShapes(d.text, p);
    var ts := Tokens(d.text, p);
    if t.kind != EndOfStream {
      assert ts[0].kind == t.kind;
      assert ts[1..] == Tokens(d.text, t.end);
      assert forall i | 0 <= i < |ts| - 1 :: ts[1..][i] == ts[i + 1];
    }
    Same.NextIsRead(d.text, p);
  }

  /** From `p` to `q` stands document `l`, which means `v`. */
  ghost predicate Came(d: Doc, p: nat, l: Loose, v: Value, q: nat) {
    && p <= |d.text| && q <= |d.text| && LValid(l, d.scan) && LMeaning(l, d.scan) == v
    && Tokens(d.text, p) == LToks(l) + Tokens(d.text, q) && Same.NoComment(Tokens(d.text, q))
  }

  lemma {:induction false} AcceptsValue(d: Doc, p: nat, depth: nat) returns (l: Loose)
    requires p <= |d.text| && Same.NoComment(Tokens(d.text, p)) && ReadValue(d, p, depth).Parsed?
    ensures var o := ReadValue(d, p, depth); Came(d, p, l, o.value, o.pos)
    decreases |d.text| - p, 0
  {
    hide ReadToken, NextToken, TokenText, ReadValue, ReadMembers, ReadArray, Tokens, Came, Str.DecodeBody, Number.DecodeInteger, LooseNumber, Str.Closed, Shape;
    ValueStep(d, p, depth);
    var t := Take(d, p);
    if t.kind == ObjectBegin {
      var ms := AcceptsMembers(d, t.end, depth + 1, [], []);
      l := LObj(ms);
      CameObject(d, p, t, ms, depth);
    } else if t.kind == ArrayBegin {
      var items := AcceptsArray(d, t.end, depth + 1);
      l := LArr(items);
      CameArray(d, p, t, items, depth);
    } else {
      l := AcceptsScalar(d, p, t);
    }
  }

  lemma AcceptsScalar(d: Doc, p: nat, t: Token) returns (l: Loose)
    requires p <= |d.text| && t.start <= t.end <= |d.text| && (t.kind == StringToken ==> t.start + 2 <= t.end)
    requires Shape(t.kind, TokenText(d.text, t)) && ScalarOutcome(d, t).Parsed?
    requires t.kind != EndOfStream ==>
               Tokens(d.text, p) == [Spelling(t.kind, TokenText(d.text, t))] + Tokens(d.text, t.end) && Same.NoComment(Tokens(d.text, t.end))
    ensures var o := ScalarOutcome(d, t); Came(d, p, l, o.value, o.pos)
  {
    hide Tokens, Str.DecodeBody, Number.DecodeInteger, LooseNumber, Str.Closed;
    var x := TokenText(d.text, t);
    match t.kind {
      case NullToken => l := LNull;
      case TrueToken => l := LTrue;
      case FalseToken => l := LFalse;
      case NumberToken => l := LNum(x);
      case StringToken =>
        l := LStr(x);
        Same.BodyOfText(d.text, t);
      case _ => l := LNull;
    }
  }

  /** Array elements: one at least, then `]`. */
  ghost predicate CameItems(d: Doc, p: nat, acc: seq<Entry>, items: seq<Loose>, v: Value, q: nat) {
    && p <= |d.text| && q <= |d.text| && items != [] && ItemsValid(items, d.scan)
    && v == Array(acc + LEntries(|acc|, items, d.scan))
    && Tokens(d.text, p) == LItems(items) + Tokens(d.text, q) && Same.NoComment(Tokens(d.text, q))
  }

  lemma CameArray(d: Doc, p: nat, t: Token, items: seq<Loose>, depth: nat)
    requires p <= |d.text| && t.start <= t.end <= |d.text| && t.kind == ArrayBegin && Shape(t.kind, TokenText(d.text, t))
    requires Tokens(d.text, p) == [Spelling(t.kind, TokenText(d.text, t))] + Tokens(d.text, t.end)
    requires ReadArray(d, t.end, depth + 1).Parsed?
    requires var o := ReadArray(d, t.end, depth + 1); ArrayCame(d, t.end, items, o.value, o.pos)
    ensures var o := ReadArray(d, t.end, depth + 1); Came(d, p, LArr(items), o.value, o.pos)
  {
    hide ReadArray, Tokens, LItems;
    assert [] + LEntries(0, items, d.scan) == LEntries(0, items, d.scan);
  }

  ghost predicate ArrayCame(d: Doc, p: nat, items: seq<Loose>, v: Value, q: nat) {
    if items == [] then
      && p <= |d.text| && q <= |d.text| && v == Array([])
      && Tokens(d.text, p) == [Spelling(ArrayEnd, [0x5D])] + Tokens(d.text, q) && Same.NoComment(Tokens(d.text, q))
    else CameItems(d, p, [], items, v, q)
  }

  lemma {:induction false} AcceptsArray(d: Doc, p: nat, depth: nat) returns (items: seq<Loose>)
    requires p <= |d.text| && Same.NoComment(Tokens(d.text, p)) && ReadArray(d, p, depth).Parsed?
    ensures var o := ReadArray(d, p, depth); ArrayCame(d, p, items, o.value, o.pos)
    decreases |d.text| - p, 2
  {
    hide ReadToken, NextToken, TokenText, ReadArray, ReadElements, Tokens, SkipSpaces, LItems, ItemsValid, LEntries, Same.NoComment;
    Same.ArrayStart(d.text, p);
    Reading.ArrayUnfold(d, p, depth);
    var s := SkipSpaces(d.text, p);
    var t := Take(d, p);
    if t.kind == ArrayEnd {
      items := [];
    } else {
      items := AcceptsItems(d, s, depth, []);
    }
  }

  lemma {:induction false} AcceptsItems(d: Doc, p: nat, depth: nat, acc: seq<Entry>) returns (items: seq<Loose>)
    requires p <= |d.text| && Same.NoComment(Tokens(d.text, p)) && ReadElements(d, p, depth, acc).Parsed?
    ensures var o := ReadElements(d, p, depth, acc); CameItems(d, p, acc, items, o.value, o.pos)
    decreases |d.text| - p, 1
  {
    hide ReadToken, NextToken, TokenText, ReadValue, ReadElements, Tokens, Recover, LValid, LToks, LMeaning, Same.NoComment;
    Same.ElementsUnfold(d, p, depth, acc);
    var x := ReadValue(d, p, depth);
    var l := AcceptsValue(d, p, depth);
    var t := Take(d, x.pos);
    var acc' := acc + [Entry(Index(|acc|), x.value)];
    if t.kind == ArrayEnd {
      items := [l];
      assert acc + LEntries(|acc|, items, d.scan) == acc' by { LastEntry(|acc|, l, d.scan); }
    } else {
      var rest := AcceptsItems(d, t.end, depth, acc');
      items := [l] + rest;
      assert items[1..] == rest;
      assert ItemsValid(items, d.scan);
      assert acc' + LEntries(|acc'|, rest, d.scan) == acc + LEntries(|acc|, items, d.scan);
    }
  }

  lemma LastEntry(i: nat, l: Loose, scan: bytes -> Option<real>)
    requires LValid(l, scan)
    ensures LEntries(i, [l], scan) == [Entry(Index(i), LMeaning(l, scan))]
  {
    assert [l][1..] == [];
  }

  /** Members, each with its name decoded, then `}`. */
  ghost predicate CameMembers(d: Doc, p: nat, acc: seq<Entry>, ms: seq<LMember>, v: Value, q: nat) {
    && p <= |d.text| && q <= |d.text| && MembersValid(ms, d.scan) && v == Object(LPut(acc, ms, d.scan))
    && Tokens(d.text, p) == LMembers(ms) + Tokens(d.text, q) && Same.NoComment(Tokens(d.text, q))
  }

  lemma CameObject(d: Doc, p: nat, t: Token, ms: seq<LMember>, depth: nat)
    requires p <= |d.text| && t.start <= t.end <= |d.text| && t.kind == ObjectBegin && Shape(t.kind, TokenText(d.text, t))
    requires Tokens(d.text, p) == [Spelling(t.kind, TokenText(d.text, t))] + Tokens(d.text, t.end)
    requires ReadMembers(d, t.end, depth + 1, [], []).Parsed?
    requires var o := ReadMembers(d, t.end, depth + 1, [], []); CameMembers(d, t.end, [], ms, o.value, o.pos)
    ensures var o := ReadMembers(d, t.end, depth + 1, [], []); Came(d, p, LObj(ms), o.value, o.pos)
  {
    hide ReadMembers, Tokens, LMembers, LPut;
  }

  lemma {:induction false} AcceptsMembers(d: Doc, p: nat, depth: nat, acc: seq<Entry>, last: bytes) returns (ms: seq<LMember>)
    requires p <= |d.text| && Same.NoComment(Tokens(d.text, p)) && ReadMembers(d, p, depth, acc, last).Parsed?
    ensures var o := ReadMembers(d, p, depth, acc, last); CameMembers(d, p, acc, ms, o.value, o.pos)
    ensures ms == [] ==> last == []
    decreases |d.text| - p, 1
  {
    hide ReadToken, NextToken, TokenText, ReadMember, Tokens, Recover, Str.DecodeBody, Body, LMembers, CameMembers, Same.NoComment, Str.Closed, LooseNumber;
    var t := Take(d, p);
    if t.kind == ObjectEnd && last == [] {
      ms := [];
      NoMembers(d, p, acc, t);
    } else {
      var s := Str.DecodeBody(Body(d.text, t));
      ms := AcceptsMember(d, p, t, depth, acc);
    }
  }

  lemma NoMembers(d: Doc, p: nat, acc: seq<Entry>, t: Token)
    requires p <= |d.text| && t.start <= t.end <= |d.text| && t.kind == ObjectEnd && Shape(t.kind, TokenText(d.text, t))
    requires Tokens(d.text, p) == [Spelling(t.kind, TokenText(d.text, t))] + Tokens(d.text, t.end) && Same.NoComment(Tokens(d.text, t.end))
    ensures CameMembers(d, p, acc, [], Object(acc), t.end)
  {
    hide Tokens, TokenText;
  }

  /** From a name token on. */
  lemma {:induction false} AcceptsMember(d: Doc, p: nat, t: Token, depth: nat, acc: seq<Entry>) returns (ms: seq<LMember>)
    requires p <= |d.text| && t.start + 2 <= t.end <= |d.text| && p < t.end && t.kind == StringToken
    requires Tokens(d.text, p) == [Spelling(t.kind, TokenText(d.text, t))] + Tokens(d.text, t.end) && Same.NoComment(Tokens(d.text, t.end))
    requires Str.DecodeBody(Body(d.text, t)).Text?
    requires ReadMember(d, t.end, depth, acc, Str.DecodeBody(Body(d.text, t)).text).Parsed?
    ensures var o := ReadMember(d, t.end, depth, acc, Str.DecodeBody(Body(d.text, t)).text);
            ms != [] && CameMembers(d, p, acc, ms, o.value, o.pos)
    decreases |d.text| - p, 0
  {
    hide ReadToken, NextToken, TokenText, ReadValue, ReadMembers, Tokens, Recover, Str.DecodeBody, Body, Put, LMembers, CameMembers, Same.NoComment, LValid, LToks, LMeaning, MembersValid, LPut;
    var name := Str.DecodeBody(Body(d.text, t)).text;
    var x := TokenText(d.text, t);
    Same.BodyOfText(d.text, t);
    var colon := Take(d, t.end);
    var l := AcceptsValue(d, colon.end, depth);
    var o := ReadValue(d, colon.end, depth);
    var end := Take(d, o.pos);
    var acc' := Put(acc, Name(name), o.value);
    assert DecodesAt(x) && Inner(x) == name;
    if end.kind == ObjectEnd {
      ms := [LMember(x, l, false)];
      LastMember(d, p, acc, x, l, end.end);
    } else {
      assert end.kind == ArraySeparator;
      var rest := AcceptsMembers(d, end.end, depth, acc', name);
      ms := [LMember(x, l, true)] + rest;
      var r := ReadMembers(d, end.end, depth, acc', name);
      OneMoreMember(d, p, acc, x, l, rest, r.value, r.pos, end.end);
    }
  }

  lemma LastMember(d: Doc, p: nat, acc: seq<Entry>, x: bytes, l: Loose, q: nat)
    requires p <= |d.text| && q <= |d.text| && DecodesAt(x) && LValid(l, d.scan) && Same.NoComment(Tokens(d.text, q))
    requires Tokens(d.text, p) == [Spelling(StringToken, x)] + ([Spelling(MemberSeparator, [0x3A])] + (LToks(l) + ([Spelling(ObjectEnd, [0x7D])] + Tokens(d.text, q))))
    ensures CameMembers(d, p, acc, [LMember(x, l, false)], Object(Put(acc, Name(Inner(x)), LMeaning(l, d.scan))), q)
  {
    hide Tokens, LToks, LMeaning, Put, Inner;
    var ms := [LMember(x, l, false)];
    assert ms[1..] == [];
    assert LMemberValid(ms[0], true, d.scan);
    assert MembersValid(ms, d.scan);
    assert LPut(acc, ms, d.scan) == Put(acc, Name(Inner(x)), LMeaning(l, d.scan));
    assert LMembers(ms) == [Spelling(StringToken, x)] + ([Spelling(MemberSeparator, [0x3A])] + (LToks(l) + [Spelling(ObjectEnd, [0x7D])]));
  }

  lemma OneMoreMember(d: Doc, p: nat, acc: seq<Entry>, x: bytes, l: Loose, rest: seq<LMember>, v: Value, q: nat, mid: nat)
    requires p <= |d.text| && mid <= |d.text| && DecodesAt(x) && LValid(l, d.scan)
    requires CameMembers(d, mid, Put(acc, Name(Inner(x)), LMeaning(l, d.scan)), rest, v, q)
    requires rest == [] ==> Inner(x) == []
    requires Tokens(d.text, p) == [Spelling(StringToken, x)] + ([Spelling(MemberSeparator, [0x3A])] + (LToks(l) + ([Spelling(ArraySeparator, [0x2C])] + Tokens(d.text, mid))))
    ensures CameMembers(d, p, acc, [LMember(x, l, true)] + rest, v, q)
  {
    hide Tokens, LToks, LMeaning, Put, Inner, LValid;
    var ms := [LMember(x, l, true)] + rest;
    assert ms[1..] == rest;
    forall k | 0 <= k < |ms| ensures LMemberValid(ms[k], k + 1 == |ms|, d.scan) {
      if k > 0 {
        assert LMemberValid(rest[k - 1], k - 1 + 1 == |rest|, d.scan);
      }
    }
  }

  /**
    * Whatever comment-free text the reader accepts is such a document up to the place where it
    * stopped, and its value is what that document means.
    */
  lemma AcceptsOnly(text: bytes, scan: bytes -> Option<real>) returns (l: Loose)
    requires Same.NoComment(Tokens(text, 0)) && ReadValue(Doc(text, scan), 0, 0).Parsed?
    ensures var o := ReadValue(Doc(text, scan), 0, 0);
            LValid(l, scan) && LMeaning(l, scan) == o.value && Tokens(text, 0) == LToks(l) + Tokens(text, o.pos)
  {
    hide ReadValue, Tokens, LValid, LMeaning, LToks;
    l := AcceptsValue(Doc(text, scan), 0, 0);
  }

  // ---- and every such document is accepted ----

  function LNesting(l: Loose): nat
    decreases l, 0
  {
    match l
    case LArr(items) => 1 + LItemsNesting(items)
    case LObj(ms) => 1 + LMembersNesting(ms)
    case _ => 1
  }

  function LItemsNesting(items: seq<Loose>): nat
    decreases items, 1
  {
    if items == [] then 0
    else
      assert (items decreases to items[0]);
      Rfc.Larger(LNesting(items[0]), LItemsNesting(items[1..]))
  }

  function LMembersNesting(ms: seq<LMember>): nat
    decreases ms, 1
  {
    if ms == [] then 0
    else
      assert (ms decreases to ms[0]);
      Rfc.Larger(LNesting(ms[0].value), LMembersNesting(ms[1..]))
  }

  /** A known token is next. */
  lemma Next(d: Doc, p: nat, s: Spelling, more: seq<Spelling>) returns (t: Token)
    requires p <= |d.text| && Tokens(d.text, p) == [s] + more && s.kind != EndOfStream && s.kind != Comment
    ensures t == ReadToken(d.text, p) == NextToken(d.text, p)
    ensures t.kind == s.kind && TokenText(d.text, t) == s.text && Tokens(d.text, t.end) == more
  {
    hide ReadToken, NextToken, TokenText;
    t := ReadToken(d.text, p);
    Same.TokensStep(d.text, p);
    var ts := Tokens(d.text, p);
    assert ts[0] == s && ts[1..] == more;
    assert ts == [Spelling(t.kind, TokenText(d.text, t))] + Tokens(d.text, t.end);
    assert ts[1..] == Tokens(d.text, t.end);
    Same.NextIsRead(d.text, p);
  }

  lemma {:induction false} ReadsLoose(d: Doc, p: nat, depth: nat, l: Loose, rest: seq<Spelling>)
    requires p <= |d.text| && LValid(l, d.scan) && Tokens(d.text, p) == LToks(l) + rest
    ensures Reading.Read(d, ReadValue(d, p, depth), depth + LNesting(l), LMeaning(l, d.scan), rest)
    decreases l, 2
  {
    hide ReadToken, NextToken, TokenText, ReadValue, ReadMembers, ReadArray, Tokens, Str.DecodeBody, Number.DecodeInteger, LItems, LMembers, LMeaning, LNesting;
    if l.LArr? {
      ReadsLooseArray(d, p, depth, l.items, rest);
    } else if l.LObj? {
      ReadsLooseObject(d, p, depth, l.members, rest);
    } else {
      ReadsLooseScalar(d, p, depth, l, rest);
    }
  }

  lemma ReadsLooseScalar(d: Doc, p: nat, depth: nat, l: Loose, rest: seq<Spelling>)
    requires p <= |d.text| && LValid(l, d.scan) && !l.LArr? && !l.LObj? && Tokens(d.text, p) == LToks(l) + rest
    ensures Reading.Read(d, ReadValue(d, p, depth), depth + LNesting(l), LMeaning(l, d.scan), rest)
  {
    hide ReadToken, NextToken, ReadValue, ReadMembers, ReadArray, Tokens, Str.DecodeBody, Number.DecodeInteger;
    ValueStep(d, p, depth);
    var t := Next(d, p, LToks(l)[0], rest);
    if l.LStr? {
      Same.BodyOfText(d.text, t);
    }
  }

  lemma {:induction false} ReadsLooseArray(d: Doc, p: nat, depth: nat, items: seq<Loose>, rest: seq<Spelling>)
    requires p <= |d.text| && LValid(LArr(items), d.scan) && Tokens(d.text, p) == LToks(LArr(items)) + rest
    ensures Reading.Read(d, ReadValue(d, p, depth), depth + LNesting(LArr(items)), LMeaning(LArr(items), d.scan), rest)
    decreases items, 1
  {
    hide ReadToken, NextToken, TokenText, ReadValue, ReadMembers, ReadArray, ReadElements, Tokens, LItems, SkipSpaces, ScalarOutcome;
    var body := (if items == [] then [Spelling(ArrayEnd, [0x5D])] else LItems(items)) + rest;
    assert Tokens(d.text, p) == [Spelling(ArrayBegin, [0x5B])] + body;
    var t := Next(d, p, Spelling(ArrayBegin, [0x5B]), body);
    ValueStep(d, p, depth);
    if depth < STACK_LIMIT {
      Same.ArrayStart(d.text, t.end);
      Reading.ArrayUnfold(d, t.end, depth + 1);
      if items == [] {
        var e := Next(d, t.end, Spelling(ArrayEnd, [0x5D]), rest);
      } else {
        FirstOfItems(items);
        var first, more := LItems(items)[0], LItems(items)[1..];
        assert body == [first] + (more + rest);
        var e := Next(d, t.end, first, more + rest);
        ReadsLooseItems(d, SkipSpaces(d.text, t.end), depth + 1, items, [], rest);
        assert [] + LEntries(0, items, d.scan) == LEntries(0, items, d.scan);
      }
    }
  }

  lemma {:induction false} FirstOfItems(items: seq<Loose>)
    requires items != []
    ensures LItems(items) != [] && LItems(items)[0].kind !in {ArrayEnd, EndOfStream, Comment}
  {
    FirstOfToks(items[0]);
  }

  lemma FirstOfToks(l: Loose)
    ensures LToks(l) != [] && LToks(l)[0].kind !in {ArrayEnd, EndOfStream, Comment}
  {
  }

  lemma ItemsUnfold(items: seq<Loose>, i: nat, scan: bytes -> Option<real>)
    requires items != [] && ItemsValid(items, scan)
    ensures LValid(items[0], scan) && ItemsValid(items[1..], scan)
    ensures LItems(items) ==
            LToks(items[0]) + if |items| == 1 then [Spelling(ArrayEnd, [0x5D])] else [Spelling(ArraySeparator, [0x2C])] + LItems(items[1..])
    ensures LEntries(i, items, scan) == [Entry(Index(i), LMeaning(items[0], scan))] + LEntries(i + 1, items[1..], scan)
    ensures LItemsNesting(items) == Rfc.Larger(LNesting(items[0]), LItemsNesting(items[1..]))
    ensures LItemsNesting([]) == 0 && LEntries(i + 1, [], scan) == []
  {
    hide LToks, LMeaning, LValid, LNesting;
  }

  lemma {:induction false} ReadsLooseItems(d: Doc, p: nat, depth: nat, items: seq<Loose>, acc: seq<Entry>, rest: seq<Spelling>)
    requires p <= |d.text| && items != [] && ItemsValid(items, d.scan) && Tokens(d.text, p) == LItems(items) + rest
    ensures Reading.Read(d, ReadElements(d, p, depth, acc), depth + LItemsNesting(items), Array(acc + LEntries(|acc|, items, d.scan)), rest)
    decreases items, 0
  {
    hide ReadToken, NextToken, TokenText, ReadValue, ReadElements, Tokens, LItems, LToks, LMeaning, LValid, LNesting, LItemsNesting, LEntries, ItemsValid, Recover;
    ItemsUnfold(items, |acc|, d.scan);
    var tail := (if |items| == 1 then [Spelling(ArrayEnd, [0x5D])] else [Spelling(ArraySeparator, [0x2C])] + LItems(items[1..])) + rest;
    assert Tokens(d.text, p) == LToks(items[0]) + tail;
    assert (items decreases to items[0]);
    ReadsLoose(d, p, depth, items[0], tail);
    Same.ElementsUnfold(d, p, depth, acc);
    var o := ReadValue(d, p, depth);
    if o.Parsed? {
      var acc' := acc + [Entry(Index(|acc|), o.value)];
      if |items| == 1 {
        assert items[1..] == [];
        var e := Next(d, o.pos, Spelling(ArrayEnd, [0x5D]), rest);
        assert acc + LEntries(|acc|, items, d.scan) == acc';
      } else {
        assert tail == [Spelling(ArraySeparator, [0x2C])] + (LItems(items[1..]) + rest);
        var e := Next(d, o.pos, Spelling(ArraySeparator, [0x2C]), LItems(items[1..]) + rest);
        ReadsLooseItems(d, e.end, depth, items[1..], acc', rest);
        assert acc' + LEntries(|acc'|, items[1..], d.scan) == acc + LEntries(|acc|, items, d.scan);
      }
    }
  }

  lemma {:induction false} ReadsLooseObject(d: Doc, p: nat, depth: nat, ms: seq<LMember>, rest: seq<Spelling>)
    requires p <= |d.text| && LValid(LObj(ms), d.scan) && Tokens(d.text, p) == LToks(LObj(ms)) + rest
    ensures Reading.Read(d, ReadValue(d, p, depth), depth + LNesting(LObj(ms)), LMeaning(LObj(ms), d.scan), rest)
    decreases ms, 1
  {
    hide ReadToken, NextToken, TokenText, ReadValue, ReadMembers, ReadArray, Tokens, LMembers, ScalarOutcome, LPut, LMembersNesting;
    assert Tokens(d.text, p) == [Spelling(ObjectBegin, [0x7B])] + (LMembers(ms) + rest);
    var t := Next(d, p, Spelling(ObjectBegin, [0x7B]), LMembers(ms) + rest);
    ValueStep(d, p, depth);
    if depth < STACK_LIMIT {
      ReadsLooseMembers(d, t.end, depth + 1, ms, [], [], rest);
    }
  }

  lemma MembersUnfold(ms: seq<LMember>, acc: seq<Entry>, scan: bytes -> Option<real>)
    requires ms != [] && MembersValid(ms, scan)
    ensures DecodesAt(ms[0].name) && LValid(ms[0].value, scan) && MembersValid(ms[1..], scan)
    ensures (!ms[0].comma ==> ms[1..] == []) && (ms[0].comma && ms[1..] == [] ==> Inner(ms[0].name) == [])
    ensures LMembers(ms) ==
            [Spelling(StringToken, ms[0].name), Spelling(MemberSeparator, [0x3A])] + LToks(ms[0].value) +
            if ms[0].comma then [Spelling(ArraySeparator, [0x2C])] + LMembers(ms[1..]) else [Spelling(ObjectEnd, [0x7D])]
    ensures LPut(acc, ms, scan) == LPut(Put(acc, Name(Inner(ms[0].name)), LMeaning(ms[0].value, scan)), ms[1..], scan)
    ensures LMembersNesting(ms) == Rfc.Larger(LNesting(ms[0].value), LMembersNesting(ms[1..]))
  {
    hide LToks, LMeaning, LValid, LNesting, Put;
    assert LMemberValid(ms[0], 0 + 1 == |ms|, scan);
    MembersTail(ms, scan);
  }

  lemma NoMembersUnfold(acc: seq<Entry>, scan: bytes -> Option<real>)
    ensures LMembers([]) == [Spelling(ObjectEnd, [0x7D])] && LPut(acc, [], scan) == acc && LMembersNesting([]) == 0
  {
  }

  lemma {:induction false} ReadsLooseMembers(d: Doc, p: nat, depth: nat, ms: seq<LMember>, acc: seq<Entry>, last: bytes, rest: seq<Spelling>)
    requires p <= |d.text| && MembersValid(ms, d.scan) && Tokens(d.text, p) == LMembers(ms) + rest && (ms == [] ==> last == [])
    requires depth <= STACK_LIMIT
    ensures Reading.Read(d, ReadMembers(d, p, depth, acc, last), depth + LMembersNesting(ms), Object(LPut(acc, ms, d.scan)), rest)
    decreases ms, 0
  {
    hide ReadToken, NextToken, TokenText, ReadValue, ReadMembers, ReadMember, Tokens, LMembers, LToks, LMeaning, LValid, LNesting, LMembersNesting, LPut, MembersValid, Put, Body, Str.DecodeBody;
    if ms == [] {
      NoMembersUnfold(acc, d.scan);
      var e := Next(d, p, Spelling(ObjectEnd, [0x7D]), rest);
      ClosedNow(d, p, depth, acc);
    } else {
      MembersUnfold(ms, acc, d.scan);
      var m := ms[0];
      var tail := (if m.comma then [Spelling(ArraySeparator, [0x2C])] + LMembers(ms[1..]) else [Spelling(ObjectEnd, [0x7D])]) + rest;
      var value := LToks(m.value) + tail;
      assert Tokens(d.text, p) == [Spelling(StringToken, m.name)] + ([Spelling(MemberSeparator, [0x3A])] + value);
      var t := Next(d, p, Spelling(StringToken, m.name), [Spelling(MemberSeparator, [0x3A])] + value);
      Same.BodyOfText(d.text, t);
      Reading.MembersStep(d, p, depth, acc, last);
      var c := Next(d, t.end, Spelling(MemberSeparator, [0x3A]), value);
      assert (ms decreases to ms[0]);
      ReadsLoose(d, c.end, depth, m.value, tail);
      ReadsLooseRest(d, t, c, depth, ms, acc, tail, rest);
    }
  }

  lemma ClosedNow(d: Doc, p: nat, depth: nat, acc: seq<Entry>)
    requires p <= |d.text| && NextToken(d.text, p).kind == ObjectEnd
    ensures ReadMembers(d, p, depth, acc, []) == Parsed(Object(acc), NextToken(d.text, p).end)
  {
    hide NextToken;
  }

  /** From the value of the first member on. */
  lemma {:induction false} ReadsLooseRest(d: Doc, t: Token, c: Token, depth: nat, ms: seq<LMember>, acc: seq<Entry>, tail: seq<Spelling>, rest: seq<Spelling>)
    requires t.end <= |d.text| && ms != [] && MembersValid(ms, d.scan) && depth <= STACK_LIMIT
    requires c == ReadToken(d.text, t.end) && c.kind == MemberSeparator && DecodesAt(ms[0].name) && LValid(ms[0].value, d.scan)
    requires Reading.Read(d, ReadValue(d, c.end, depth), depth + LNesting(ms[0].value), LMeaning(ms[0].value, d.scan), tail)
    requires tail == (if ms[0].comma then [Spelling(ArraySeparator, [0x2C])] + LMembers(ms[1..]) else [Spelling(ObjectEnd, [0x7D])]) + rest
    ensures Reading.Read(d, ReadMember(d, t.end, depth, acc, Inner(ms[0].name)), depth + LMembersNesting(ms), Object(LPut(acc, ms, d.scan)), rest)
    decreases ms, 0, 0
  {
    hide ReadToken, NextToken, TokenText, ReadValue, ReadMembers, ReadMember, Tokens, LMembers, LToks, LMeaning, LValid, LNesting, LMembersNesting, LPut, MembersValid, Put, Body, Str.DecodeBody, Inner;
    MembersUnfold(ms, acc, d.scan);
    var m, name := ms[0], Inner(ms[0].name);
    var o := ReadValue(d, c.end, depth);
    if o.Thrown? {
      Reading.MemberThrows(d, t.end, depth, acc, name);
    } else if m.comma {
      assert tail == [Spelling(ArraySeparator, [0x2C])] + (LMembers(ms[1..]) + rest);
      var e := Next(d, o.pos, Spelling(ArraySeparator, [0x2C]), LMembers(ms[1..]) + rest);
      Reading.MemberStep(d, t.end, depth, acc, name);
      ReadsLooseMembers(d, e.end, depth, ms[1..], Put(acc, Name(name), o.value), name, rest);
    } else {
      var e := Next(d, o.pos, Spelling(ObjectEnd, [0x7D]), rest);
      Reading.MemberStep(d, t.end, depth, acc, name);
      NoMembersUnfold(Put(acc, Name(name), o.value), d.scan);
    }
  }

  /** Comment-free text is accepted exactly when such a document of at most 1000 levels stands at its start. */
  lemma AcceptsExactly(text: bytes, scan: bytes -> Option<real>)
    requires Same.NoComment(Tokens(text, 0))
    ensures ReadValue(Doc(text, scan), 0, 0).Parsed? <==>
            exists l :: LValid(l, scan) && LNesting(l) <= 1000 && LToks(l) <= Tokens(text, 0)
  {
    hide ReadValue, Tokens, LValid, LMeaning, LToks, LNesting, Same.NoComment;
    var d := Doc(text, scan);
    if ReadValue(d, 0, 0).Parsed? {
      var l := AcceptsOnly(text, scan);
      ReadsLoose(d, 0, 0, l, Tokens(text, ReadValue(d, 0, 0).pos));
      assert LToks(l) <= Tokens(text, 0);
    }
    if l :| LValid(l, scan) && LNesting(l) <= 1000 && LToks(l) <= Tokens(text, 0) {
      var rest := Tokens(text, 0)[|LToks(l)|..];
      assert Tokens(text, 0) == LToks(l) + rest;
      ReadsLoose(d, 0, 0, l, rest);
    }
  }
}
