/** `Reader` reads every JSON text of RFC 8259 as the value it denotes. */
module JsonRfc {
  import opened Bytes
  import opened JsonValue
  import opened JsonMap
  import Number = JsonNumber
  import Str = JsonString
  import opened JsonToken
  import opened JsonParse
  import opened JsonReader
  import Layout = JsonLayout
  import Same = JsonSame
  import opened Rfc8259

  // ---- strings ----

  /** `text` from `p` on reads one written character. */
  lemma ScanChar(text: bytes, p: nat, c: Char)
    requires ValidChar(c) && Has(text, p, CharText(c))
    ensures ScanString(text, p) == ScanString(text, p + |CharText(c)|)
  {
    var e := CharText(c);
    forall i | 0 <= i < |e| ensures text[p + i] == e[i] {
      HasByte(text, p, e, i);
    }
    match c
    case Raw(o) => assert text[p] == e[0];
    case Short(l) => assert text[p] == e[0];
    case Hex(d) => ScanHex(text, p, d);
    case Twin(h, l) =>
      assert e == ([0x5C, 0x75] + h) + ([0x5C, 0x75] + l);
      HasConcat(text, p, [0x5C, 0x75] + h, [0x5C, 0x75] + l);
      ScanHex(text, p, h);
      ScanHex(text, p + 6, l);
  }

  lemma ScanHex(text: bytes, p: nat, d: bytes)
    requires IsHex4(d) && Has(text, p, [0x5C, 0x75] + d)
    ensures ScanString(text, p) == ScanString(text, p + 6)
  {
    var e := [0x5C, 0x75] + d;
    HasByte(text, p, e, 0);
    forall i | p + 2 <= i < p + 6 ensures text[i] != Str.BACKSLASH && text[i] != Str.QUOTE {
      HasByte(text, p, e, i - p);
      assert IsHexDigit(e[i - p]);
    }
    ScanPlain(text, p + 2, 4);
  }

  lemma {:induction false} ScanChars(text: bytes, p: nat, cs: seq<Char>)
    requires ValidString(cs) && Has(text, p, StringText(cs) + [0x22])
    ensures ScanString(text, p) == Scan(p + |StringText(cs)| + 1, true)
    decreases |cs|
  {
    hide CharText, ValidChar;
    if cs == [] {
      HasByte(text, p, StringText(cs) + [0x22], 0);
    } else {
      var e, rest := CharText(cs[0]), StringText(cs[1..]) + [0x22];
      assert StringText(cs) + [0x22] == e + rest;
      HasConcat(text, p, e, rest);
      ScanChar(text, p, cs[0]);
      ScanChars(text, p + |e|, cs[1..]);
    }
  }

  lemma HexSame(c: byte)
    requires IsHexDigit(c)
    ensures Str.IsHex(c) && Str.HexValue(c) == HexOf(c)
  {
  }

  lemma DecodeHex(d: bytes, rest: bytes)
    requires IsHex4(d)
    ensures Str.DecodeUnit(d + rest) == Str.Unit(Hex4(d), 4)
  {
    var b := d + rest;
    assert b[0] == d[0] && b[1] == d[1] && b[2] == d[2] && b[3] == d[3];
    HexSame(d[0]);
    HexSame(d[1]);
    HexSame(d[2]);
    HexSame(d[3]);
  }

  lemma DecodeSingle(d: bytes, rest: bytes)
    requires ValidChar(Hex(d))
    ensures Str.DecodeCodePoint(d + rest) == Str.Unit(Hex4(d), 4)
  {
    hide Hex4, Str.DecodeUnit;
    DecodeHex(d, rest);
  }

  lemma DecodeTwin(h: bytes, l: bytes, rest: bytes)
    requires ValidChar(Twin(h, l))
    ensures Str.DecodeCodePoint(h + [0x5C, 0x75] + l + rest) == Str.Unit(ScalarOf(Twin(h, l)), 10)
  {
    hide Hex4, Str.DecodeUnit;
    var b := h + [0x5C, 0x75] + l + rest;
    assert b == h + ([0x5C, 0x75] + l + rest) && b[4] == 0x5C && b[5] == 0x75 && b[6..] == l + rest;
    DecodeHex(h, [0x5C, 0x75] + l + rest);
    DecodeHex(l, rest);
    LowTen(Hex4(h), 0xD800);
    LowTen(Hex4(l), 0xDC00);
  }

  /** The low ten bits of a surrogate. */
  lemma LowTen(x: nat, base: nat)
    requires base in {0xD800, 0xDC00} && base <= x < base + 0x400
    ensures x % 0x400 == x - base
  {
    assert x == 0x400 * (base / 0x400) + (x - base);
  }

  lemma DecodeChar(c: Char, rest: bytes)
    requires ValidChar(c)
    ensures Str.DecodeBody(CharText(c) + rest) == Str.Prepend(CharOctets(c), Str.DecodeBody(rest))
  {
    hide Hex4, Str.DecodeUnit, Str.DecodeCodePoint, Str.CodePointToUtf8;
    if c.Hex? || c.Twin? {
      DecodeEscape(c, rest);
    } else {
      var b := CharText(c) + rest;
      assert b[|CharText(c)|..] == rest;
    }
  }

  /** A `\u` escape or pair: what follows the two first octets, and what follows the whole. */
  lemma DecodeEscape(c: Char, rest: bytes)
    requires ValidChar(c) && (c.Hex? || c.Twin?)
    ensures Str.DecodeBody(CharText(c) + rest) == Str.Prepend(CharOctets(c), Str.DecodeBody(rest))
  {
    hide Hex4, Str.DecodeUnit, Str.DecodeCodePoint, Str.CodePointToUtf8, ValidChar, ScalarOf;
    var b := CharText(c) + rest;
    EscapeDecoded(c, rest);
    assert b[0] == 0x5C && b[1] == 0x75 && b[|CharText(c)|..] == rest;
  }

  lemma EscapeDecoded(c: Char, rest: bytes)
    requires ValidChar(c) && (c.Hex? || c.Twin?)
    ensures Str.DecodeCodePoint((CharText(c) + rest)[2..]) == Str.Unit(ScalarOf(c), |CharText(c)| - 2)
  {
    hide Hex4, Str.DecodeUnit, Str.DecodeCodePoint;
    var b := CharText(c) + rest;
    if c.Hex? {
      assert b[2..] == c.digits + rest;
      DecodeSingle(c.digits, rest);
    } else {
      assert b[2..] == c.high + [0x5C, 0x75] + c.low + rest;
      DecodeTwin(c.high, c.low, rest);
    }
  }

  lemma {:induction false} DecodeChars(cs: seq<Char>)
    requires ValidString(cs)
    ensures Str.DecodeBody(StringText(cs)) == Str.Text(StringOctets(cs))
    decreases |cs|
  {
    hide CharText, CharOctets, ValidChar;
    if cs != [] {
      DecodeChar(cs[0], StringText(cs[1..]));
      DecodeChars(cs[1..]);
    }
  }

  // ---- numbers ----

  lemma {:induction false} DecimalIsNumber(ds: bytes)
    requires AreDigits(ds)
    ensures Number.AllDigits(ds) && Number.NumberOf(ds) == Decimal(ds)
  {
    if ds != [] {
      DecimalIsNumber(ds[..|ds| - 1]);
    }
  }

  /** The digits at `p`, and nothing that would prolong them behind. */
  lemma SkipPart(text: bytes, p: nat, ds: bytes)
    requires AreDigits(ds) && Has(text, p, ds) && !Number.IsDigit(At(text, p + |ds|))
    ensures SkipDigits(text, p) == p + |ds|
  {
    forall i | p <= i < p + |ds| ensures Number.IsDigit(text[i]) {
      HasByte(text, p, ds, i - p);
    }
    SkipAllDigits(text, p, |ds|);
  }

  lemma ScanExpo(text: bytes, p: nat, n: Numeral)
    requires ValidNumeral(n) && Has(text, p, ExpoText(n)) && Delimited(text, p + |ExpoText(n)|)
    ensures ScanExponent(text, p) == p + |ExpoText(n)|
    ensures ExpoText(n) == [] || At(text, p) == 0x65 || At(text, p) == 0x45
  {
    hide SkipDigits, AreDigits, ScanExponent, ExpoText, Has, Delimited, At;
    ExpoSplit(n);
    if n.expo.Expo? {
      var x := n.expo;
      ExpoParts(text, p, x.mark, x.sign, x.digits);
    } else {
      NoExponent(text, p);
    }
  }

  lemma ExpoSplit(n: Numeral)
    ensures ExpoText(n) == if n.expo.NoExpo? then [] else [n.expo.mark] + (n.expo.sign + n.expo.digits)
  {
  }

  lemma NoExponent(text: bytes, p: nat)
    requires Has(text, p, []) && Delimited(text, p)
    ensures ScanExponent(text, p) == p
  {
  }

  lemma ExpoParts(text: bytes, p: nat, mark: byte, sign: bytes, ds: bytes)
    requires (mark == 0x65 || mark == 0x45) && (sign == [] || sign == [0x2B] || sign == [0x2D]) && ds != [] && AreDigits(ds)
    requires Has(text, p, [mark] + (sign + ds)) && Delimited(text, p + |[mark] + (sign + ds)|)
    ensures At(text, p) == mark && ScanExponent(text, p) == p + |[mark] + (sign + ds)|
  {
    hide SkipDigits, AreDigits;
    HasConcat(text, p, [mark], sign + ds);
    HasByte(text, p, [mark], 0);
    HasConcat(text, p + 1, sign, ds);
    SignThere(text, p + 1, sign, ds);
    SkipPart(text, p + 1 + |sign|, ds);
  }

  lemma SignThere(text: bytes, p: nat, sign: bytes, ds: bytes)
    requires (sign == [] || sign == [0x2B] || sign == [0x2D]) && ds != [] && AreDigits(ds) && Has(text, p, sign) && Has(text, p + |sign|, ds)
    ensures |sign| == (if At(text, p) == 0x2B || At(text, p) == 0x2D then 1 else 0)
  {
    hide Has;
    HasByte(text, p + |sign|, ds, 0);
    if sign != [] {
      HasByte(text, p, sign, 0);
    }
  }

  lemma ScanFrac(text: bytes, p: nat, n: Numeral)
    requires ValidNumeral(n) && Has(text, p, FracText(n) + ExpoText(n)) && Delimited(text, p + |FracText(n)| + |ExpoText(n)|)
    ensures ScanExponent(text, ScanFraction(text, p)) == p + |FracText(n)| + |ExpoText(n)|
    ensures !Number.IsDigit(At(text, p))
  {
    hide SkipDigits, ScanExponent, AreDigits;
    HasConcat(text, p, FracText(n), ExpoText(n));
    var q := p + |FracText(n)|;
    ScanExpo(text, q, n);
    if n.frac != [] {
      HasConcat(text, p, [0x2E], n.frac);
      HasByte(text, p, [0x2E], 0);
      SkipPart(text, p + 1, n.frac);
    }
  }

  lemma LexNumeral(text: bytes, p: nat, n: Numeral)
    requires ValidNumeral(n) && Has(text, p, NumeralText(n)) && Delimited(text, p + |NumeralText(n)|)
    ensures ReadToken(text, p) == Token(NumberToken, p, p + |NumeralText(n)|)
  {
    hide ReadToken, ScanFraction, ScanExponent, SkipDigits, Has, FracText, ExpoText, Delimited;
    var sign, tail := if n.minus then [0x2D] else [], FracText(n) + ExpoText(n);
    assert NumeralText(n) == sign + (n.whole + tail);
    HasConcat(text, p, sign, n.whole + tail);
    var w := p + |sign|;
    HasConcat(text, w, n.whole, tail);
    HasByte(text, w, n.whole, 0);
    ScanFrac(text, w + |n.whole|, n);
    if n.minus {
      HasByte(text, p, sign, 0);
      SkipPart(text, w, n.whole);
    } else {
      assert n.whole == [n.whole[0]] + n.whole[1..];
      HasConcat(text, w, [n.whole[0]], n.whole[1..]);
      SkipPart(text, w + 1, n.whole[1..]);
    }
    NumberStarts(text, p);
  }

  lemma NumberStarts(text: bytes, p: nat)
    requires p < |text| && (0x30 <= text[p] <= 0x39 || text[p] == 0x2D)
    ensures ReadToken(text, p) == Token(NumberToken, p, ScanExponent(text, ScanFraction(text, SkipDigits(text, p + 1))))
  {
    hide ScanFraction, ScanExponent, SkipDigits;
  }

  lemma DecodeNumeral(n: Numeral)
    requires ValidNumeral(n) && n.frac == [] && n.expo.NoExpo?
    ensures var m := Decimal(n.whole);
            Number.DecodeInteger(NumeralText(n)) ==
            if m <= (if n.minus then 0x8000_0000_0000_0000 else 0xFFFF_FFFF_FFFF_FFFF)
            then Some(if n.minus then Int(0 - m) else if m < 0x8000_0000 then Int(m) else UInt(m))
            else None
  {
    hide Decimal, Number.NumberOf;
    var t := NumeralText(n);
    assert t == (if n.minus then [0x2D] else []) + n.whole;
    assert Number.Magnitude(t) == n.whole;
    DecimalIsNumber(n.whole);
  }

  /** A fraction or an exponent is no integer. */
  lemma NotAnInteger(n: Numeral)
    requires ValidNumeral(n) && (n.frac != [] || n.expo.Expo?)
    ensures Number.DecodeInteger(NumeralText(n)).None?
  {
    hide Number.NumberOf, AreDigits;
    var t := NumeralText(n);
    var sign, tail := if n.minus then [0x2D] else [], FracText(n) + ExpoText(n);
    assert t == sign + (n.whole + tail);
    assert tail[0] in {0x2E, 0x65, 0x45};
    var ds := Number.Magnitude(t);
    assert n.whole[0] != 0x2D by { DigitFirst(n.whole); }
    assert ds == n.whole + tail;
    assert ds[|n.whole|] == tail[0];
  }

  lemma DigitFirst(ds: bytes)
    requires ds != [] && AreDigits(ds)
    ensures 0x30 <= ds[0] <= 0x39
  {
  }

  lemma NumeralDecoded(d: Doc, t: Token, n: Numeral)
    requires t.start <= t.end <= |d.text| && TokenText(d.text, t) == NumeralText(n) && ValidNumeral(n)
    ensures DecodeNumberToken(d, t) == NumeralValue(n, d.scan)
  {
    hide Number.DecodeInteger, NumeralText;
    if n.frac == [] && n.expo.NoExpo? {
      DecodeNumeral(n);
    } else {
      NotAnInteger(n);
    }
  }

  // ---- tokens ----

  function TokKind(t: Tok): Kind {
    match t
    case Mark(c) =>
      if c == 0x5B then ArrayBegin else if c == 0x5D then ArrayEnd else if c == 0x7B then ObjectBegin
      else if c == 0x7D then ObjectEnd else if c == 0x3A then MemberSeparator else ArraySeparator
    case NullTok => NullToken
    case TrueTok => TrueToken
    case FalseTok => FalseToken
    case NumTok(_) => NumberToken
    case StrTok(_) => StringToken
  }

  function Spelt(t: Tok): Layout.Spelling {
    Layout.Spelling(TokKind(t), TokText(t))
  }

  function AllSpelt(ts: seq<Tok>): seq<Layout.Spelling> {
    seq(|ts|, i requires 0 <= i < |ts| => Spelt(ts[i]))
  }

  lemma LexStr(text: bytes, p: nat, cs: seq<Char>)
    requires ValidString(cs) && Has(text, p, TokText(StrTok(cs)))
    ensures ReadToken(text, p) == Token(StringToken, p, p + |TokText(StrTok(cs))|)
  {
    hide ScanString, StringText;
    var q, inner := TokText(StrTok(cs)), StringText(cs) + [0x22];
    HasByte(text, p, q, 0);
    assert q == [0x22] + inner;
    HasConcat(text, p, [0x22], inner);
    ScanChars(text, p + 1, cs);
  }

  lemma LexMark(text: bytes, p: nat, c: byte)
    requires ValidTok(Mark(c)) && Has(text, p, [c])
    ensures ReadToken(text, p) == Token(TokKind(Mark(c)), p, p + 1)
  {
    HasByte(text, p, [c], 0);
  }

  lemma LexTok(text: bytes, p: nat, t: Tok)
    requires ValidTok(t) && Has(text, p, TokText(t)) && (t.NumTok? ==> Delimited(text, p + |TokText(t)|))
    ensures ReadToken(text, p) == Token(TokKind(t), p, p + |TokText(t)|)
  {
    hide ReadToken, StringText, NumeralText;
    match t
    case Mark(c) => LexMark(text, p, c);
    case NumTok(n) => LexNumeral(text, p, n);
    case StrTok(cs) => LexStr(text, p, cs);
    case _ => LexWords(text, p);
  }

  /** A number is followed by a structural character or by nothing. */
  predicate Parted(ts: seq<Tok>) {
    forall i | 0 <= i && i + 1 < |ts| :: ts[i].NumTok? ==> ts[i + 1].Mark?
  }

  lemma {:induction false} StripIsTrim(t: bytes)
    ensures Strip(t) == Layout.Trim(t)
  {
    if t != [] && IsWhite(t[0]) {
      StripIsTrim(t[1..]);
    }
  }

  /** Behind a number, text whose first token is structural does not go on with a number. */
  lemma NotProlonged(u: bytes, ts: seq<Tok>)
    requires Spaced(u, ts) && (ts != [] ==> ts[0].Mark? && ValidTok(ts[0]))
    ensures u == [] || !(Number.IsDigit(u[0]) || u[0] == 0x2E || u[0] == 0x65 || u[0] == 0x45)
  {
    if u != [] && !IsWhite(u[0]) {
      assert Strip(u) == u;
      assert ts != [] && [ts[0].c] <= u;
    }
  }

  lemma {:induction false} SpacedTokens(text: bytes, p: nat, ts: seq<Tok>)
    requires p <= |text| && Spaced(text[p..], ts) && Parted(ts) && forall i | 0 <= i < |ts| :: ValidTok(ts[i])
    ensures Layout.Tokens(text, p) == AllSpelt(ts)
    decreases ts
  {
    hide ReadToken, TokText, TokKind, Spaced, SkipSpaces, ValidTok, Parted, TokenText, Layout.Tokens;
    Same.TokensStep(text, p);
    if ts == [] {
      NothingAhead(text, p);
    } else {
      var t := HeadLexed(text, p, ts);
      PartedTail(ts);
      assert forall i | 0 <= i < |ts[1..]| :: ts[1..][i] == ts[i + 1];
      SpacedTokens(text, t.end, ts[1..]);
      KindIsReal(ts[0]);
      assert AllSpelt(ts) == [Spelt(ts[0])] + AllSpelt(ts[1..]);
    }
  }

  lemma NothingAhead(text: bytes, p: nat)
    requires p <= |text| && Spaced(text[p..], [])
    ensures ReadToken(text, p).kind == EndOfStream && AllSpelt([]) == []
  {
    hide ReadToken, Strip, SkipSpaces, Layout.Trim;
    Layout.SkipIsTrim(text, p);
    StripIsTrim(text[p..]);
    Layout.ReadTokenSkips(text, p);
    assert SkipSpaces(text, p) == |text|;
    Layout.EndToken(text);
  }

  /** The first of the tokens is read, and the others are ahead. */
  lemma HeadLexed(text: bytes, p: nat, ts: seq<Tok>) returns (t: Token)
    requires p <= |text| && ts != [] && Spaced(text[p..], ts) && Parted(ts) && forall i | 0 <= i < |ts| :: ValidTok(ts[i])
    ensures t == ReadToken(text, p) && t.kind == TokKind(ts[0]) && TokenText(text, t) == TokText(ts[0])
    ensures Spaced(text[t.end..], ts[1..])
  {
    hide ReadToken, TokText, TokKind, Strip, SkipSpaces, ValidTok, Layout.Trim;
    var s := SkipSpaces(text, p);
    Layout.SkipIsTrim(text, p);
    StripIsTrim(text[p..]);
    Layout.ReadTokenSkips(text, p);
    var w, rest := TokText(ts[0]), ts[1..];
    assert Has(text, s, w);
    assert text[s..][|w|..] == text[s + |w|..];
    if ts[0].NumTok? {
      assert rest != [] ==> rest[0] == ts[0 + 1];
      NotProlonged(text[s + |w|..], rest);
      assert s + |w| < |text| ==> text[s + |w|..][0] == text[s + |w|];
    }
    LexTok(text, s, ts[0]);
    t := ReadToken(text, p);
  }

  lemma PartedTail(ts: seq<Tok>)
    requires Parted(ts) && ts != []
    ensures Parted(ts[1..])
  {
    var rest := ts[1..];
    forall i | 0 <= i && i + 1 < |rest| ensures rest[i].NumTok? ==> rest[i + 1].Mark? {
      assert rest[i] == ts[i + 1] && rest[i + 1] == ts[i + 1 + 1];
    }
  }

  lemma KindIsReal(t: Tok)
    ensures TokKind(t) != EndOfStream && TokKind(t) != Comment
  {
  }

  // ---- documents ----

  lemma SpeltConcat(a: seq<Tok>, b: seq<Tok>)
    ensures AllSpelt(a + b) == AllSpelt(a) + AllSpelt(b)
  {
  }

  lemma SpeltOne(t: Tok)
    ensures AllSpelt([t]) == [Spelt(t)]
  {
  }

  /** The tokens ahead start with `t`. */
  ghost predicate Ahead(d: Doc, p: nat, t: Tok, more: seq<Layout.Spelling>) {
    p <= |d.text| && Layout.Tokens(d.text, p) == [Spelt(t)] + more
  }

  lemma TakeTok(d: Doc, p: nat, t: Tok, more: seq<Layout.Spelling>) returns (k: Token)
    requires Ahead(d, p, t, more)
    ensures k == ReadToken(d.text, p) == NextToken(d.text, p)
    ensures k.kind == TokKind(t) && TokenText(d.text, k) == TokText(t) && Layout.Tokens(d.text, k.end) == more
    ensures p < k.end
  {
    hide ReadToken, NextToken, TokenText, TokText, TokKind;
    k := ReadToken(d.text, p);
    Same.TokensStep(d.text, p);
    KindIsReal(t);
    var ts := Layout.Tokens(d.text, p);
    assert ts[0] == Spelt(t) && ts[1..] == more;
    assert ts == [Layout.Spelling(k.kind, TokenText(d.text, k))] + Layout.Tokens(d.text, k.end);
    assert ts[1..] == Layout.Tokens(d.text, k.end);
    Same.NextIsRead(d.text, p);
  }

  /** Reading ended with value `v` and `rest` ahead, or threw at the depth limit. */
  ghost predicate Read(d: Doc, o: Outcome, deepest: nat, v: Value, rest: seq<Layout.Spelling>) {
    if deepest <= STACK_LIMIT then o.Parsed? && o.value == v && o.pos <= |d.text| && Layout.Tokens(d.text, o.pos) == rest
    else o.Thrown?
  }

  /** The token of a scalar document. */
  predicate IsScalar(j: Json) {
    !j.JsonArray? && !j.JsonObject?
  }

  function ScalarTok(j: Json): Tok
    requires IsScalar(j)
  {
    match j
    case JsonNull => NullTok
    case JsonTrue => TrueTok
    case JsonFalse => FalseTok
    case JsonNumber(n) => NumTok(n)
    case JsonString(cs) => StrTok(cs)
  }

  lemma ReadsScalar(d: Doc, p: nat, depth: nat, j: Json, rest: seq<Layout.Spelling>)
    requires IsScalar(j) && Valid(j, d.scan) && Ahead(d, p, ScalarTok(j), rest)
    ensures Read(d, ReadValue(d, p, depth), depth + 1, Meaning(j, d.scan), rest)
  {
    hide ReadToken, NextToken, TokenText, ReadValue, ReadMembers, ReadArray, DecodeNumberToken, NumeralValue, Str.DecodeBody, StringOctets;
    ValueStep(d, p, depth);
    var k := TakeTok(d, p, ScalarTok(j), rest);
    if j.JsonNumber? {
      NumeralDecoded(d, k, j.n);
    } else if j.JsonString? {
      StringBody(d, k, j.cs);
      DecodeChars(j.cs);
    }
  }

  lemma StringBody(d: Doc, k: Token, cs: seq<Char>)
    requires k.start + 2 <= k.end <= |d.text| && TokenText(d.text, k) == TokText(StrTok(cs))
    ensures Body(d.text, k) == StringText(cs)
  {
    hide Body, TokenText, StringText;
    Same.BodyOfText(d.text, k);
    var a := TokText(StrTok(cs));
    assert a[1..|a| - 1] == StringText(cs);
  }

  /** First token of a document. */
  function FirstTok(j: Json): Tok {
    match j
    case JsonArray(_) => Mark(0x5B)
    case JsonObject(_) => Mark(0x7B)
    case _ => ScalarTok(j)
  }

  lemma ToksStart(j: Json)
    ensures Toks(j) != [] && Toks(j)[0] == FirstTok(j) && TokKind(FirstTok(j)) != ArrayEnd
  {
  }

  /** From a place where the tokens of `j` stand ahead, the reader reads what `j` denotes. */
  lemma {:induction false} ReadsTree(d: Doc, p: nat, depth: nat, j: Json, rest: seq<Layout.Spelling>)
    requires Valid(j, d.scan) && p <= |d.text| && Layout.Tokens(d.text, p) == AllSpelt(Toks(j)) + rest
    ensures Read(d, ReadValue(d, p, depth), depth + Nesting(j), Meaning(j, d.scan), rest)
    decreases j, 2
  {
    hide ReadToken, NextToken, TokenText, ReadValue, ReadMembers, ReadArray, Valid, AllSpelt, TokKind, TokText, ScalarOutcome, Toks, Nesting, Meaning, Read, Layout.Tokens;
    if j.JsonArray? {
      ReadsArray(d, p, depth, j.items, rest);
    } else if j.JsonObject? {
      ReadsObject(d, p, depth, j.members, rest);
    } else {
      ScalarFacts(j);
      SpeltOne(ScalarTok(j));
      ReadsScalar(d, p, depth, j, rest);
    }
  }

  lemma ScalarFacts(j: Json)
    requires IsScalar(j)
    ensures Toks(j) == [ScalarTok(j)] && Nesting(j) == 1
  {
  }

  lemma ArrayFacts(items: seq<Json>, scan: bytes -> Option<real>)
    requires Valid(JsonArray(items), scan)
    ensures var j := JsonArray(items);
            && Toks(j) == [Mark(0x5B)] + (ItemsToks(items, 0) + [Mark(0x5D)]) && Nesting(j) == 1 + ItemsNesting(items, 0)
            && Meaning(j, scan) == Array(ItemsMeaning(items, |items|, scan)) && ItemsMeaning(items, 0, scan) == []
            && (items == [] ==> ItemsNesting(items, 0) == 0)
  {
    hide ItemsToks;
  }

  lemma ObjectFacts(ms: seq<Member>, scan: bytes -> Option<real>)
    requires Valid(JsonObject(ms), scan)
    ensures var j := JsonObject(ms);
            && Toks(j) == [Mark(0x7B)] + (MembersToks(ms, 0) + [Mark(0x7D)]) && Nesting(j) == 1 + MembersNesting(ms, 0)
            && Meaning(j, scan) == Object(MembersMeaning(ms, |ms|, scan)) && MembersMeaning(ms, 0, scan) == []
            && (ms == [] ==> MembersNesting(ms, 0) == 0)
  {
    hide MembersToks;
  }

  lemma {:induction false} ReadsArray(d: Doc, p: nat, depth: nat, items: seq<Json>, rest: seq<Layout.Spelling>)
    requires Valid(JsonArray(items), d.scan) && p <= |d.text|
    requires Layout.Tokens(d.text, p) == AllSpelt(Toks(JsonArray(items))) + rest
    ensures Read(d, ReadValue(d, p, depth), depth + Nesting(JsonArray(items)), Meaning(JsonArray(items), d.scan), rest)
    decreases items, 1
  {
    hide ReadToken, NextToken, TokenText, ReadValue, ReadMembers, ReadElements, ReadArray, AllSpelt, TokText, ScalarOutcome, ItemsToks, SkipSpaces;
    hide Toks, Nesting, Meaning, ItemsNesting, ItemsMeaning, Spelt, Layout.Tokens, FirstTok;
    ArrayFacts(items, d.scan);
    var closing := [Spelt(Mark(0x5D))] + rest;
    var body := AllSpelt(ItemsToks(items, 0)) + closing;
    Enclosed(Mark(0x5B), ItemsToks(items, 0), Mark(0x5D), rest);
    var k := TakeTok(d, p, Mark(0x5B), body);
    ValueStep(d, p, depth);
    if depth < STACK_LIMIT {
      Same.ArrayStart(d.text, k.end);
      ArrayUnfold(d, k.end, depth + 1);
      NoItems(items);
      if items == [] {
        assert body == closing;
        var e := TakeTok(d, k.end, Mark(0x5D), rest);
      } else {
        ItemAhead(items, 0, closing);
        ToksStart(items[0]);
        FirstAhead(Toks(items[0]), AllSpelt(ItemsToks(items, 1)) + closing);
        var e := TakeTok(d, k.end, FirstTok(items[0]), AllSpelt(Toks(items[0])[1..]) + (AllSpelt(ItemsToks(items, 1)) + closing));
        var s := SkipSpaces(d.text, k.end);
        ReadsItems(d, s, depth + 1, items, 0, rest);
      }
    } else {
      NestingPositive(JsonArray(items));
    }
  }

  /** Tokens between two marks, as they stand ahead. */
  lemma Enclosed(open: Tok, ts: seq<Tok>, close: Tok, rest: seq<Layout.Spelling>)
    ensures AllSpelt([open] + (ts + [close])) + rest == [Spelt(open)] + (AllSpelt(ts) + ([Spelt(close)] + rest))
  {
    hide AllSpelt, Spelt;
    SpeltConcat([open], ts + [close]);
    SpeltConcat(ts, [close]);
    SpeltOne(open);
    SpeltOne(close);
  }

  lemma NestingPositive(j: Json)
    ensures Nesting(j) >= 1
  {
  }

  lemma NoItems(items: seq<Json>)
    ensures items == [] ==> AllSpelt(ItemsToks(items, 0)) == []
  {
  }

  lemma FirstAhead(ts: seq<Tok>, more: seq<Layout.Spelling>)
    requires ts != []
    ensures AllSpelt(ts) + more == [Spelt(ts[0])] + (AllSpelt(ts[1..]) + more)
  {
    hide AllSpelt, Spelt;
    assert ts == [ts[0]] + ts[1..];
    SpeltConcat([ts[0]], ts[1..]);
    SpeltOne(ts[0]);
  }

  lemma ItemAhead(items: seq<Json>, i: nat, closing: seq<Layout.Spelling>)
    requires i < |items|
    ensures var ahead := AllSpelt(Toks(items[i])) + (AllSpelt(ItemsToks(items, i + 1)) + closing);
            AllSpelt(ItemsToks(items, i)) + closing == if i > 0 then [Spelt(Mark(0x2C))] + ahead else ahead
  {
    hide ItemsToks, Toks, Spelt, AllSpelt;
    ItemsToksStep(items, i);
    var tail := Toks(items[i]) + ItemsToks(items, i + 1);
    SpeltConcat(CommaTok(i), tail);
    SpeltConcat(Toks(items[i]), ItemsToks(items, i + 1));
    Regrouped(AllSpelt(CommaTok(i)), AllSpelt(Toks(items[i])), AllSpelt(ItemsToks(items, i + 1)), closing);
    SpeltOne(Mark(0x2C));
    EmptySpelt();
  }

  lemma Regrouped(a: seq<Layout.Spelling>, b: seq<Layout.Spelling>, c: seq<Layout.Spelling>, d: seq<Layout.Spelling>)
    ensures a + (b + c) + d == a + (b + (c + d)) && [] + (b + (c + d)) == b + (c + d)
  {
  }

  lemma ItemsToksStep(items: seq<Json>, i: nat)
    ensures ItemsToks(items, i) == if i >= |items| then [] else CommaTok(i) + (Toks(items[i]) + ItemsToks(items, i + 1))
    ensures items != [] ==> ItemsToks(items, 0) == Toks(items[0]) + ItemsToks(items, 1)
  {
    hide Toks;
  }

  lemma ArrayUnfold(d: Doc, p: nat, depth: nat)
    requires p <= |d.text|
    ensures var s := SkipSpaces(d.text, p);
            ReadArray(d, p, depth) ==
            if At(d.text, s) == RBRACKET then Parsed(Array([]), ReadToken(d.text, s).end) else ReadElements(d, s, depth, [])
  {
    hide ReadElements, ReadToken, SkipSpaces;
  }

  lemma {:induction false} ReadsItems(d: Doc, p: nat, depth: nat, items: seq<Json>, i: nat, rest: seq<Layout.Spelling>)
    requires i < |items| && (forall k | 0 <= k < |items| :: Valid(items[k], d.scan)) && p <= |d.text|
    requires Layout.Tokens(d.text, p) == AllSpelt(Toks(items[i])) + (AllSpelt(ItemsToks(items, i + 1)) + ([Spelt(Mark(0x5D))] + rest))
    ensures Read(d, ReadElements(d, p, depth, ItemsMeaning(items, i, d.scan)), depth + ItemsNesting(items, i),
                 Array(ItemsMeaning(items, |items|, d.scan)), rest)
    decreases items, 0, |items| - i
  {
    hide ReadToken, NextToken, TokenText, ReadValue, ReadElements, AllSpelt, TokText, ItemsToks, Toks, Valid, Recover, Meaning, ItemsMeaning, ItemsNesting, Nesting, Spelt, Layout.Tokens;
    var acc := ItemsMeaning(items, i, d.scan);
    var after := AllSpelt(ItemsToks(items, i + 1)) + ([Spelt(Mark(0x5D))] + rest);
    assert (items decreases to items[i]);
    ReadsTree(d, p, depth, items[i], after);
    Same.ElementsUnfold(d, p, depth, acc);
    var o := ReadValue(d, p, depth);
    ItemsCount(items, i, d.scan);
    if depth + Nesting(items[i]) <= STACK_LIMIT {
      if i + 1 == |items| {
        ItemsToksStep(items, i + 1);
        EmptySpelt();
        assert after == [Spelt(Mark(0x5D))] + rest;
        var e := TakeTok(d, o.pos, Mark(0x5D), rest);
      } else {
        var more := AllSpelt(Toks(items[i + 1])) + (AllSpelt(ItemsToks(items, i + 2)) + ([Spelt(Mark(0x5D))] + rest));
        ItemAhead(items, i + 1, [Spelt(Mark(0x5D))] + rest);
        var e := TakeTok(d, o.pos, Mark(0x2C), more);
        ReadsItems(d, e.end, depth, items, i + 1, rest);
      }
    }
  }

  lemma EmptySpelt()
    ensures AllSpelt([]) == []
  {
  }

  lemma {:induction false} ItemsCount(items: seq<Json>, i: nat, scan: bytes -> Option<real>)
    requires i < |items| && (forall k | 0 <= k < |items| :: Valid(items[k], scan))
    ensures |ItemsMeaning(items, i, scan)| == i
    ensures ItemsMeaning(items, i + 1, scan) == ItemsMeaning(items, i, scan) + [Entry(Index(i), Meaning(items[i], scan))]
    ensures ItemsNesting(items, i) == Larger(Nesting(items[i]), ItemsNesting(items, i + 1))
    ensures ItemsNesting(items, |items|) == 0 && ItemsMeaning(items, 0, scan) == []
  {
    hide Valid, Meaning, Nesting;
    if i > 0 {
      ItemsCount(items, i - 1, scan);
    }
  }

  lemma {:induction false} ReadsObject(d: Doc, p: nat, depth: nat, ms: seq<Member>, rest: seq<Layout.Spelling>)
    requires Valid(JsonObject(ms), d.scan) && p <= |d.text|
    requires Layout.Tokens(d.text, p) == AllSpelt(Toks(JsonObject(ms))) + rest
    ensures Read(d, ReadValue(d, p, depth), depth + Nesting(JsonObject(ms)), Meaning(JsonObject(ms), d.scan), rest)
    decreases ms, 1
  {
    hide ReadToken, NextToken, TokenText, ReadValue, ReadMembers, ReadArray, AllSpelt, TokText, ScalarOutcome, MembersToks, Spelt, Layout.Tokens;
    hide Toks, Nesting, Meaning, MembersNesting, MembersMeaning, FromName;
    ObjectFacts(ms, d.scan);
    var closing := [Spelt(Mark(0x7D))] + rest;
    var body := AllSpelt(MembersToks(ms, 0)) + closing;
    Enclosed(Mark(0x7B), MembersToks(ms, 0), Mark(0x7D), rest);
    var k := TakeTok(d, p, Mark(0x7B), body);
    ValueStep(d, p, depth);
    if depth >= STACK_LIMIT {
      NestingPositive(JsonObject(ms));
    } else if ms == [] {
      MembersToksStep(ms, 0);
      EmptySpelt();
      assert body == closing;
      var e := TakeTok(d, k.end, Mark(0x7D), rest);
      EmptyObject(d, k.end, depth + 1);
    } else {
      MembersToksStep(ms, 0);
      MemberAhead(ms, 0, closing);
      ReadsMembers(d, k.end, depth + 1, ms, 0, [], rest);
    }
  }

  lemma EmptyObject(d: Doc, p: nat, depth: nat)
    requires p <= |d.text| && NextToken(d.text, p).kind == ObjectEnd
    ensures ReadMembers(d, p, depth, [], []) == Parsed(Object([]), NextToken(d.text, p).end)
  {
    hide NextToken;
  }

  lemma MembersToksStep(ms: seq<Member>, i: nat)
    ensures MembersToks(ms, i) ==
            if i >= |ms| then []
            else CommaTok(i) + ([StrTok(ms[i].name), Mark(0x3A)] + (Toks(ms[i].value) + MembersToks(ms, i + 1)))
  {
    hide Toks;
  }

  /** What stands ahead from the name of member `i` on. */
  function FromName(ms: seq<Member>, i: nat, closing: seq<Layout.Spelling>): seq<Layout.Spelling>
    requires i < |ms|
  {
    [Spelt(StrTok(ms[i].name))] + ([Spelt(Mark(0x3A))] + (AllSpelt(Toks(ms[i].value)) + (AllSpelt(MembersToks(ms, i + 1)) + closing)))
  }

  lemma MemberAhead(ms: seq<Member>, i: nat, closing: seq<Layout.Spelling>)
    requires i < |ms|
    ensures AllSpelt(MembersToks(ms, i)) + closing ==
            (if i > 0 then [Spelt(Mark(0x2C))] else []) + FromName(ms, i, closing)
  {
    hide MembersToks, Toks, Spelt, AllSpelt;
    MembersToksStep(ms, i);
    var name, tail := [StrTok(ms[i].name), Mark(0x3A)], Toks(ms[i].value) + MembersToks(ms, i + 1);
    SpeltConcat(CommaTok(i), name + tail);
    SpeltConcat(name, tail);
    assert name == [StrTok(ms[i].name)] + [Mark(0x3A)];
    SpeltConcat([StrTok(ms[i].name)], [Mark(0x3A)]);
    SpeltConcat(Toks(ms[i].value), MembersToks(ms, i + 1));
    SpeltOne(StrTok(ms[i].name));
    SpeltOne(Mark(0x3A));
    SpeltOne(Mark(0x2C));
    EmptySpelt();
  }

  lemma {:induction false} ReadsMembers(d: Doc, p: nat, depth: nat, ms: seq<Member>, i: nat, last: bytes, rest: seq<Layout.Spelling>)
    requires i < |ms| && (forall k | 0 <= k < |ms| :: ValidString(ms[k].name) && Valid(ms[k].value, d.scan)) && p <= |d.text|
    requires Layout.Tokens(d.text, p) == FromName(ms, i, [Spelt(Mark(0x7D))] + rest)
    ensures Read(d, ReadMembers(d, p, depth, MembersMeaning(ms, i, d.scan), last), depth + MembersNesting(ms, i),
                 Object(MembersMeaning(ms, |ms|, d.scan)), rest)
    decreases ms, 0, |ms| - i
  {
    hide ReadToken, NextToken, TokenText, ReadValue, ReadMembers, ReadMember, AllSpelt, TokText, MembersToks, Toks, Valid, ValidString, Meaning, Put, Body, Str.DecodeBody, StringOctets, StringText;
    hide MembersMeaning, MembersNesting, Nesting, Spelt, Layout.Tokens;
    var m, acc, closing := ms[i], MembersMeaning(ms, i, d.scan), [Spelt(Mark(0x7D))] + rest;
    var after := AllSpelt(MembersToks(ms, i + 1)) + closing;
    var colon := [Spelt(Mark(0x3A))] + (AllSpelt(Toks(m.value)) + after);
    var k := TakeTok(d, p, StrTok(m.name), colon);
    StringBody(d, k, m.name);
    DecodeChars(m.name);
    MembersStep(d, p, depth, acc, last);
    var c := TakeTok(d, k.end, Mark(0x3A), AllSpelt(Toks(m.value)) + after);
    assert (ms decreases to ms[i]);
    ReadsTree(d, c.end, depth, m.value, after);
    var o := ReadValue(d, c.end, depth);
    MembersCount(ms, i, d.scan);
    if depth + Nesting(m.value) <= STACK_LIMIT {
      if i + 1 == |ms| {
        MembersToksStep(ms, i + 1);
        EmptySpelt();
        assert after == closing;
        var e := TakeTok(d, o.pos, Mark(0x7D), rest);
        MemberStep(d, k.end, depth, acc, NameOctets(m));
      } else {
        MemberAhead(ms, i + 1, closing);
        var e := TakeTok(d, o.pos, Mark(0x2C), FromName(ms, i + 1, closing));
        MemberStep(d, k.end, depth, acc, NameOctets(m));
        ReadsMembers(d, e.end, depth, ms, i + 1, NameOctets(m), rest);
      }
    } else {
      MemberThrows(d, k.end, depth, acc, NameOctets(m));
    }
  }

  lemma MembersCount(ms: seq<Member>, i: nat, scan: bytes -> Option<real>)
    requires i < |ms| && (forall k | 0 <= k < |ms| :: ValidString(ms[k].name) && Valid(ms[k].value, scan))
    ensures MembersMeaning(ms, i + 1, scan) ==
            Put(MembersMeaning(ms, i, scan), Name(NameOctets(ms[i])), Meaning(ms[i].value, scan))
    ensures MembersNesting(ms, i) == Larger(Nesting(ms[i].value), MembersNesting(ms, i + 1))
    ensures MembersNesting(ms, |ms|) == 0 && MembersMeaning(ms, 0, scan) == []
  {
    hide Valid, ValidString, Meaning, Nesting, Put, StringOctets;
  }

  /** `readObject` at a name that decodes. */
  lemma MembersStep(d: Doc, p: nat, depth: nat, acc: seq<Entry>, last: bytes)
    requires p <= |d.text| && NextToken(d.text, p).kind == StringToken
    requires Str.DecodeBody(Body(d.text, NextToken(d.text, p))).Text?
    ensures var t := NextToken(d.text, p);
            ReadMembers(d, p, depth, acc, last) == ReadMember(d, t.end, depth, acc, Str.DecodeBody(Body(d.text, t)).text)
  {
    hide NextToken, ReadMember, Str.DecodeBody, Body;
  }

  /** `readObject` at the colon: the depth limit is passed on. */
  lemma MemberThrows(d: Doc, p: nat, depth: nat, acc: seq<Entry>, name: bytes)
    requires p <= |d.text| && ReadToken(d.text, p).kind == MemberSeparator && ReadValue(d, ReadToken(d.text, p).end, depth).Thrown?
    ensures ReadMember(d, p, depth, acc, name) == Thrown
  {
    hide ReadToken, NextToken, ReadValue, ReadMembers, Put, FailedAt;
  }

  /** `readObject` at the colon, and a comma or brace behind the value. */
  lemma MemberStep(d: Doc, p: nat, depth: nat, acc: seq<Entry>, name: bytes)
    requires p <= |d.text| && ReadToken(d.text, p).kind == MemberSeparator && ReadValue(d, ReadToken(d.text, p).end, depth).Parsed?
    requires var q := ReadValue(d, ReadToken(d.text, p).end, depth).pos;
             NextToken(d.text, q) == ReadToken(d.text, q) && ReadToken(d.text, q).kind in {ObjectEnd, ArraySeparator}
    ensures var o := ReadValue(d, ReadToken(d.text, p).end, depth);
            var t := ReadToken(d.text, o.pos);
            ReadMember(d, p, depth, acc, name) ==
            if t.kind == ObjectEnd then Parsed(Object(Put(acc, Name(name), o.value)), t.end)
            else ReadMembers(d, t.end, depth, Put(acc, Name(name), o.value), name)
  {
    hide ReadToken, NextToken, ReadValue, ReadMembers, Put, FailedAt;
  }

  // ---- the theorem ----

  lemma {:induction false} ToksValid(j: Json, scan: bytes -> Option<real>)
    requires Valid(j, scan)
    ensures forall i | 0 <= i < |Toks(j)| :: ValidTok(Toks(j)[i])
    ensures Parted(Toks(j)) && (j.JsonArray? || j.JsonObject? || |Toks(j)| == 1)
    decreases j, 2
  {
    hide ValidTok, ItemsToks, MembersToks;
    match j
    case JsonArray(items) =>
      ItemsValid(items, 0, scan);
      PartedJoin(ItemsToks(items, 0), [Mark(0x5D)]);
      PartedJoin([Mark(0x5B)], ItemsToks(items, 0) + [Mark(0x5D)]);
      MarksValid();
    case JsonObject(ms) =>
      MembersValid(ms, 0, scan);
      PartedJoin(MembersToks(ms, 0), [Mark(0x7D)]);
      PartedJoin([Mark(0x7B)], MembersToks(ms, 0) + [Mark(0x7D)]);
      MarksValid();
    case JsonNumber(n) => NumberValid(n);
    case JsonString(cs) => StrValid(cs);
    case _ => WordsValid();
  }

  lemma MarksValid()
    ensures ValidTok(Mark(0x5B)) && ValidTok(Mark(0x5D)) && ValidTok(Mark(0x7B)) && ValidTok(Mark(0x7D))
    ensures ValidTok(Mark(0x2C)) && ValidTok(Mark(0x3A))
  {
  }

  lemma WordsValid()
    ensures ValidTok(NullTok) && ValidTok(TrueTok) && ValidTok(FalseTok)
  {
  }

  lemma NumberValid(n: Numeral)
    ensures ValidTok(NumTok(n)) <==> ValidNumeral(n)
  {
  }

  lemma StrValid(cs: seq<Char>)
    ensures ValidTok(StrTok(cs)) <==> ValidString(cs)
  {
  }

  /** Two lists join if the first ends, or the second starts, with a structural character. */
  lemma PartedJoin(a: seq<Tok>, b: seq<Tok>)
    requires Parted(a) && Parted(b)
    requires a == [] || b == [] || a[|a| - 1].Mark? || b[0].Mark?
    ensures Parted(a + b)
  {
    var c := a + b;
    forall i | 0 <= i && i + 1 < |c| ensures c[i].NumTok? ==> c[i + 1].Mark? {
      if i + 1 < |a| {
        assert c[i] == a[i] && c[i + 1] == a[i + 1];
      } else if i >= |a| {
        assert c[i] == b[i - |a|] && c[i + 1] == b[i - |a| + 1];
      }
    }
  }

  lemma {:induction false} ItemsValid(items: seq<Json>, i: nat, scan: bytes -> Option<real>)
    requires forall k | 0 <= k < |items| :: Valid(items[k], scan)
    ensures forall k | 0 <= k < |ItemsToks(items, i)| :: ValidTok(ItemsToks(items, i)[k])
    ensures Parted(ItemsToks(items, i)) && (i > 0 && ItemsToks(items, i) != [] ==> ItemsToks(items, i)[0].Mark?)
    decreases items, 1, |items| - i
  {
    hide ValidTok, ItemsToks, Toks, Valid, Parted;
    ItemsToksStep(items, i);
    PartedShort(CommaTok(i));
    if i < |items| {
      assert (items decreases to items[i]);
      ToksValid(items[i], scan);
      ItemsValid(items, i + 1, scan);
      MarksValid();
      PartedJoin(Toks(items[i]), ItemsToks(items, i + 1));
      PartedJoin(CommaTok(i), Toks(items[i]) + ItemsToks(items, i + 1));
    } else {
      PartedShort([]);
    }
  }

  lemma PartedShort(ts: seq<Tok>)
    requires |ts| <= 1
    ensures Parted(ts)
  {
  }

  lemma {:induction false} MembersValid(ms: seq<Member>, i: nat, scan: bytes -> Option<real>)
    requires forall k | 0 <= k < |ms| :: ValidString(ms[k].name) && Valid(ms[k].value, scan)
    ensures forall k | 0 <= k < |MembersToks(ms, i)| :: ValidTok(MembersToks(ms, i)[k])
    ensures Parted(MembersToks(ms, i)) && (i > 0 && MembersToks(ms, i) != [] ==> MembersToks(ms, i)[0].Mark?)
    decreases ms, 1, |ms| - i
  {
    hide ValidTok, MembersToks, Toks, Valid, ValidString, Parted;
    MembersToksStep(ms, i);
    PartedShort(CommaTok(i));
    if i < |ms| {
      assert (ms decreases to ms[i]);
      ToksValid(ms[i].value, scan);
      MembersValid(ms, i + 1, scan);
      MarksValid();
      StrValid(ms[i].name);
      var name := [StrTok(ms[i].name), Mark(0x3A)];
      assert name == [StrTok(ms[i].name)] + [Mark(0x3A)];
      PartedShort([StrTok(ms[i].name)]);
      PartedShort([Mark(0x3A)]);
      PartedJoin([StrTok(ms[i].name)], [Mark(0x3A)]);
      PartedJoin(Toks(ms[i].value), MembersToks(ms, i + 1));
      PartedJoin(name, Toks(ms[i].value) + MembersToks(ms, i + 1));
      PartedJoin(CommaTok(i), name + (Toks(ms[i].value) + MembersToks(ms, i + 1)));
    } else {
      PartedShort([]);
    }
  }

  /**
    * On every JSON text of RFC 8259 that nests at most 1000 deep the reader gives the value the text
    * denotes; deeper ones throw.
    */
  lemma ReadsEveryText(text: bytes, j: Json, scan: bytes -> Option<real>)
    requires IsText(text, j, scan)
    ensures var o := ReadValue(Doc(text, scan), 0, 0);
            if Nesting(j) <= 1000 then o.Parsed? && o.value == Meaning(j, scan) else o.Thrown?
  {
    hide ReadValue, Spaced, Toks, Valid, Meaning, Nesting, Parted, ValidTok;
    ToksValid(j, scan);
    assert text[0..] == text;
    SpacedTokens(text, 0, Toks(j));
    assert AllSpelt(Toks(j)) + [] == AllSpelt(Toks(j));
    ReadsTree(Doc(text, scan), 0, 0, j, []);
  }

  /** The same of `Reader::parse`: one value, no error recorded. */
  method ParseText(text: bytes, ghost j: Json, scan: bytes -> Option<real>) returns (thrown: bool, successful: bool, result: Value)
    requires IsText(text, j, scan)
    ensures thrown <==> Nesting(j) > 1000
    ensures !thrown ==> successful && result == Meaning(j, scan)
  {
    hide ReadValue, Spaced, Toks, Valid, Meaning, Nesting;
    ReadsEveryText(text, j, scan);
    var reader := new Reader(scan);
    thrown, successful, result := reader.Parse(text, Null);
  }
}
