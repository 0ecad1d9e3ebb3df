/** The tokeniser of `Json::Reader` as functions of the document and a position. */
module JsonToken {
  import opened Bytes
  import opened JsonNumber
  import opened JsonString

  datatype Kind =
    | EndOfStream | ObjectBegin | ObjectEnd | ArrayBegin | ArrayEnd | StringToken | NumberToken
    | TrueToken | FalseToken | NullToken | ArraySeparator | MemberSeparator | Comment | ErrorToken

  datatype Token = Token(kind: Kind, start: nat, end: nat)

  datatype Scan = Scan(end: nat, ok: bool)

  const SLASH: byte := 0x2F
  const STAR: byte := 0x2A
  const NEWLINE: byte := 0x0A
  const RETURN: byte := 0x0D
  const COMMA: byte := 0x2C
  const COLON: byte := 0x3A
  const LBRACE: byte := 0x7B
  const RBRACE: byte := 0x7D
  const LBRACKET: byte := 0x5B
  const RBRACKET: byte := 0x5D
  const NULL_TEXT: bytes := [0x6E, 0x75, 0x6C, 0x6C]
  const TRUE_TEXT: bytes := [0x74, 0x72, 0x75, 0x65]
  const FALSE_TEXT: bytes := [0x66, 0x61, 0x6C, 0x73, 0x65]

  predicate IsSpace(c: byte) {
    c == 0x20 || c == 0x09 || c == 0x0D || c == 0x0A
  }

  function SkipSpaces(text: bytes, p: nat): (q: nat)
    requires p <= |text|
    ensures p <= q <= |text|
    decreases |text| - p
  {
    if p < |text| && IsSpace(text[p]) then SkipSpaces(text, p + 1) else p
  }

  /** `readString`, past the opening quote. */
  function ScanString(text: bytes, p: nat): (r: Scan)
    requires p <= |text|
    ensures p <= r.end <= |text|
    decreases |text| - p
  {
    if p == |text| then Scan(p, false)
    else if text[p] == BACKSLASH then ScanString(text, Min(p + 2, |text|))
    else if text[p] == QUOTE then Scan(p + 1, true)
    else ScanString(text, p + 1)
  }

  /** `readCStyleComment` */
  function ScanBlockComment(text: bytes, p: nat): (r: Scan)
    requires p <= |text|
    ensures p <= r.end <= |text|
    decreases |text| - p
  {
    if p == |text| then Scan(p, false)
    else if text[p] == STAR && At(text, p + 1) == SLASH then Scan(p + 2, true)
    else ScanBlockComment(text, p + 1)
  }

  /** `readCppStyleComment` */
  function ScanLineComment(text: bytes, p: nat): (q: nat)
    requires p <= |text|
    ensures p <= q <= |text|
    decreases |text| - p
  {
    if p == |text| then p
    else if text[p] == NEWLINE then p + 1
    else if text[p] == RETURN then (if At(text, p + 1) == NEWLINE then p + 2 else p + 1)
    else ScanLineComment(text, p + 1)
  }

  /** `readComment`, past the first slash. */
  function ScanComment(text: bytes, p: nat): (r: Scan)
    requires p <= |text|
    ensures p <= r.end <= |text|
  {
    if p == |text| then Scan(p, false)
    else if text[p] == STAR then ScanBlockComment(text, p + 1)
    else if text[p] == SLASH then Scan(ScanLineComment(text, p + 1), true)
    else Scan(p + 1, false)
  }

  function SkipDigits(text: bytes, p: nat): (q: nat)
    requires p <= |text|
    ensures p <= q <= |text|
    decreases |text| - p
  {
    if p < |text| && IsDigit(text[p]) then SkipDigits(text, p + 1) else p
  }

  function ScanFraction(text: bytes, p: nat): (q: nat)
    requires p <= |text|
    ensures p <= q <= |text|
  {
    if At(text, p) == 0x2E then SkipDigits(text, p + 1) else p
  }

  function ScanExponent(text: bytes, p: nat): (q: nat)
    requires p <= |text|
    ensures p <= q <= |text|
  {
    if At(text, p) == 0x65 || At(text, p) == 0x45 then
      SkipDigits(text, if At(text, p + 1) == 0x2B || At(text, p + 1) == MINUS then p + 2 else p + 1)
    else p
  }

  /** `readNumber`, past the first character. */
  function ScanNumber(text: bytes, p: nat): (q: nat)
    requires p <= |text|
    ensures p <= q <= |text|
  {
    ScanExponent(text, ScanFraction(text, SkipDigits(text, p)))
  }

  /** `match` */
  function ScanWord(text: bytes, p: nat, rest: bytes): (r: Scan)
    requires p <= |text|
    ensures p <= r.end <= |text|
  {
    if Has(text, p, rest) then Scan(p + |rest|, true) else Scan(p, false)
  }

  function Judge(kind: Kind, start: nat, r: Scan): Token {
    Token(if r.ok then kind else ErrorToken, start, r.end)
  }

  /** `readToken`. A zero octet inside the document reads as the end of the stream. */
  function ReadToken(text: bytes, p: nat): (t: Token)
    requires p <= |text|
    ensures p <= t.start <= t.end <= |text|
    ensures t.start == t.end ==> t.kind == EndOfStream
    ensures t.kind == StringToken ==> t.start + 2 <= t.end
  {
    var s := SkipSpaces(text, p);
    if s == |text| then Token(EndOfStream, s, s)
    else
      var c, q := text[s], s + 1;
      if c == LBRACE then Token(ObjectBegin, s, q)
      else if c == RBRACE then Token(ObjectEnd, s, q)
      else if c == LBRACKET then Token(ArrayBegin, s, q)
      else if c == RBRACKET then Token(ArrayEnd, s, q)
      else if c == QUOTE then (StringScanned(text, q); Judge(StringToken, s, ScanString(text, q)))
      else if c == SLASH then Judge(Comment, s, ScanComment(text, q))
      else if IsDigit(c) || c == MINUS then Token(NumberToken, s, ScanNumber(text, q))
      else if c == 0x74 then Judge(TrueToken, s, ScanWord(text, q, TRUE_TEXT[1..]))
      else if c == 0x66 then Judge(FalseToken, s, ScanWord(text, q, FALSE_TEXT[1..]))
      else if c == 0x6E then Judge(NullToken, s, ScanWord(text, q, NULL_TEXT[1..]))
      else if c == COMMA then Token(ArraySeparator, s, q)
      else if c == COLON then Token(MemberSeparator, s, q)
      else if c == 0 then Token(EndOfStream, s, q)
      else Token(ErrorToken, s, q)
  }

  /** A scanned string ends just past its quote, and what lies between is closed. */
  lemma {:induction false} StringScanned(text: bytes, p: nat)
    requires p <= |text|
    ensures var r := ScanString(text, p);
            r.ok ==> p < r.end && text[r.end - 1] == QUOTE && Closed(text[p..r.end - 1])
    decreases |text| - p
  {
    if p < |text| {
      var r := ScanString(text, p);
      if text[p] == BACKSLASH {
        StringScanned(text, Min(p + 2, |text|));
        if r.ok {
          assert text[p..r.end - 1][2..] == text[p + 2..r.end - 1];
        }
      } else if text[p] != QUOTE {
        StringScanned(text, p + 1);
        if r.ok {
          assert text[p..r.end - 1][1..] == text[p + 1..r.end - 1];
        }
      }
    }
  }

  /** `skipCommentTokens` */
  function NextToken(text: bytes, p: nat): (t: Token)
    requires p <= |text|
    ensures p <= t.start <= t.end <= |text|
    ensures t.start == t.end ==> t.kind == EndOfStream
    ensures t.kind == StringToken ==> t.start + 2 <= t.end
    decreases |text| - p
  {
    var t := ReadToken(text, p);
    if t.kind == Comment then NextToken(text, t.end) else t
  }

  /** `recoverFromError`: where reading stops after skipping to a `kind` token or the end. */
  function Recover(text: bytes, p: nat, kind: Kind): (q: nat)
    requires p <= |text|
    ensures p <= q <= |text|
    decreases |text| - p
  {
    var t := ReadToken(text, p);
    if t.kind == kind || t.kind == EndOfStream then t.end else Recover(text, t.end, kind)
  }

  function TokenText(text: bytes, t: Token): bytes
    requires t.start <= t.end <= |text|
  {
    text[t.start..t.end]
  }

  /** The text of a string token between its quotes. */
  function Body(text: bytes, t: Token): bytes
    requires t.start + 2 <= t.end <= |text|
  {
    text[t.start + 1..t.end - 1]
  }

  lemma BodyIsClosed(text: bytes, p: nat)
    requires p <= |text| && ReadToken(text, p).kind == StringToken
    ensures Closed(Body(text, ReadToken(text, p)))
  {
    StringScanned(text, SkipSpaces(text, p) + 1);
  }

  // ---- lexing printed text ----

  lemma {:induction false} ScanPlain(text: bytes, p: nat, n: nat)
    requires p + n <= |text| && forall i | p <= i < p + n :: text[i] != BACKSLASH && text[i] != QUOTE
    ensures ScanString(text, p) == ScanString(text, p + n)
    decreases n
  {
    if n > 0 {
      ScanPlain(text, p + 1, n - 1);
    }
  }

  lemma ScanEscapedByte(text: bytes, p: nat, c: byte)
    requires Has(text, p, EscapeByte(c))
    ensures ScanString(text, p) == ScanString(text, p + |EscapeByte(c)|)
  {
    var e := EscapeByte(c);
    forall i | 0 <= i < |e| ensures text[p + i] == e[i] {
      HasByte(text, p, e, i);
    }
    if |e| == 6 {
      assert text[p + 2] == e[2] && text[p + 3] == e[3] && text[p + 4] == e[4] && text[p + 5] == e[5];
      ScanPlain(text, p + 2, 4);
    } else {
      assert text[p] == e[0];
    }
  }

  lemma {:induction false} ScanEscaped(text: bytes, p: nat, s: bytes)
    requires Has(text, p, Escape(s) + [QUOTE])
    ensures ScanString(text, p) == Scan(p + |Escape(s)| + 1, true)
    decreases |s|
  {
    hide EscapeByte;
    if s == [] {
      HasByte(text, p, Escape(s) + [QUOTE], 0);
    } else {
      var e, rest := EscapeByte(s[0]), Escape(s[1..]) + [QUOTE];
      assert Escape(s) + [QUOTE] == e + rest;
      HasConcat(text, p, e, rest);
      ScanEscapedByte(text, p, s[0]);
      ScanEscaped(text, p + |e|, s[1..]);
    }
  }

  lemma LexString(text: bytes, p: nat, s: bytes)
    requires Has(text, p, Quote(s))
    ensures ReadToken(text, p) == Token(StringToken, p, p + |Quote(s)|)
    ensures Body(text, ReadToken(text, p)) == Escape(s)
  {
    hide Escape, ScanString;
    var q, inner := Quote(s), Escape(s) + [QUOTE];
    HasByte(text, p, q, 0);
    assert q == [QUOTE] + inner;
    HasConcat(text, p, [QUOTE], inner);
    ScanEscaped(text, p + 1, s);
    HasConcat(text, p + 1, Escape(s), [QUOTE]);
  }

  /** No further character of a number can start at `p`. */
  predicate Delimited(text: bytes, p: nat) {
    var c := At(text, p);
    !IsDigit(c) && c != 0x2E && c != 0x65 && c != 0x45
  }

  lemma {:induction false} SkipAllDigits(text: bytes, p: nat, n: nat)
    requires p + n <= |text| && forall i | p <= i < p + n :: IsDigit(text[i])
    requires !IsDigit(At(text, p + n))
    ensures SkipDigits(text, p) == p + n
    decreases n
  {
    if n > 0 {
      SkipAllDigits(text, p + 1, n - 1);
    }
  }

  /** Decimal text is a first character that starts a number, then digits. */
  lemma IntTextShape(n: int)
    ensures var t := IntText(n);
            t != [] && (IsDigit(t[0]) || t[0] == MINUS) && forall i | 0 < i < |t| :: IsDigit(t[i])
  {
    DigitsDenote(if n < 0 then -n else n);
  }

  lemma LexInteger(text: bytes, p: nat, n: int)
    requires Has(text, p, IntText(n)) && Delimited(text, p + |IntText(n)|)
    ensures ReadToken(text, p) == Token(NumberToken, p, p + |IntText(n)|)
  {
    hide IntText;
    var t := IntText(n);
    IntTextShape(n);
    HasByte(text, p, t, 0);
    forall i | p + 1 <= i < p + |t| ensures IsDigit(text[i]) {
      HasByte(text, p, t, i - p);
    }
    SkipAllDigits(text, p + 1, |t| - 1);
  }

  lemma LexWords(text: bytes, p: nat)
    ensures Has(text, p, NULL_TEXT) ==> ReadToken(text, p) == Token(NullToken, p, p + 4)
    ensures Has(text, p, TRUE_TEXT) ==> ReadToken(text, p) == Token(TrueToken, p, p + 4)
    ensures Has(text, p, FALSE_TEXT) ==> ReadToken(text, p) == Token(FalseToken, p, p + 5)
  {
    if Has(text, p, NULL_TEXT) {
      LexWord(text, p, NULL_TEXT);
    }
    if Has(text, p, TRUE_TEXT) {
      LexWord(text, p, TRUE_TEXT);
    }
    if Has(text, p, FALSE_TEXT) {
      LexWord(text, p, FALSE_TEXT);
    }
  }

  lemma LexWord(text: bytes, p: nat, w: bytes)
    requires w != [] && Has(text, p, w)
    ensures text[p] == w[0] && Has(text, p + 1, w[1..])
  {
    assert w == [w[0]] + w[1..];
    HasConcat(text, p, [w[0]], w[1..]);
    HasByte(text, p, w, 0);
  }
}
