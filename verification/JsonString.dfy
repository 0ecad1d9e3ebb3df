/** String literals: quoting in the writers, `decodeString` in the reader (RFC 8259 section 7). */
module JsonString {
  import opened Bytes
  import opened Utf8

  const QUOTE: byte := 0x22
  const BACKSLASH: byte := 0x5C
  const LETTER_U: byte := 0x75

  // ---- codePointToUTF8 ----

  /** `codePointToUTF8`: nothing at all above U+10FFFF, and no check for surrogates. */
  function CodePointToUtf8(cp: nat): bytes {
    if cp <= 0x7F then [cp]
    else if cp <= 0x7FF then [0xC0 + cp / 64 % 32, 0x80 + cp % 64]
    else if cp <= 0xFFFF then [0xE0 + cp / 4096 % 16, 0x80 + cp / 64 % 64, 0x80 + cp % 64]
    else if cp <= 0x10FFFF then
      [0xF0 + cp / 262144 % 8, 0x80 + cp / 4096 % 64, 0x80 + cp / 64 % 64, 0x80 + cp % 64]
    else []
  }

  /** `cp` by six-bit groups. */
  lemma SixBitGroups(cp: nat)
    ensures cp == 64 * (cp / 64) + cp % 64
    ensures cp / 64 == 64 * (cp / 4096) + cp / 64 % 64
    ensures cp / 4096 == 64 * (cp / 262144) + cp / 4096 % 64
  {
    assert cp / 64 / 64 == cp / 4096;
    assert cp / 4096 / 64 == cp / 262144;
  }

  lemma EncodedIsChar(cp: nat)
    requires IsScalar(cp)
    ensures IsChar(CodePointToUtf8(cp)) && Scalar(CodePointToUtf8(cp)) == cp
  {
    SixBitGroups(cp);
    if cp > 0x7FF {
      if cp <= 0xFFFF {
        ThreeOctets(cp);
      } else {
        FourOctets(cp);
      }
    }
  }

  lemma ThreeOctets(cp: nat)
    requires 0x7FF < cp <= 0xFFFF && IsScalar(cp)
    ensures IsChar(CodePointToUtf8(cp)) && Scalar(CodePointToUtf8(cp)) == cp
  {
    SixBitGroups(cp);
    var a, b := cp / 4096, cp / 64 % 64;
    assert a < 16 && cp == 4096 * a + 64 * b + cp % 64;
    assert CodePointToUtf8(cp) == [0xE0 + a, 0x80 + b, 0x80 + cp % 64];
  }

  lemma FourOctets(cp: nat)
    requires 0xFFFF < cp <= 0x10FFFF
    ensures IsChar(CodePointToUtf8(cp)) && Scalar(CodePointToUtf8(cp)) == cp
  {
    SixBitGroups(cp);
    var a, b, c := cp / 262144, cp / 4096 % 64, cp / 64 % 64;
    assert a < 5 && cp == 262144 * a + 4096 * b + 64 * c + cp % 64;
    assert CodePointToUtf8(cp) == [0xF0 + a, 0x80 + b, 0x80 + c, 0x80 + cp % 64];
  }

  /** Encoding a scalar value and decoding it with the validator gives the scalar value back. */
  lemma EncodeThenDecode(cp: nat)
    requires IsScalar(cp)
    ensures Run(START, CodePointToUtf8(cp)) == Dfa(ACCEPT, cp)
  {
    EncodedIsChar(cp);
    CharRun(START, CodePointToUtf8(cp));
  }

  // ---- quoting ----

  function HexDigit(n: nat): byte
    requires n < 16
  {
    if n < 10 then 0x30 + n else 0x41 + (n - 10)
  }

  function EscapeByte(c: byte): bytes {
    match c
    case 0x22 => [BACKSLASH, 0x22]
    case 0x5C => [BACKSLASH, 0x5C]
    case 0x08 => [BACKSLASH, 0x62]
    case 0x0C => [BACKSLASH, 0x66]
    case 0x0A => [BACKSLASH, 0x6E]
    case 0x0D => [BACKSLASH, 0x72]
    case 0x09 => [BACKSLASH, 0x74]
    case _ => if c <= 0x1F then [BACKSLASH, LETTER_U, 0x30, 0x30, HexDigit(c / 16), HexDigit(c % 16)] else [c]
  }

  function Escape(s: bytes): bytes {
    if s == [] then [] else EscapeByte(s[0]) + Escape(s[1..])
  }

  function Quote(s: bytes): bytes {
    [QUOTE] + Escape(s) + [QUOTE]
  }

  lemma {:induction false} EscapeSnoc(s: bytes, c: byte)
    ensures Escape(s + [c]) == Escape(s) + EscapeByte(c)
  {
    if s == [] {
      assert s + [c] == [c];
    } else {
      assert (s + [c])[1..] == s[1..] + [c];
      EscapeSnoc(s[1..], c);
    }
  }

  predicate Plain(c: byte) {
    c > 0x1F && c != QUOTE && c != BACKSLASH
  }

  lemma {:induction false} EscapePlain(s: bytes)
    requires forall i | 0 <= i < |s| :: Plain(s[i])
    ensures Escape(s) == s
  {
    if s != [] {
      EscapePlain(s[1..]);
    }
  }

  /** `valueToQuotedStringN`: a string with nothing to escape is copied, any other is walked. */
  method ValueToQuotedStringN(value: bytes) returns (result: bytes)
    ensures result == Quote(value)
  {
    var special := false;
    for i := 0 to |value|
      invariant special == exists j | 0 <= j < i :: !Plain(value[j])
    {
      special := special || !Plain(value[i]);
    }
    if !special {
      EscapePlain(value);
      return [QUOTE] + value + [QUOTE];
    }
    result := [QUOTE];
    for i := 0 to |value|
      invariant result == [QUOTE] + Escape(value[..i])
    {
      assert value[..i + 1] == value[..i] + [value[i]];
      EscapeSnoc(value[..i], value[i]);
      result := result + EscapeByte(value[i]);
    }
    assert value[..|value|] == value;
    result := result + [QUOTE];
  }

  /** What a C string function sees of `s`. */
  function UpToNul(s: bytes): bytes {
    if s == [] || s[0] == 0 then [] else [s[0]] + UpToNul(s[1..])
  }

  lemma {:induction false} UpToNulWhole(s: bytes)
    ensures UpToNul(s) == s <==> 0 !in s
    ensures |UpToNul(s)| <= |s|
  {
    if s != [] {
      UpToNulWhole(s[1..]);
      if UpToNul(s) == s {
        assert UpToNul(s)[1..] == UpToNul(s[1..]);
      }
    }
  }

  /** `valueToQuotedString(name.c_str())` */
  method ValueToQuotedString(name: bytes) returns (result: bytes)
    ensures result == Quote(UpToNul(name))
  {
    var n := 0;
    while n < |name| && name[n] != 0
      invariant n <= |name| && UpToNul(name) == name[..n] + UpToNul(name[n..])
    {
      assert name[..n] + UpToNul(name[n..]) == name[..n + 1] + UpToNul(name[n + 1..]);
      n := n + 1;
    }
    assert name[..n] + UpToNul(name[n..]) == name[..n];
    result := ValueToQuotedStringN(name[..n]);
  }

  // ---- decoding ----

  datatype Problem =
    | EmptyEscape | BadEscape | FourDigitsExpected | HexDigitExpected | SixMoreExpected | SecondHalfExpected

  datatype Decoded = Text(text: bytes) | Bad(problem: Problem)

  datatype CodeUnit = Unit(cp: nat, used: nat) | BadUnit(problem: Problem)

  predicate IsHex(c: byte) {
    0x30 <= c <= 0x39 || 0x61 <= c <= 0x66 || 0x41 <= c <= 0x46
  }

  function HexValue(c: byte): nat
    requires IsHex(c)
  {
    if c <= 0x39 then c - 0x30 else if c >= 0x61 then c - 0x61 + 10 else c - 0x41 + 10
  }

  /** `decodeUnicodeEscapeSequence` on what follows `\u`. */
  function DecodeUnit(b: bytes): CodeUnit {
    if |b| < 4 then BadUnit(FourDigitsExpected)
    else if !(IsHex(b[0]) && IsHex(b[1]) && IsHex(b[2]) && IsHex(b[3])) then BadUnit(HexDigitExpected)
    else Unit(((HexValue(b[0]) * 16 + HexValue(b[1])) * 16 + HexValue(b[2])) * 16 + HexValue(b[3]), 4)
  }

  /** `decodeUnicodeCodePoint`: the second half of a pair is not checked to be a low surrogate. */
  function DecodeCodePoint(b: bytes): CodeUnit {
    var high := DecodeUnit(b);
    if high.BadUnit? || !(0xD800 <= high.cp <= 0xDBFF) then high
    else if |b| < 10 then BadUnit(SixMoreExpected)
    else if b[4] != BACKSLASH || b[5] != LETTER_U then BadUnit(SecondHalfExpected)
    else
      var low := DecodeUnit(b[6..]);
      if low.BadUnit? then low
      else Unit(0x10000 + high.cp % 0x400 * 0x400 + low.cp % 0x400, 10)
  }

  lemma CodePointUsed(b: bytes)
    requires DecodeCodePoint(b).Unit?
    ensures DecodeCodePoint(b).used <= |b|
  {
  }

  /** The octet a one-letter escape stands for, or -1. */
  function Unescape(e: byte): (r: int)
    ensures -1 <= r <= 0x7F
  {
    match e
    case 0x22 => 0x22
    case 0x2F => 0x2F
    case 0x5C => 0x5C
    case 0x62 => 0x08
    case 0x66 => 0x0C
    case 0x6E => 0x0A
    case 0x72 => 0x0D
    case 0x74 => 0x09
    case _ => -1
  }

  function Prepend(t: bytes, d: Decoded): Decoded {
    if d.Text? then Text(t + d.text) else d
  }

  /** `decodeString` on what lies between the quotes of a string token. */
  function DecodeBody(b: bytes): Decoded
    decreases |b|
  {
    if b == [] || b[0] == QUOTE then Text([])
    else if b[0] != BACKSLASH then Prepend([b[0]], DecodeBody(b[1..]))
    else if |b| == 1 then Bad(EmptyEscape)
    else if b[1] == LETTER_U then
      var u := DecodeCodePoint(b[2..]);
      if u.BadUnit? then Bad(u.problem) else Prepend(CodePointToUtf8(u.cp), DecodeBody(b[2 + u.used..]))
    else if Unescape(b[1]) < 0 then Bad(BadEscape)
    else Prepend([Unescape(b[1])], DecodeBody(b[2..]))
  }

  lemma PrependTwice(a: bytes, b: bytes, d: Decoded)
    ensures Prepend(a, Prepend(b, d)) == Prepend(a + b, d)
  {
    if d.Text? {
      assert a + (b + d.text) == a + b + d.text;
    }
  }

  method DecodeUnicodeEscapeSequence(t: bytes, current: nat, end: nat) returns (u: CodeUnit)
    requires current <= end <= |t|
    ensures u == DecodeUnit(t[current..end])
  {
    if end - current < 4 {
      return BadUnit(FourDigitsExpected);
    }
    ghost var b := t[current..end];
    var unicode: nat := 0;
    for index := 0 to 4
      invariant forall j | 0 <= j < index :: IsHex(b[j])
      invariant index == 0 ==> unicode == 0
      invariant index == 1 ==> unicode == HexValue(b[0])
      invariant index == 2 ==> unicode == HexValue(b[0]) * 16 + HexValue(b[1])
      invariant index == 3 ==> unicode == (HexValue(b[0]) * 16 + HexValue(b[1])) * 16 + HexValue(b[2])
      invariant index == 4 ==> Unit(unicode, 4) == DecodeUnit(b)
    {
      var c := t[current + index];
      assert c == b[index];
      unicode := unicode * 16;
      if !IsHex(c) {
        return BadUnit(HexDigitExpected);
      }
      unicode := unicode + HexValue(c);
    }
    return Unit(unicode, 4);
  }

  method DecodeUnicodeCodePoint(t: bytes, current: nat, end: nat) returns (u: CodeUnit)
    requires current <= end <= |t|
    ensures u == DecodeCodePoint(t[current..end])
  {
    ghost var b := t[current..end];
    u := DecodeUnicodeEscapeSequence(t, current, end);
    if u.Unit? && 0xD800 <= u.cp <= 0xDBFF {
      if end - (current + 4) < 6 {
        return BadUnit(SixMoreExpected);
      }
      assert b[4] == t[current + 4] && b[5] == t[current + 5] && b[6..] == t[current + 6..end];
      if t[current + 4] == BACKSLASH && t[current + 5] == LETTER_U {
        var pair := DecodeUnicodeEscapeSequence(t, current + 6, end);
        if pair.Unit? {
          u := Unit(0x10000 + u.cp % 0x400 * 0x400 + pair.cp % 0x400, 10);
        } else {
          u := pair;
        }
      } else {
        u := BadUnit(SecondHalfExpected);
      }
    }
  }

  /** `decodeString` on a whole token, quotes included. */
  method DecodeString(t: bytes) returns (r: Decoded)
    requires |t| >= 2
    ensures r == DecodeBody(t[1..|t| - 1])
  {
    hide CodePointToUtf8, DecodeCodePoint, Unescape;
    var decoded: bytes := [];
    var current, end := 1, |t| - 1;
    while current != end
      invariant 1 <= current <= end
      invariant DecodeBody(t[1..end]) == Prepend(decoded, DecodeBody(t[current..end]))
      decreases end - current
    {
      ghost var b, before := t[current..end], decoded;
      var c := t[current];
      current := current + 1;
      if c == QUOTE {
        break;
      } else if c == BACKSLASH {
        if current == end {
          return Bad(EmptyEscape);
        }
        var escape := t[current];
        current := current + 1;
        assert b[2..] == t[current..end];
        if escape == LETTER_U {
          var u := DecodeUnicodeCodePoint(t, current, end);
          if u.BadUnit? {
            return Bad(u.problem);
          }
          CodePointUsed(t[current..end]);
          current := current + u.used;
          assert b[2 + u.used..] == t[current..end];
          decoded := decoded + CodePointToUtf8(u.cp);
          PrependTwice(before, CodePointToUtf8(u.cp), DecodeBody(t[current..end]));
        } else {
          var plain := Unescape(escape);
          if plain < 0 {
            return Bad(BadEscape);
          }
          decoded := decoded + [plain];
          PrependTwice(before, [plain], DecodeBody(t[current..end]));
        }
      } else {
        assert b[1..] == t[current..end];
        decoded := decoded + [c];
        PrependTwice(before, [c], DecodeBody(t[current..end]));
      }
    }
    return Text(decoded);
  }

  // ---- quoting and decoding are inverse ----

  lemma DecodeEscapedByte(c: byte, rest: bytes)
    ensures DecodeBody(EscapeByte(c) + rest) == Prepend([c], DecodeBody(rest))
  {
    var e := EscapeByte(c);
    var b := e + rest;
    assert b[|e|..] == rest;
    if |e| == 6 {
      assert b[2..][4..] == rest;
      assert DecodeUnit(b[2..]) == Unit(c, 4);
      assert CodePointToUtf8(c) == [c];
    } else if |e| == 2 {
      assert Unescape(e[1]) == c;
    }
  }

  /** Every byte string, NUL and non-UTF-8 octets included, survives quoting and decoding. */
  lemma {:induction false} DecodeInvertsEscape(s: bytes)
    ensures DecodeBody(Escape(s)) == Text(s)
  {
    if s != [] {
      DecodeInvertsEscape(s[1..]);
      DecodeEscapedByte(s[0], Escape(s[1..]));
      assert [s[0]] + s[1..] == s;
    }
  }

  // ---- when the decoded text is UTF-8 ----

  /** The body of a token as `readString` cuts it out: no quote but behind a backslash, no open escape. */
  predicate Closed(b: bytes) {
    if b == [] then true
    else if b[0] == BACKSLASH then |b| >= 2 && Closed(b[2..])
    else b[0] != QUOTE && Closed(b[1..])
  }

  /** Some `\u` escape that is not the second half of a pair names a low surrogate. */
  predicate LoneLowSurrogate(b: bytes)
    decreases |b|
  {
    if b == [] || b[0] == QUOTE then false
    else if b[0] != BACKSLASH then LoneLowSurrogate(b[1..])
    else if |b| == 1 then false
    else if b[1] == LETTER_U then
      var u := DecodeCodePoint(b[2..]);
      u.Unit? && (0xDC00 <= u.cp <= 0xDFFF || LoneLowSurrogate(b[2 + u.used..]))
    else LoneLowSurrogate(b[2..])
  }

  lemma {:induction false} StateIgnoresCodepoint(d: Dfa, e: Dfa, s: bytes)
    requires Live(d) && Live(e) && d.state == e.state
    ensures Run(d, s).state == Run(e, s).state
    decreases s
  {
    if s != [] {
      StateIgnoresCodepoint(Step(d, s[0]), Step(e, s[0]), s[1..]);
    }
  }

  lemma {:induction false} AsciiRun(d: Dfa, a: bytes)
    requires Live(d) && forall i | 0 <= i < |a| :: a[i] <= 0x7F
    ensures Run(d, a).state == if d.state == ACCEPT || a == [] then d.state else REJECT
    decreases a
  {
    if a != [] {
      AsciiRun(Step(d, a[0]), a[1..]);
    }
  }

  lemma {:induction false} ClosedAfterPlain(b: bytes, n: nat)
    requires Closed(b) && n <= |b| && forall i | 0 <= i < n :: b[i] != BACKSLASH
    ensures Closed(b[n..])
  {
    if n > 0 {
      ClosedAfterPlain(b[1..], n - 1);
      assert b[1..][n - 1..] == b[n..];
    } else {
      assert b[0..] == b;
    }
  }

  /** The digits of an escape are ASCII and stand outside any other escape. */
  lemma CodePointSpan(b: bytes)
    requires Closed(b) && DecodeCodePoint(b).Unit?
    ensures var u := DecodeCodePoint(b);
            && 4 <= u.used <= |b| && Closed(b[u.used..])
            && (forall i | 0 <= i < u.used :: b[i] <= 0x7F)
            && (0xDC00 <= u.cp <= 0xDFFF || IsScalar(u.cp))
  {
    hide DecodeUnit;
    UnitSpan(b);
    ClosedAfterPlain(b, 4);
    var u := DecodeCodePoint(b);
    if u.used == 10 {
      assert b[4..][2..] == b[6..];
      UnitSpan(b[6..]);
      ClosedAfterPlain(b[6..], 4);
      assert b[6..][4..] == b[10..];
      assert forall i | 6 <= i < 10 :: b[i] == b[6..][i - 6];
    }
  }

  lemma UnitSpan(b: bytes)
    requires DecodeUnit(b).Unit?
    ensures |b| >= 4 && DecodeUnit(b).used == 4 && DecodeUnit(b).cp <= 0xFFFF
    ensures forall i | 0 <= i < 4 :: b[i] <= 0x7F && b[i] != BACKSLASH
  {
  }

  lemma LowSurrogateRejected(d: Dfa, cp: nat)
    requires Live(d) && 0xDC00 <= cp <= 0xDFFF
    ensures Run(d, CodePointToUtf8(cp)).state == REJECT
  {
    var c := CodePointToUtf8(cp);
    SixBitGroups(cp);
    assert c[0] == 0xED && c[1] >= 0xB0;
    RunPrefix(d, c, 0);
    RunPrefix(d, c, 1);
    RejectAbsorbs(Run(d, c[..2]), c[2..]);
  }

  lemma LeadRejectedInside(d: Dfa, c: bytes)
    requires Live(d) && d.state != ACCEPT && c != [] && !Tail(c[0])
    ensures Run(d, c).state == REJECT
  {
    RejectAbsorbs(Step(d, c[0]), c[1..]);
  }

  /** Reading the escape text or the octets it stands for moves the automaton to the same state. */
  lemma EscapeMoves(d: Dfa, esc: bytes, c: bytes, cp: nat)
    requires Live(d) && esc != [] && forall i | 0 <= i < |esc| :: esc[i] <= 0x7F
    requires IsScalar(cp) && c == CodePointToUtf8(cp)
    ensures Run(d, esc).state == Run(d, c).state
  {
    hide CodePointToUtf8, Scalar, Run;
    AsciiRun(d, esc);
    EncodedIsChar(cp);
    if d.state == ACCEPT {
      CharRun(d, c);
    } else {
      LeadRejectedInside(d, c);
    }
  }

  lemma UnescapeAscii(e: byte)
    requires Unescape(e) >= 0
    ensures e <= 0x7F && Unescape(e) <= 0x7F && CodePointToUtf8(Unescape(e)) == [Unescape(e)]
  {
  }

  lemma {:induction false} DecodedRun(d: Dfa, b: bytes)
    requires Live(d) && Closed(b) && DecodeBody(b).Text?
    ensures Run(d, DecodeBody(b).text).state == ACCEPT <==> Run(d, b).state == ACCEPT && !LoneLowSurrogate(b)
    decreases |b|
  {
    hide DecodeCodePoint, Unescape, CodePointToUtf8, Step;
    if b != [] {
      if b[0] != BACKSLASH {
        DecodedRun(Step(d, b[0]), b[1..]);
        assert DecodeBody(b).text[1..] == DecodeBody(b[1..]).text;
      } else if b[1] == LETTER_U {
        CodePointSpan(b[2..]);
        var u := DecodeCodePoint(b[2..]);
        assert b[2..][u.used..] == b[2 + u.used..];
        var n := 2 + u.used;
        assert forall i | 2 <= i < n :: b[i] == b[2..][i - 2];
        DecodedStep(d, b, n, u.cp);
      } else {
        assert b[1] <= 0x7F && CodePointToUtf8(Unescape(b[1])) == [Unescape(b[1])] && IsScalar(Unescape(b[1])) by {
          UnescapeAscii(b[1]);
        }
        DecodedStep(d, b, 2, Unescape(b[1]));
      }
    }
  }

  lemma {:induction false} DecodedStep(d: Dfa, b: bytes, n: nat, cp: nat)
    requires Live(d) && 2 <= n <= |b| && Closed(b[n..]) && forall i | 0 <= i < n :: b[i] <= 0x7F
    requires DecodeBody(b).Text? && DecodeBody(b) == Prepend(CodePointToUtf8(cp), DecodeBody(b[n..]))
    requires 0xDC00 <= cp <= 0xDFFF || IsScalar(cp)
    requires LoneLowSurrogate(b) <==> 0xDC00 <= cp <= 0xDFFF || LoneLowSurrogate(b[n..])
    ensures Run(d, DecodeBody(b).text).state == ACCEPT <==> Run(d, b).state == ACCEPT && !LoneLowSurrogate(b)
    decreases |b|, 0
  {
    var c, t := CodePointToUtf8(cp), DecodeBody(b[n..]).text;
    assert b == b[..n] + b[n..];
    RunConcat(d, b[..n], b[n..]);
    RunConcat(d, c, t);
    if IsScalar(cp) {
      EscapeMoves(d, b[..n], c, cp);
      DecodedRun(Run(d, b[..n]), b[n..]);
      StateIgnoresCodepoint(Run(d, b[..n]), Run(d, c), t);
    } else {
      LowSurrogateRejected(d, cp);
      RejectAbsorbs(Run(d, c), t);
    }
  }

  /**
    * A string token decodes to well-formed UTF-8 exactly when its own octets are well-formed and
    * it has no lone low surrogate escape. (A high surrogate followed by an escape that is not a
    * low surrogate still decodes to some supplementary character.)
    */
  lemma DecodedIsUtf8Exactly(b: bytes)
    requires Closed(b) && DecodeBody(b).Text?
    ensures WellFormedUtf8(DecodeBody(b).text) <==> WellFormedUtf8(b) && !LoneLowSurrogate(b)
  {
    DecodedRun(START, b);
    AcceptsExactly(START, b);
    AcceptsExactly(START, DecodeBody(b).text);
  }

  /** The escape `\uDC00` alone decodes, and not to UTF-8. */
  lemma LowSurrogateAlone()
    ensures var b := [BACKSLASH, LETTER_U, 0x44, 0x43, 0x30, 0x30];
            Closed(b) && DecodeBody(b).Text? && !WellFormedUtf8(DecodeBody(b).text)
  {
    hide WellFormedUtf8, CodePointToUtf8;
    var b := [BACKSLASH, LETTER_U, 0x44, 0x43, 0x30, 0x30];
    assert b[2..] == [0x44, 0x43, 0x30, 0x30] && b[6..] == [];
    assert DecodeCodePoint(b[2..]) == Unit(0xDC00, 4);
    AllOrdinary(b[2..]);
    DecodedIsUtf8Exactly(b);
  }

  lemma {:induction false} AllOrdinary(b: bytes)
    requires QUOTE !in b && BACKSLASH !in b
    ensures Closed(b)
  {
    if b != [] {
      AllOrdinary(b[1..]);
    }
  }
}
