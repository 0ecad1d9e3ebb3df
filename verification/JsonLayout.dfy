/** Texts that lay out given lexemes between white space, and what they tokenise to. */
module JsonLayout {
  import opened Bytes
  import opened JsonValue
  import opened JsonMap
  import opened JsonNumber
  import opened JsonString
  import opened JsonToken
  import opened JsonWriter
  import opened JsonRoundTrip

  datatype Lexeme = Punct(c: byte) | Num(n: int) | Str(s: bytes) | NullWord | TrueWord | FalseWord

  function Spell(l: Lexeme): bytes {
    match l
    case Punct(c) => [c]
    case Num(n) => IntText(n)
    case Str(s) => Quote(s)
    case NullWord => NULL_TEXT
    case TrueWord => TRUE_TEXT
    case FalseWord => FALSE_TEXT
  }

  function KindOf(l: Lexeme): Kind {
    match l
    case Punct(c) => Punctuation(c)
    case Num(_) => NumberToken
    case Str(_) => StringToken
    case NullWord => NullToken
    case TrueWord => TrueToken
    case FalseWord => FalseToken
  }

  predicate Proper(l: Lexeme) {
    l.Punct? ==> Punctuation(l.c) != ErrorToken
  }

  /** A token as the reader reports it: what it is and how it is written. */
  datatype Spelling = Spelling(kind: Kind, text: bytes)

  function Spelled(ls: seq<Lexeme>): seq<Spelling> {
    seq(|ls|, i requires 0 <= i < |ls| => Spelling(KindOf(ls[i]), Spell(ls[i])))
  }

  /** Every token from `p` to the end of the stream. */
  function Tokens(text: bytes, p: nat): seq<Spelling>
    requires p <= |text|
    decreases |text| - p
  {
    var t := ReadToken(text, p);
    if t.kind == EndOfStream then [] else [Spelling(t.kind, TokenText(text, t))] + Tokens(text, t.end)
  }

  // ---- layouts ----

  function Trim(t: bytes): bytes {
    if t != [] && IsSpace(t[0]) then Trim(t[1..]) else t
  }

  predicate AllSpace(t: bytes) {
    forall i | 0 <= i < |t| :: IsSpace(t[i])
  }

  predicate NumberChar(c: byte) {
    IsDigit(c) || c == 0x2E || c == 0x65 || c == 0x45
  }

  /** Nothing at the start of `t` could prolong a number just before it. */
  predicate StartsClean(t: bytes) {
    t == [] || !NumberChar(t[0])
  }

  /** `t` does not end inside a number. */
  predicate EndsClean(t: bytes) {
    t == [] || !IsDigit(t[|t| - 1])
  }

  /** `t` is the lexemes `ls` in order, with white space around and between them. */
  predicate Laid(t: bytes, ls: seq<Lexeme>)
    decreases ls
  {
    var s := Trim(t);
    if ls == [] then s == []
    else
      var w := Spell(ls[0]);
      && Proper(ls[0]) && w <= s
      && (ls[0].Num? ==> StartsClean(s[|w|..]))
      && Laid(s[|w|..], ls[1..])
  }

  lemma SpellStarts(l: Lexeme)
    requires Proper(l)
    ensures Spell(l) != [] && !IsSpace(Spell(l)[0])
    ensures l.Num? ==> IsDigit(Spell(l)[|Spell(l)| - 1])
  {
    if l.Num? {
      IntTextShape(l.n);
      DigitsDenote(if l.n < 0 then -l.n else l.n);
    }
  }

  lemma {:induction false} TrimSpaces(t: bytes, u: bytes)
    requires AllSpace(t)
    ensures Trim(t + u) == Trim(u)
  {
    if t == [] {
      assert t + u == u;
    } else {
      assert (t + u)[1..] == t[1..] + u;
      TrimSpaces(t[1..], u);
    }
  }

  lemma {:induction false} TrimConcat(t: bytes, u: bytes)
    ensures Trim(t) == [] ==> AllSpace(t)
    ensures Trim(t) != [] ==> Trim(t + u) == Trim(t) + u && !IsSpace(Trim(t)[0])
    ensures |Trim(t)| <= |t| && Trim(t) == t[|t| - |Trim(t)|..]
  {
    if t != [] && IsSpace(t[0]) {
      assert (t + u)[1..] == t[1..] + u;
      TrimConcat(t[1..], u);
      assert t == [t[0]] + t[1..];
    } else if t != [] {
      assert (t + u)[0] == t[0];
    }
  }

  lemma LaidCons(t: bytes, l: Lexeme, rest: bytes, ls: seq<Lexeme>)
    requires Proper(l) && Trim(t) == Spell(l) + rest && (l.Num? ==> StartsClean(rest)) && Laid(rest, ls)
    ensures Laid(t, [l] + ls)
  {
    hide Trim, Spell;
    assert ([l] + ls)[1..] == ls;
    assert Trim(t)[|Spell(l)|..] == rest;
  }

  lemma LaidHead(t: bytes, ls: seq<Lexeme>) returns (rest: bytes)
    requires ls != [] && Laid(t, ls)
    ensures Proper(ls[0]) && Trim(t) == Spell(ls[0]) + rest && (ls[0].Num? ==> StartsClean(rest)) && Laid(rest, ls[1..])
  {
    hide Trim, Spell;
    rest := Trim(t)[|Spell(ls[0])|..];
  }

  lemma {:induction false} LaidAppend(a: bytes, x: seq<Lexeme>, b: bytes, y: seq<Lexeme>)
    requires Laid(a, x) && Laid(b, y)
    requires EndsClean(a) || StartsClean(b)
    ensures Laid(a + b, x + y)
    decreases x
  {
    hide Laid, Spell, Trim;
    TrimConcat(a, b);
    if x == [] {
      NothingLaid(a);
      TrimSpaces(a, b);
      assert x + y == y;
      LaidTrims(a + b, b, y);
    } else {
      var l := x[0];
      var rest := LaidHead(a, x);
      SpellStarts(l);
      assert rest != [] ==> rest[|rest| - 1] == a[|a| - 1];
      assert rest == [] ==> Spell(l)[|Spell(l)| - 1] == Trim(a)[|Trim(a)| - 1] == a[|a| - 1];
      LaidAppend(rest, x[1..], b, y);
      assert Trim(a + b) == Spell(l) + (rest + b);
      LaidCons(a + b, l, rest + b, x[1..] + y);
      assert [l] + (x[1..] + y) == x + y;
    }
  }

  lemma NothingLaid(t: bytes)
    requires Laid(t, [])
    ensures Trim(t) == []
  {
  }

  /** A layout depends on the text only past its leading white space. */
  lemma LaidTrims(t: bytes, u: bytes, ls: seq<Lexeme>)
    requires Trim(t) == Trim(u) && Laid(u, ls)
    ensures Laid(t, ls)
  {
  }

  lemma LaidSpaces(t: bytes)
    requires AllSpace(t)
    ensures Laid(t, [])
  {
    TrimSpaces(t, []);
    assert t + [] == t;
  }

  lemma LaidLexeme(l: Lexeme)
    requires Proper(l)
    ensures Laid(Spell(l), [l])
  {
    hide Spell;
    SpellStarts(l);
    assert Spell(l)[|Spell(l)|..] == [];
    assert Laid([], []);
  }

  // ---- layouts tokenise to their lexemes ----

  lemma {:induction false} SkipIsTrim(text: bytes, p: nat)
    requires p <= |text|
    ensures text[SkipSpaces(text, p)..] == Trim(text[p..])
    ensures SkipSpaces(text, SkipSpaces(text, p)) == SkipSpaces(text, p)
    decreases |text| - p
  {
    if p < |text| && IsSpace(text[p]) {
      SkipIsTrim(text, p + 1);
      assert text[p..][1..] == text[p + 1..];
    }
  }

  lemma ReadTokenSkips(text: bytes, p: nat)
    requires p <= |text|
    ensures ReadToken(text, p) == ReadToken(text, SkipSpaces(text, p))
  {
    hide ScanString, ScanComment, ScanNumber, ScanWord;
    SkipIsTrim(text, p);
  }

  lemma LexLexeme(text: bytes, p: nat, l: Lexeme)
    requires Proper(l) && Has(text, p, Spell(l)) && (l.Num? ==> Delimited(text, p + |Spell(l)|))
    ensures ReadToken(text, p) == Token(KindOf(l), p, p + |Spell(l)|)
  {
    hide ReadToken, Quote, IntText;
    match l
    case Punct(c) => LexPunctuation(text, p, c);
    case Num(n) => LexInteger(text, p, n);
    case Str(s) => LexString(text, p, s);
    case _ => LexWords(text, p);
  }

  lemma {:induction false} LaidTokens(text: bytes, p: nat, ls: seq<Lexeme>)
    requires p <= |text| && Laid(text[p..], ls)
    ensures Tokens(text, p) == Spelled(ls)
    decreases ls
  {
    hide ReadToken, Spell, Trim, SkipSpaces;
    var s := SkipSpaces(text, p);
    SkipIsTrim(text, p);
    ReadTokenSkips(text, p);
    if ls == [] {
      assert s == |text|;
      EndToken(text);
    } else {
      var w := Spell(ls[0]);
      SpellStarts(ls[0]);
      assert Has(text, s, w);
      assert text[s..][|w|..] == text[s + |w|..];
      if ls[0].Num? && s + |w| < |text| {
        assert text[s + |w|..][0] == text[s + |w|];
      }
      LexLexeme(text, s, ls[0]);
      LaidTokens(text, s + |w|, ls[1..]);
      KindNotEnd(ls[0]);
      assert Spelled(ls) == [Spelling(KindOf(ls[0]), w)] + Spelled(ls[1..]);
    }
  }

  lemma EndToken(text: bytes)
    ensures ReadToken(text, |text|).kind == EndOfStream
  {
  }

  lemma KindNotEnd(l: Lexeme)
    requires Proper(l)
    ensures KindOf(l) != EndOfStream
  {
  }

  // ---- the lexemes of a value ----

  /** Member names as the two writers print them: whole, or up to the first NUL. */
  function Printed(name: bytes, cut: bool): bytes {
    if cut then UpToNul(name) else name
  }

  function Lexemes(v: Value, cut: bool): seq<Lexeme>
    decreases v, 0
  {
    match v
    case Null => [NullWord]
    case Int(i) => [Num(i)]
    case UInt(u) => [Num(u)]
    case Real(_) => []
    case String(s) => [Str(s)]
    case Bool(b) => [if b then TrueWord else FalseWord]
    case Array(es) => [Punct(LBRACKET)] + ElementsLexemes(es, 0, PrintedLength(es), cut) + [Punct(RBRACKET)]
    case Object(es) => [Punct(LBRACE)] + MembersLexemes(es, 0, cut) + [Punct(RBRACE)]
  }

  function Comma(i: nat): seq<Lexeme> {
    if i > 0 then [Punct(COMMA)] else []
  }

  function ElementLexemes(es: seq<Entry>, i: nat, cut: bool): seq<Lexeme>
    decreases es, 0
  {
    var p := LowerBound(es, Index(i));
    if p < |es| && es[p].key == Index(i) then
      assert (es decreases to es[p]);
      Lexemes(es[p].value, cut)
    else [NullWord]
  }

  function ElementsLexemes(es: seq<Entry>, i: nat, n: nat, cut: bool): seq<Lexeme>
    decreases es, 1, n - i
  {
    if i >= n then [] else Comma(i) + ElementLexemes(es, i, cut) + ElementsLexemes(es, i + 1, n, cut)
  }

  function MemberLexemes(e: Entry, cut: bool): seq<Lexeme>
    decreases e, 0
  {
    [Str(Printed(NameOf(e.key), cut)), Punct(COLON)] + Lexemes(e.value, cut)
  }

  function MembersLexemes(es: seq<Entry>, i: nat, cut: bool): seq<Lexeme>
    decreases es, 1, |es| - i
  {
    if i >= |es| then []
    else
      assert (es decreases to es[i]);
      Comma(i) + MemberLexemes(es[i], cut) + MembersLexemes(es, i + 1, cut)
  }
}
