/** What `FastWriter` and `StyledWriter` write are JSON texts of RFC 8259 for the value read back. */
module JsonTexts {
  import opened Bytes
  import opened JsonValue
  import opened JsonMap
  import opened JsonNumber
  import opened JsonString
  import opened JsonToken
  import opened JsonParse
  import opened JsonWriter
  import opened JsonRoundTrip
  import Layout = JsonLayout
  import Styled = JsonStyled
  import Rfc = Rfc8259
  import Reading = JsonRfc

  // ---- octets ----

  /** How the writers write one octet. */
  function CharOf(c: byte): Rfc.Char {
    match c
    case 0x22 => Rfc.Short(0x22)
    case 0x5C => Rfc.Short(0x5C)
    case 0x08 => Rfc.Short(0x62)
    case 0x0C => Rfc.Short(0x66)
    case 0x0A => Rfc.Short(0x6E)
    case 0x0D => Rfc.Short(0x72)
    case 0x09 => Rfc.Short(0x74)
    case _ => if c < 0x20 then Rfc.Hex([0x30, 0x30, UpperHex(c / 16), UpperHex(c % 16)]) else Rfc.Raw(c)
  }

  /** "0123456789ABCDEF" */
  function UpperHex(n: nat): byte
    requires n < 16
  {
    [0x30, 0x31, 0x32, 0x33, 0x34, 0x35, 0x36, 0x37, 0x38, 0x39, 0x41, 0x42, 0x43, 0x44, 0x45, 0x46][n]
  }

  lemma UpperHexIs(n: nat)
    requires n < 16
    ensures UpperHex(n) == HexDigit(n) && Rfc.IsHexDigit(UpperHex(n)) && Rfc.HexOf(UpperHex(n)) == n
  {
  }

  /** Quotes, backslashes and control characters are escaped, by a letter where there is one; no other octet is. */
  lemma OctetWritten(c: byte)
    ensures Rfc.ValidChar(CharOf(c)) && Rfc.CharText(CharOf(c)) == EscapeByte(c) && Rfc.CharOctets(CharOf(c)) == [c]
  {
    hide Rfc.Hex4, UpperHex, HexDigit;
    if CharOf(c).Hex? {
      ControlWritten(c);
    }
  }

  lemma ControlWritten(c: byte)
    requires c < 0x20
    ensures var d := [0x30, 0x30, UpperHex(c / 16), UpperHex(c % 16)];
            && d == [0x30, 0x30, HexDigit(c / 16), HexDigit(c % 16)] && Rfc.IsHex4(d) && Rfc.Hex4(d) == c
            && CodePointToUtf8(c) == [c]
  {
    hide UpperHex, HexDigit;
    UpperHexIs(c / 16);
    UpperHexIs(c % 16);
  }

  function CharsOf(s: bytes): (cs: seq<Rfc.Char>)
    ensures |cs| == |s| && forall i | 0 <= i < |s| :: cs[i] == CharOf(s[i])
  {
    seq(|s|, i requires 0 <= i < |s| => CharOf(s[i]))
  }

  lemma {:induction false} StringWritten(s: bytes)
    ensures Rfc.ValidString(CharsOf(s)) && Rfc.StringText(CharsOf(s)) == Escape(s) && Rfc.StringOctets(CharsOf(s)) == s
  {
    hide CharOf, EscapeByte, Rfc.CharText, Rfc.CharOctets, Rfc.ValidChar;
    forall i | 0 <= i < |s| ensures Rfc.ValidChar(CharsOf(s)[i]) {
      OctetWritten(s[i]);
    }
    if s != [] {
      OctetWritten(s[0]);
      assert CharsOf(s)[1..] == CharsOf(s[1..]);
      StringWritten(s[1..]);
    }
  }

  // ---- integers ----

  function NumeralOf(n: int): Rfc.Numeral {
    Rfc.Numeral(n < 0, Digits(if n < 0 then -n else n), [], Rfc.NoExpo)
  }

  lemma {:induction false} NoLeadingZero(n: nat)
    ensures |Digits(n)| > 1 ==> Digits(n)[0] != 0x30
    ensures n > 0 ==> Digits(n)[0] != 0x30
  {
    if n >= 10 {
      NoLeadingZero(n / 10);
      DigitsDenote(n / 10);
    }
  }

  lemma IntegerWritten(n: int, scan: bytes -> Option<real>)
    requires -TWO63 <= n < TWO64
    ensures Rfc.ValidNumeral(NumeralOf(n)) && Rfc.NumeralText(NumeralOf(n)) == IntText(n)
    ensures Rfc.NumeralValue(NumeralOf(n), scan) == Some(Retag(n))
  {
    hide Digits, Rfc.Decimal;
    var m := if n < 0 then -n else n;
    DigitsDenote(m);
    NoLeadingZero(m);
    assert Rfc.AreDigits(Digits(m)) by { DigitsAre(Digits(m)); }
    Reading.DecimalIsNumber(Digits(m));
  }

  lemma DigitsAre(ds: bytes)
    ensures AllDigits(ds) <==> Rfc.AreDigits(ds)
  {
  }

  // ---- tokens ----

  function TokOf(l: Layout.Lexeme): Rfc.Tok {
    match l
    case Punct(c) => Rfc.Mark(c)
    case Num(n) => Rfc.NumTok(NumeralOf(n))
    case Str(s) => Rfc.StrTok(CharsOf(s))
    case NullWord => Rfc.NullTok
    case TrueWord => Rfc.TrueTok
    case FalseWord => Rfc.FalseTok
  }

  function ToksOf(ls: seq<Layout.Lexeme>): seq<Rfc.Tok> {
    seq(|ls|, i requires 0 <= i < |ls| => TokOf(ls[i]))
  }

  lemma ToksOfConcat(a: seq<Layout.Lexeme>, b: seq<Layout.Lexeme>)
    ensures ToksOf(a + b) == ToksOf(a) + ToksOf(b)
  {
  }

  lemma {:induction false} TokSpelled(l: Layout.Lexeme)
    ensures Rfc.TokText(TokOf(l)) == Layout.Spell(l)
  {
    hide Digits, Escape, Rfc.StringText, CharsOf, NumeralOf, Rfc.NumeralText;
    match l
    case Num(n) => IntText0(n);
    case Str(s) => StringWritten(s);
    case _ =>
  }

  lemma IntText0(n: int)
    ensures Rfc.NumeralText(NumeralOf(n)) == IntText(n)
  {
    hide Digits;
  }

  lemma {:induction false} LaidIsSpaced(t: bytes, ls: seq<Layout.Lexeme>)
    requires Layout.Laid(t, ls)
    ensures Rfc.Spaced(t, ToksOf(ls))
    decreases ls
  {
    hide Layout.Spell, Rfc.TokText, TokOf, Layout.Trim, Rfc.Strip, Layout.StartsClean, Layout.Proper;
    Reading.StripIsTrim(t);
    if ls != [] {
      var w := Layout.Spell(ls[0]);
      TokSpelled(ls[0]);
      LaidIsSpaced(Layout.Trim(t)[|w|..], ls[1..]);
      assert ToksOf(ls)[1..] == ToksOf(ls[1..]);
    }
  }

  // ---- trees ----

  /** The document a writer writes for `v`; `cut` when names are cut at NUL. */
  function Tree(v: Value, cut: bool): Rfc.Json
    decreases v, 0
  {
    match v
    case Null => Rfc.JsonNull
    case Int(i) => Rfc.JsonNumber(NumeralOf(i))
    case UInt(u) => Rfc.JsonNumber(NumeralOf(u))
    case Real(_) => Rfc.JsonNull
    case String(s) => Rfc.JsonString(CharsOf(s))
    case Bool(b) => if b then Rfc.JsonTrue else Rfc.JsonFalse
    case Array(es) => Rfc.JsonArray(TreeElements(es, 0, PrintedLength(es), cut))
    case Object(es) => Rfc.JsonObject(TreeMembers(es, 0, cut))
  }

  function TreeElement(es: seq<Entry>, i: nat, cut: bool): Rfc.Json
    decreases es, 0
  {
    var p := LowerBound(es, Index(i));
    if p < |es| && es[p].key == Index(i) then
      assert (es decreases to es[p]);
      Tree(es[p].value, cut)
    else Rfc.JsonNull
  }

  function TreeElements(es: seq<Entry>, i: nat, n: nat, cut: bool): seq<Rfc.Json>
    decreases es, 1, n - i
  {
    if i >= n then [] else [TreeElement(es, i, cut)] + TreeElements(es, i + 1, n, cut)
  }

  function TreeMembers(es: seq<Entry>, i: nat, cut: bool): seq<Rfc.Member>
    decreases es, 1, |es| - i
  {
    if i >= |es| then []
    else
      assert (es decreases to es[i]);
      [Rfc.Member(CharsOf(Layout.Printed(NameOf(es[i].key), cut)), Tree(es[i].value, cut))] + TreeMembers(es, i + 1, cut)
  }

  lemma {:induction false} TreeElementsAt(es: seq<Entry>, i: nat, n: nat, cut: bool)
    requires i <= n
    ensures |TreeElements(es, i, n, cut)| == n - i
    ensures forall k | 0 <= k < n - i :: TreeElements(es, i, n, cut)[k] == TreeElement(es, i + k, cut)
    decreases n - i
  {
    hide TreeElement;
    if i < n {
      TreeElementsAt(es, i + 1, n, cut);
      var x, y := TreeElements(es, i, n, cut), TreeElements(es, i + 1, n, cut);
      forall k | 0 <= k < n - i ensures x[k] == TreeElement(es, i + k, cut) {
        if k > 0 {
          assert x[k] == y[k - 1];
        }
      }
    }
  }

  lemma {:induction false} TreeMembersAt(es: seq<Entry>, i: nat, cut: bool)
    requires i <= |es|
    ensures |TreeMembers(es, i, cut)| == |es| - i
    ensures forall k | 0 <= k < |es| - i ::
              TreeMembers(es, i, cut)[k] ==
              Rfc.Member(CharsOf(Layout.Printed(NameOf(es[i + k].key), cut)), Tree(es[i + k].value, cut))
    decreases |es| - i
  {
    hide Tree, CharsOf, Layout.Printed;
    if i < |es| {
      TreeMembersAt(es, i + 1, cut);
      var x, y := TreeMembers(es, i, cut), TreeMembers(es, i + 1, cut);
      forall k | 0 <= k < |es| - i
        ensures x[k] == Rfc.Member(CharsOf(Layout.Printed(NameOf(es[i + k].key), cut)), Tree(es[i + k].value, cut))
      {
        if k > 0 {
          assert x[k] == y[k - 1];
        }
      }
    }
  }

  // ---- the tokens of the tree are those written ----

  lemma {:induction false} TreeToks(v: Value, cut: bool)
    requires RealFree(v)
    ensures Rfc.Toks(Tree(v, cut)) == ToksOf(Layout.Lexemes(v, cut))
    decreases v, 2
  {
    hide ToksOf, TreeElements, TreeMembers, Layout.ElementsLexemes, Layout.MembersLexemes, Rfc.ItemsToks, Rfc.MembersToks, PrintedLength;
    match v
    case Array(es) =>
      var n := PrintedLength(es);
      ElementsToks(es, 0, n, cut);
      Between(Layout.Punct(LBRACKET), Layout.ElementsLexemes(es, 0, n, cut), Layout.Punct(RBRACKET));
    case Object(es) =>
      MembersToks(es, 0, cut);
      Between(Layout.Punct(LBRACE), Layout.MembersLexemes(es, 0, cut), Layout.Punct(RBRACE));
    case _ => OneTok(Layout.Lexemes(v, cut));
  }

  lemma OneTok(ls: seq<Layout.Lexeme>)
    ensures |ls| == 1 ==> ToksOf(ls) == [TokOf(ls[0])]
  {
    hide TokOf;
  }

  lemma Between(open: Layout.Lexeme, ls: seq<Layout.Lexeme>, close: Layout.Lexeme)
    ensures ToksOf([open] + ls + [close]) == [TokOf(open)] + (ToksOf(ls) + [TokOf(close)])
  {
    hide TokOf, ToksOf;
    ToksOfConcat([open] + ls, [close]);
    ToksOfConcat([open], ls);
    OneTok([open]);
    OneTok([close]);
  }

  lemma {:induction false} ElementsToks(es: seq<Entry>, i: nat, n: nat, cut: bool)
    requires RealFree(Array(es)) && i <= n
    ensures Rfc.ItemsToks(TreeElements(es, 0, n, cut), i) == ToksOf(Layout.ElementsLexemes(es, i, n, cut))
    decreases es, 1, n - i
  {
    hide ToksOf, TreeElement, TreeElements, Rfc.Toks, Rfc.ItemsToks, Layout.ElementLexemes;
    var items := TreeElements(es, 0, n, cut);
    TreeElementsAt(es, 0, n, cut);
    Reading.ItemsToksStep(items, i);
    if i < n {
      assert items[i] == TreeElement(es, 0 + i, cut);
      ElementToks(es, i, cut);
      ElementsToks(es, i + 1, n, cut);
      var comma, one, more := Layout.Comma(i), Layout.ElementLexemes(es, i, cut), Layout.ElementsLexemes(es, i + 1, n, cut);
      ToksOfConcat(comma + one, more);
      ToksOfConcat(comma, one);
      CommaToks(i);
    } else {
      NoToks();
    }
  }

  lemma CommaToks(i: nat)
    ensures ToksOf(Layout.Comma(i)) == Rfc.CommaTok(i)
  {
  }

  lemma NoToks()
    ensures ToksOf([]) == []
  {
  }

  lemma {:induction false} ElementToks(es: seq<Entry>, i: nat, cut: bool)
    requires RealFree(Array(es))
    ensures Rfc.Toks(TreeElement(es, i, cut)) == ToksOf(Layout.ElementLexemes(es, i, cut))
    decreases es, 0
  {
    hide LowerBound, Tree, Layout.Lexemes;
    var p := LowerBound(es, Index(i));
    if p < |es| && es[p].key == Index(i) {
      assert (es decreases to es[p]);
      TreeToks(es[p].value, cut);
    }
  }

  lemma {:induction false} MembersToks(es: seq<Entry>, i: nat, cut: bool)
    requires RealFree(Object(es)) && i <= |es|
    ensures Rfc.MembersToks(TreeMembers(es, 0, cut), i) == ToksOf(Layout.MembersLexemes(es, i, cut))
    decreases es, 1, |es| - i
  {
    hide ToksOf, Tree, TreeMembers, Rfc.Toks, Rfc.MembersToks, Layout.MemberLexemes, CharsOf, Layout.Printed;
    var ms := TreeMembers(es, 0, cut);
    TreeMembersAt(es, 0, cut);
    Reading.MembersToksStep(ms, i);
    if i < |es| {
      assert ms[i] == Rfc.Member(CharsOf(Layout.Printed(NameOf(es[0 + i].key), cut)), Tree(es[0 + i].value, cut));
      assert (es decreases to es[i]);
      TreeToks(es[i].value, cut);
      MembersToks(es, i + 1, cut);
      MemberToks(es[i], cut);
      var comma, one, more := Layout.Comma(i), Layout.MemberLexemes(es[i], cut), Layout.MembersLexemes(es, i + 1, cut);
      ToksOfConcat(comma + one, more);
      ToksOfConcat(comma, one);
      CommaToks(i);
    } else {
      NoToks();
    }
  }

  lemma MemberToks(e: Entry, cut: bool)
    ensures ToksOf(Layout.MemberLexemes(e, cut)) ==
            [Rfc.StrTok(CharsOf(Layout.Printed(NameOf(e.key), cut))), Rfc.Mark(COLON)] + ToksOf(Layout.Lexemes(e.value, cut))
  {
    hide ToksOf, Layout.Lexemes, CharsOf, Layout.Printed;
    var name, colon := Layout.Str(Layout.Printed(NameOf(e.key), cut)), Layout.Punct(COLON);
    ToksOfConcat([name, colon], Layout.Lexemes(e.value, cut));
    assert [name, colon] == [name] + [colon];
    ToksOfConcat([name], [colon]);
    OneTok([name]);
    OneTok([colon]);
  }

  // ---- and it denotes what is read back ----

  lemma {:induction false} TreeValid(v: Value, cut: bool, scan: bytes -> Option<real>)
    requires WellFormed(v) && RealFree(v)
    ensures Rfc.Valid(Tree(v, cut), scan)
    decreases v, 2
  {
    hide TreeElements, TreeMembers, NumeralOf, CharsOf, Rfc.ValidNumeral, Rfc.NumeralValue, Rfc.ValidString, PrintedLength, Layout.Printed;
    match v
    case Int(i) => IntegerWritten(i, scan);
    case UInt(u) => IntegerWritten(u, scan);
    case String(s) => StringWritten(s);
    case Array(es) =>
      var n := PrintedLength(es);
      TreeElementsAt(es, 0, n, cut);
      forall k | 0 <= k < n ensures Rfc.Valid(TreeElements(es, 0, n, cut)[k], scan) {
        ElementValid(es, 0 + k, cut, scan);
      }
    case Object(es) =>
      TreeMembersAt(es, 0, cut);
      var ms := TreeMembers(es, 0, cut);
      forall k | 0 <= k < |es| ensures Rfc.ValidString(ms[k].name) && Rfc.Valid(ms[k].value, scan) {
        assert ms[k] == Rfc.Member(CharsOf(Layout.Printed(NameOf(es[0 + k].key), cut)), Tree(es[0 + k].value, cut));
        StringWritten(Layout.Printed(NameOf(es[k].key), cut));
        assert (es decreases to es[k]);
        TreeValid(es[k].value, cut, scan);
      }
    case _ =>
  }

  lemma {:induction false} ElementValid(es: seq<Entry>, i: nat, cut: bool, scan: bytes -> Option<real>)
    requires WellFormed(Array(es)) && RealFree(Array(es))
    ensures Rfc.Valid(TreeElement(es, i, cut), scan)
    decreases es, 0
  {
    hide LowerBound, Tree;
    var p := LowerBound(es, Index(i));
    if p < |es| && es[p].key == Index(i) {
      assert (es decreases to es[p]);
      TreeValid(es[p].value, cut, scan);
    }
  }

  lemma {:induction false} TreeMeaning(v: Value, scan: bytes -> Option<real>)
    requires WellFormed(v) && RealFree(v)
    ensures Rfc.Valid(Tree(v, false), scan) && Rfc.Meaning(Tree(v, false), scan) == Reread(v)
    decreases v, 2
  {
    hide TreeElements, TreeMembers, NumeralOf, CharsOf, Rfc.ValidNumeral, Rfc.NumeralValue, Rfc.ValidString, PrintedLength, RereadElements, RereadMembers, Rfc.ItemsMeaning, Rfc.MembersMeaning, Rfc.StringOctets;
    TreeValid(v, false, scan);
    match v
    case Int(i) => IntegerWritten(i, scan);
    case UInt(u) => IntegerWritten(u, scan);
    case String(s) => StringWritten(s);
    case Array(es) => ElementsMeaning(es, PrintedLength(es), PrintedLength(es), scan);
    case Object(es) =>
      TreeMembersAt(es, 0, false);
      MembersMeaning(es, |es|, scan);
    case _ =>
  }

  /** The first `k` of `n` elements. */
  lemma {:induction false} ElementsMeaning(es: seq<Entry>, k: nat, n: nat, scan: bytes -> Option<real>)
    requires WellFormed(Array(es)) && RealFree(Array(es)) && k <= n
    requires forall i | 0 <= i < |TreeElements(es, 0, n, false)| :: Rfc.Valid(TreeElements(es, 0, n, false)[i], scan)
    ensures |TreeElements(es, 0, n, false)| == n
    ensures Rfc.ItemsMeaning(TreeElements(es, 0, n, false), k, scan) == RereadElements(es, 0, k)
    decreases es, 1, k
  {
    hide Rfc.Valid, Rfc.Meaning, TreeElement, TreeElements, RereadElements, RereadElement;
    var items := TreeElements(es, 0, n, false);
    TreeElementsAt(es, 0, n, false);
    RereadElementsAt(es, 0, k);
    if k > 0 {
      ElementsMeaning(es, k - 1, n, scan);
      RereadElementsAt(es, 0, k - 1);
      assert items[k - 1] == TreeElement(es, 0 + (k - 1), false);
      ElementMeaning(es, k - 1, scan);
      var x, y := RereadElements(es, 0, k), RereadElements(es, 0, k - 1);
      forall j | 0 <= j < k ensures x[j] == (y + [Entry(Index(k - 1), RereadElement(es, k - 1))])[j] {
        assert x[j - 0] == Entry(Index(j), RereadElement(es, j));
        if j < k - 1 {
          assert y[j - 0] == Entry(Index(j), RereadElement(es, j));
        }
      }
    }
  }

  lemma {:induction false} ElementMeaning(es: seq<Entry>, i: nat, scan: bytes -> Option<real>)
    requires WellFormed(Array(es)) && RealFree(Array(es))
    ensures Rfc.Valid(TreeElement(es, i, false), scan) && Rfc.Meaning(TreeElement(es, i, false), scan) == RereadElement(es, i)
    decreases es, 0
  {
    hide LowerBound, Tree, Reread;
    var p := LowerBound(es, Index(i));
    if p < |es| && es[p].key == Index(i) {
      assert (es decreases to es[p]);
      TreeMeaning(es[p].value, scan);
    }
  }

  lemma PutNext(es: seq<Entry>, k: nat)
    requires WellFormed(Object(es)) && 0 < k <= |es|
    ensures |RereadMembers(es, 0)| == |es|
    ensures Put(RereadMembers(es, 0)[..k - 1], es[k - 1].key, Reread(es[k - 1].value)) == RereadMembers(es, 0)[..k]
  {
    hide RereadMembers, Reread, KeyLess, Put;
    var rs, e := RereadMembers(es, 0), es[k - 1];
    RereadMembersAt(es, 0);
    var front := rs[..k - 1];
    forall i | 0 <= i < k - 1 ensures KeyLess(front[i].key, e.key) {
      assert rs[i - 0] == Entry(es[i].key, Reread(es[i].value));
    }
    PutLast(front, e.key, Reread(e.value));
    assert rs[(k - 1) - 0] == Entry(e.key, Reread(e.value));
    assert rs[..k] == front + [rs[k - 1]];
  }

  lemma MemberFacts(es: seq<Entry>, k: nat)
    requires WellFormed(Object(es)) && RealFree(Object(es)) && k < |es|
    ensures WellFormed(es[k].value) && RealFree(es[k].value) && es[k].key == Name(NameOf(es[k].key))
  {
  }

  lemma {:induction false} MembersMeaning(es: seq<Entry>, k: nat, scan: bytes -> Option<real>)
    requires WellFormed(Object(es)) && RealFree(Object(es)) && k <= |es| == |TreeMembers(es, 0, false)|
    requires forall i | 0 <= i < |TreeMembers(es, 0, false)| ::
               Rfc.ValidString(TreeMembers(es, 0, false)[i].name) && Rfc.Valid(TreeMembers(es, 0, false)[i].value, scan)
    ensures |RereadMembers(es, 0)| == |es|
    ensures Rfc.MembersMeaning(TreeMembers(es, 0, false), k, scan) == RereadMembers(es, 0)[..k]
    decreases es, 1, k
  {
    hide Rfc.Valid, Rfc.Meaning, Rfc.ValidString, Rfc.StringOctets, Tree, TreeMembers, RereadMembers, Reread, CharsOf, Put, WellFormed, RealFree;
    TreeMembersAt(es, 0, false);
    RereadMembersAt(es, 0);
    if k > 0 {
      var ms, e := TreeMembers(es, 0, false), es[k - 1];
      MembersMeaning(es, k - 1, scan);
      assert ms[k - 1] == Rfc.Member(CharsOf(Layout.Printed(NameOf(es[0 + (k - 1)].key), false)), Tree(es[0 + (k - 1)].value, false));
      assert (es decreases to es[k - 1]);
      MemberFacts(es, k - 1);
      TreeMeaning(e.value, scan);
      StringWritten(NameOf(e.key));
      PutNext(es, k);
    }
  }

  // ---- the texts ----

  /** Octets of the tokens, with nothing between them. */
  function Written(ts: seq<Rfc.Tok>): bytes {
    if ts == [] then [] else Rfc.TokText(ts[0]) + Written(ts[1..])
  }

  /** `FastWriter` writes a JSON text for the value that is read back. */
  lemma FastIsText(v: Value, show: Show, scan: bytes -> Option<real>)
    requires WellFormed(v) && RealFree(v)
    ensures Rfc.IsText(FastText(v, show) + [NEWLINE], Tree(v, false), scan)
    ensures Rfc.Meaning(Tree(v, false), scan) == Reread(v)
  {
    hide FastText, Tree, Rfc.Toks, Rfc.Spaced, Rfc.Valid, Rfc.Meaning, Reread, Layout.Lexemes, Layout.Laid, ToksOf;
    var ls := Layout.Lexemes(v, false);
    Styled.FastLaid(v, show);
    Layout.LaidSpaces([NEWLINE]);
    Layout.LaidAppend(FastText(v, show), ls, [NEWLINE], []);
    assert ls + [] == ls;
    LaidIsSpaced(FastText(v, show) + [NEWLINE], ls);
    TreeToks(v, false);
    TreeMeaning(v, scan);
  }

  /** So does `StyledWriter`, for the value with its names cut, which is the same when none holds a NUL. */
  lemma StyledIsText(v: Value, styled: bytes, scan: bytes -> Option<real>)
    requires Styled.Printable(v) && Layout.Laid(styled, Layout.Lexemes(v, true))
    ensures Rfc.IsText(styled, Tree(v, true), scan)
    ensures Styled.NamesNulFree(v) ==> Rfc.Meaning(Tree(v, true), scan) == Reread(v)
  {
    hide Tree, Rfc.Toks, Rfc.Spaced, Rfc.Valid, Rfc.Meaning, Reread, Layout.Lexemes, Layout.Laid, ToksOf, Styled.NamesNulFree;
    LaidIsSpaced(styled, Layout.Lexemes(v, true));
    TreeToks(v, true);
    TreeValid(v, true, scan);
    if Styled.NamesNulFree(v) {
      TreeUncut(v);
      TreeMeaning(v, scan);
    }
  }

  lemma {:induction false} TreeUncut(v: Value)
    requires Styled.NamesNulFree(v)
    ensures Tree(v, true) == Tree(v, false)
    decreases v, 1
  {
    hide TreeElements, TreeMembers, CharsOf, PrintedLength, NumeralOf;
    match v
    case Array(es) =>
      var n := PrintedLength(es);
      TreeElementsAt(es, 0, n, true);
      TreeElementsAt(es, 0, n, false);
      var x, y := TreeElements(es, 0, n, true), TreeElements(es, 0, n, false);
      forall k | 0 <= k < n ensures x[k] == y[k] {
        assert x[k] == TreeElement(es, 0 + k, true) && y[k] == TreeElement(es, 0 + k, false);
        ElementUncut(es, k);
      }
      assert x == y;
    case Object(es) =>
      TreeMembersAt(es, 0, true);
      TreeMembersAt(es, 0, false);
      var x, y := TreeMembers(es, 0, true), TreeMembers(es, 0, false);
      forall k | 0 <= k < |es| ensures x[k] == y[k] {
        assert x[k] == Rfc.Member(CharsOf(Layout.Printed(NameOf(es[0 + k].key), true)), Tree(es[0 + k].value, true));
        assert y[k] == Rfc.Member(CharsOf(Layout.Printed(NameOf(es[0 + k].key), false)), Tree(es[0 + k].value, false));
        UpToNulWhole(NameOf(es[k].key));
        assert (es decreases to es[k]);
        TreeUncut(es[k].value);
      }
      assert x == y;
    case _ =>
  }

  lemma {:induction false} ElementUncut(es: seq<Entry>, i: nat)
    requires Styled.NamesNulFree(Array(es))
    ensures TreeElement(es, i, true) == TreeElement(es, i, false)
    decreases es, 0
  {
    hide LowerBound, Tree;
    var p := LowerBound(es, Index(i));
    if p < |es| && es[p].key == Index(i) {
      assert (es decreases to es[p]);
      TreeUncut(es[p].value);
    }
  }

  // ---- nothing between the tokens ----

  function Flat(ls: seq<Layout.Lexeme>): bytes {
    if ls == [] then [] else Layout.Spell(ls[0]) + Flat(ls[1..])
  }

  lemma {:induction false} FlatConcat(a: seq<Layout.Lexeme>, b: seq<Layout.Lexeme>)
    ensures Flat(a + b) == Flat(a) + Flat(b)
    decreases a
  {
    hide Layout.Spell;
    if a == [] {
      assert a + b == b;
    } else {
      assert (a + b)[0] == a[0] && (a + b)[1..] == a[1..] + b;
      FlatConcat(a[1..], b);
    }
  }

  lemma FlatOne(l: Layout.Lexeme)
    ensures Flat([l]) == Layout.Spell(l)
  {
    hide Layout.Spell;
    assert [l][1..] == [];
    assert Flat([]) == [];
    assert Layout.Spell(l) + [] == Layout.Spell(l);
  }

  lemma FlatBetween(open: Layout.Lexeme, ls: seq<Layout.Lexeme>, close: Layout.Lexeme)
    ensures Flat([open] + ls + [close]) == Layout.Spell(open) + Flat(ls) + Layout.Spell(close)
  {
    hide Flat, Layout.Spell;
    FlatConcat([open] + ls, [close]);
    FlatConcat([open], ls);
    FlatOne(open);
    FlatOne(close);
  }

  lemma {:induction false} FastIsFlat(v: Value, show: Show)
    requires RealFree(v)
    ensures FastText(v, show) == Flat(Layout.Lexemes(v, false))
    decreases v, 2
  {
    hide Flat, FastElements, FastMembers, Layout.ElementsLexemes, Layout.MembersLexemes, PrintedLength, Quote, IntText, Digits;
    match v
    case Array(es) =>
      var n := PrintedLength(es);
      ElementsFlat(es, 0, n, show);
      FlatBetween(Layout.Punct(LBRACKET), Layout.ElementsLexemes(es, 0, n, false), Layout.Punct(RBRACKET));
    case Object(es) =>
      MembersFlat(es, 0, show);
      FlatBetween(Layout.Punct(LBRACE), Layout.MembersLexemes(es, 0, false), Layout.Punct(RBRACE));
    case Int(i) => FlatOne(Layout.Num(i));
    case UInt(u) =>
      FlatOne(Layout.Num(u));
      UnsignedText(u);
    case String(s) => FlatOne(Layout.Str(s));
    case Null => FlatOne(Layout.NullWord);
    case Bool(b) => FlatOne(if b then Layout.TrueWord else Layout.FalseWord);
  }

  lemma UnsignedText(u: nat)
    ensures IntText(u) == Digits(u)
  {
    hide Digits;
  }

  lemma {:induction false} ElementFlat(es: seq<Entry>, i: nat, show: Show)
    requires RealFree(Array(es))
    ensures FastElement(es, i, show) == Flat(Layout.ElementLexemes(es, i, false))
    decreases es, 0
  {
    hide LowerBound, FastText, Layout.Lexemes, Flat;
    var p := LowerBound(es, Index(i));
    if p < |es| && es[p].key == Index(i) {
      assert (es decreases to es[p]);
      FastIsFlat(es[p].value, show);
    } else {
      FlatOne(Layout.NullWord);
    }
  }

  lemma FlatComma(i: nat)
    ensures Flat(Layout.Comma(i)) == Separator(i)
  {
    if i > 0 {
      FlatOne(Layout.Punct(COMMA));
    }
  }

  lemma {:induction false} ElementsFlat(es: seq<Entry>, i: nat, n: nat, show: Show)
    requires RealFree(Array(es))
    ensures FastElements(es, i, n, show) == Flat(Layout.ElementsLexemes(es, i, n, false))
    decreases es, 1, n - i
  {
    hide FastElement, Layout.ElementLexemes, Flat, Separator, Layout.Comma;
    if i < n {
      var comma, one, more := Layout.Comma(i), Layout.ElementLexemes(es, i, false), Layout.ElementsLexemes(es, i + 1, n, false);
      ElementFlat(es, i, show);
      ElementsFlat(es, i + 1, n, show);
      FlatComma(i);
      FlatConcat(comma + one, more);
      FlatConcat(comma, one);
    } else {
      FlatNothing();
    }
  }

  lemma FlatNothing()
    ensures Flat([]) == []
  {
  }

  lemma MemberFlat(e: Entry, show: Show)
    requires FastText(e.value, show) == Flat(Layout.Lexemes(e.value, false))
    ensures FastMember(e, show) == Flat(Layout.MemberLexemes(e, false))
  {
    hide FastText, Layout.Lexemes, Flat, Quote;
    var name, colon := Layout.Str(NameOf(e.key)), Layout.Punct(COLON);
    FlatConcat([name, colon], Layout.Lexemes(e.value, false));
    assert [name, colon] == [name] + [colon];
    FlatConcat([name], [colon]);
    FlatOne(name);
    FlatOne(colon);
  }

  lemma {:induction false} MembersFlat(es: seq<Entry>, i: nat, show: Show)
    requires RealFree(Object(es))
    ensures FastMembers(es, i, show) == Flat(Layout.MembersLexemes(es, i, false))
    decreases es, 1, |es| - i
  {
    hide FastMember, Layout.MemberLexemes, Flat, Separator, Layout.Comma;
    if i < |es| {
      var comma, one, more := Layout.Comma(i), Layout.MemberLexemes(es[i], false), Layout.MembersLexemes(es, i + 1, false);
      assert (es decreases to es[i]);
      FastIsFlat(es[i].value, show);
      MemberFlat(es[i], show);
      MembersFlat(es, i + 1, show);
      FlatComma(i);
      FlatConcat(comma + one, more);
      FlatConcat(comma, one);
    } else {
      FlatNothing();
    }
  }

  lemma {:induction false} FlatIsWritten(ls: seq<Layout.Lexeme>)
    ensures Flat(ls) == Written(ToksOf(ls))
    decreases ls
  {
    hide Layout.Spell, Rfc.TokText, TokOf;
    if ls != [] {
      TokSpelled(ls[0]);
      FlatIsWritten(ls[1..]);
      assert ToksOf(ls)[1..] == ToksOf(ls[1..]);
    }
  }

  /** `FastWriter` writes the tokens of the document and not one octet more. */
  lemma FastIsCompact(v: Value, show: Show)
    requires RealFree(v)
    ensures FastText(v, show) == Written(Rfc.Toks(Tree(v, false)))
  {
    hide FastText, Flat, Written, ToksOf, Tree, Rfc.Toks, Layout.Lexemes;
    FastIsFlat(v, show);
    FlatIsWritten(Layout.Lexemes(v, false));
    TreeToks(v, false);
  }
}
