/** Reading back what `FastWriter` wrote. */
module JsonRoundTrip {
  import opened Bytes
  import opened JsonValue
  import opened JsonMap
  import opened JsonNumber
  import opened JsonString
  import opened JsonToken
  import opened JsonParse
  import opened JsonWriter

  ghost predicate RealFree(v: Value) {
    match v
    case Real(_) => false
    case Array(es) => forall k | 0 <= k < |es| :: RealFree(es[k].value)
    case Object(es) => forall k | 0 <= k < |es| :: RealFree(es[k].value)
    case _ => true
  }

  // ---- the value that comes back ----

  /** Integers retagged by size, array gaps filled with null, arrays of 2^31 and more emptied. */
  function Reread(v: Value): Value
    decreases v, 0
  {
    match v
    case Int(i) => if i < TWO31 then v else UInt(i)
    case UInt(u) => if u < TWO31 then Int(u) else v
    case Array(es) => Array(RereadElements(es, 0, PrintedLength(es)))
    case Object(es) => Object(RereadMembers(es, 0))
    case _ => v
  }

  function RereadElement(es: seq<Entry>, i: nat): Value
    decreases es, 0
  {
    var p := LowerBound(es, Index(i));
    if p < |es| && es[p].key == Index(i) then
      assert (es decreases to es[p]);
      Reread(es[p].value)
    else Null
  }

  function RereadElements(es: seq<Entry>, i: nat, n: nat): seq<Entry>
    decreases es, 1, n - i
  {
    if i >= n then [] else [Entry(Index(i), RereadElement(es, i))] + RereadElements(es, i + 1, n)
  }

  function RereadMembers(es: seq<Entry>, i: nat): seq<Entry>
    decreases es, 1, |es| - i
  {
    if i >= |es| then []
    else
      assert (es decreases to es[i]);
      [Entry(es[i].key, Reread(es[i].value))] + RereadMembers(es, i + 1)
  }

  // ---- nesting ----

  function Max(a: nat, b: nat): nat {
    if a < b then b else a
  }

  /** How many calls of `readValue` are open at the deepest point of reading the printed value. */
  function Depth(v: Value): nat
    decreases v, 0
  {
    match v
    case Array(es) => 1 + ElementsDepth(es, 0, PrintedLength(es))
    case Object(es) => 1 + MembersDepth(es, 0)
    case _ => 1
  }

  function ElementDepth(es: seq<Entry>, i: nat): nat
    decreases es, 0
  {
    var p := LowerBound(es, Index(i));
    if p < |es| && es[p].key == Index(i) then
      assert (es decreases to es[p]);
      Depth(es[p].value)
    else 1
  }

  function ElementsDepth(es: seq<Entry>, i: nat, n: nat): nat
    decreases es, 1, n - i
  {
    if i >= n then 0 else Max(ElementDepth(es, i), ElementsDepth(es, i + 1, n))
  }

  function MembersDepth(es: seq<Entry>, i: nat): nat
    decreases es, 1, |es| - i
  {
    if i >= |es| then 0
    else
      assert (es decreases to es[i]);
      Max(Depth(es[i].value), MembersDepth(es, i + 1))
  }

  function Expected(deepest: nat, v: Value, pos: nat): Outcome {
    if deepest <= STACK_LIMIT then Parsed(v, pos) else Thrown
  }

  // ---- reading back ----

  function Punctuation(c: byte): Kind {
    match c
    case 0x2C => ArraySeparator
    case 0x3A => MemberSeparator
    case 0x7B => ObjectBegin
    case 0x7D => ObjectEnd
    case 0x5B => ArrayBegin
    case 0x5D => ArrayEnd
    case _ => ErrorToken
  }

  lemma LexPunctuation(text: bytes, p: nat, c: byte)
    requires Has(text, p, [c]) && Punctuation(c) != ErrorToken
    ensures p < |text| && text[p] == c && SkipSpaces(text, p) == p
    ensures ReadToken(text, p) == NextToken(text, p) == Token(Punctuation(c), p, p + 1)
  {
    hide ScanString, ScanComment, ScanNumber, ScanWord, Judge;
    HasByte(text, p, [c], 0);
  }

  lemma PunctuationDelimits(text: bytes, p: nat, c: byte)
    requires Has(text, p, [c]) && Punctuation(c) != ErrorToken
    ensures Delimited(text, p)
  {
    HasByte(text, p, [c], 0);
  }

  // One step of the reader at a time, so that the proofs below need not open it up.

  lemma ContainerStep(d: Doc, p: nat, depth: nat)
    requires p < |d.text| && depth < STACK_LIMIT
    ensures NextToken(d.text, p) == Token(ArrayBegin, p, p + 1) ==> ReadValue(d, p, depth) == ReadArray(d, p + 1, depth + 1)
    ensures NextToken(d.text, p) == Token(ObjectBegin, p, p + 1) ==>
              ReadValue(d, p, depth) == ReadMembers(d, p + 1, depth + 1, [], [])
  {
  }

  lemma ArrayStep(d: Doc, p: nat, depth: nat)
    requires p < |d.text| && !IsSpace(d.text[p])
    ensures d.text[p] == RBRACKET ==> ReadArray(d, p, depth) == Parsed(Array([]), p + 1)
    ensures d.text[p] != RBRACKET ==> ReadArray(d, p, depth) == ReadElements(d, p, depth, [])
  {
  }

  lemma ElementStep(d: Doc, p: nat, depth: nat, acc: seq<Entry>)
    requires p <= |d.text|
    ensures ReadValue(d, p, depth).Thrown? ==> ReadElements(d, p, depth, acc) == Thrown
    ensures ReadValue(d, p, depth).Parsed? ==>
              var o := ReadValue(d, p, depth);
              var t := NextToken(d.text, o.pos);
              var acc' := acc + [Entry(Index(|acc|), o.value)];
              && (t.kind == ArrayEnd ==> ReadElements(d, p, depth, acc) == Parsed(Array(acc'), t.end))
              && (t.kind == ArraySeparator ==> ReadElements(d, p, depth, acc) == ReadElements(d, t.end, depth, acc'))
  {
  }

  lemma MemberStep(d: Doc, p: nat, depth: nat, acc: seq<Entry>, last: bytes, name: bytes)
    requires p <= |d.text| && NextToken(d.text, p).kind == StringToken
    requires DecodeBody(Body(d.text, NextToken(d.text, p))) == Text(name)
    requires ReadToken(d.text, NextToken(d.text, p).end).kind == MemberSeparator
    ensures var o := ReadValue(d, ReadToken(d.text, NextToken(d.text, p).end).end, depth);
            && (o.Thrown? ==> ReadMembers(d, p, depth, acc, last) == Thrown)
            && (o.Parsed? ==>
                  var t := ReadToken(d.text, o.pos);
                  var acc' := Put(acc, Name(name), o.value);
                  && (t.kind == ObjectEnd ==> ReadMembers(d, p, depth, acc, last) == Parsed(Object(acc'), t.end))
                  && (t.kind == ArraySeparator ==>
                        ReadMembers(d, p, depth, acc, last) == ReadMembers(d, t.end, depth, acc', name)))
  {
  }

  lemma EmptyObjectStep(d: Doc, p: nat, depth: nat)
    requires p <= |d.text| && NextToken(d.text, p).kind == ObjectEnd
    ensures ReadMembers(d, p, depth, [], []) == Parsed(Object([]), NextToken(d.text, p).end)
  {
  }

  lemma IntegerReadsBack(d: Doc, p: nat, depth: nat, n: int)
    requires -TWO63 <= n < TWO64 && depth < STACK_LIMIT
    requires Has(d.text, p, IntText(n)) && Delimited(d.text, p + |IntText(n)|)
    ensures ReadValue(d, p, depth) == Parsed(Retag(n), p + |IntText(n)|)
  {
    hide ReadToken, IntText, DecodeInteger, Delimited;
    LexInteger(d.text, p, n);
    DecodeInvertsPrinting(n);
    assert TokenText(d.text, ReadToken(d.text, p)) == IntText(n);
  }

  lemma StringReadsBack(d: Doc, p: nat, depth: nat, s: bytes)
    requires Has(d.text, p, Quote(s)) && depth < STACK_LIMIT
    ensures ReadValue(d, p, depth) == Parsed(String(s), p + |Quote(s)|)
  {
    hide ReadToken, Quote, Escape, DecodeBody;
    LexString(d.text, p, s);
    DecodeInvertsEscape(s);
  }

  lemma ScalarReadsBack(d: Doc, p: nat, depth: nat, v: Value, show: Show)
    requires WellFormed(v) && !v.Real? && !IsContainer(v) && depth < STACK_LIMIT
    requires Has(d.text, p, FastText(v, show)) && Delimited(d.text, p + |FastText(v, show)|)
    ensures ReadValue(d, p, depth) == Parsed(Reread(v), p + |FastText(v, show)|)
    ensures Depth(v) == 1
  {
    hide ReadToken, Quote, Delimited;
    match v
    case Int(i) => IntegerReadsBack(d, p, depth, i);
    case UInt(u) => IntegerReadsBack(d, p, depth, u);
    case String(s) => StringReadsBack(d, p, depth, s);
    case _ => LexWords(d.text, p);
  }

  lemma TooDeep(d: Doc, p: nat, depth: nat, v: Value)
    requires p <= |d.text| && depth >= STACK_LIMIT
    ensures ReadValue(d, p, depth) == Thrown && Depth(v) >= 1
  {
  }

  lemma NotReal(v: Value)
    requires RealFree(v)
    ensures !v.Real?
  {
  }

  lemma {:induction false} ReadsBack(d: Doc, p: nat, depth: nat, v: Value, show: Show)
    requires WellFormed(v) && RealFree(v)
    requires p <= |d.text|
    requires Has(d.text, p, FastText(v, show)) && Delimited(d.text, p + |FastText(v, show)|)
    ensures ReadValue(d, p, depth) == Expected(depth + Depth(v), Reread(v), p + |FastText(v, show)|)
    decreases v, 1
  {
    hide FastText, Reread, WellFormed, RealFree, Depth;
    hide ReadValue, ReadArray, ReadElements, ReadMembers, ReadToken, NextToken, SkipSpaces, Has, Delimited;
    if depth >= STACK_LIMIT {
      TooDeep(d, p, depth, v);
    } else if v.Array? {
      ArrayReadsBack(d, p, depth, v.entries, show);
    } else if v.Object? {
      ObjectReadsBack(d, p, depth, v.entries, show);
    } else {
      NotReal(v);
      ScalarReadsBack(d, p, depth, v, show);
    }
  }

  lemma {:induction false} ArrayReadsBack(d: Doc, p: nat, depth: nat, es: seq<Entry>, show: Show)
    requires WellFormed(Array(es)) && RealFree(Array(es)) && depth < STACK_LIMIT
    requires Has(d.text, p, FastText(Array(es), show))
    ensures ReadValue(d, p, depth) == Expected(depth + Depth(Array(es)), Reread(Array(es)), p + |FastText(Array(es), show)|)
    decreases es, 2
  {
    hide LowerBound, PrintedLength, FastElement;
    hide ReadValue, ReadArray, ReadElements, ReadMembers, ReadToken, NextToken, SkipSpaces, Has, Delimited;
    var n := PrintedLength(es);
    var inner := FastElements(es, 0, n, show);
    assert FastText(Array(es), show) == [LBRACKET] + (inner + [RBRACKET]);
    HasConcat(d.text, p, [LBRACKET], inner + [RBRACKET]);
    LexPunctuation(d.text, p, LBRACKET);
    ContainerStep(d, p, depth);
    if n == 0 {
      assert inner + [RBRACKET] == [RBRACKET];
      LexPunctuation(d.text, p + 1, RBRACKET);
      ArrayStep(d, p + 1, depth + 1);
    } else {
      assert inner == FastElement(es, 0, show) + FastElements(es, 1, n, show);
      ElementOpens(es, 0, show);
      HasByte(d.text, p + 1, inner + [RBRACKET], 0);
      ArrayStep(d, p + 1, depth + 1);
      assert inner + [RBRACKET] == ElementsTail(es, 0, n, show);
      ElementsReadBack(d, p + 1, depth + 1, es, 0, n, [], show);
      assert [] + RereadElements(es, 0, n) == RereadElements(es, 0, n);
    }
  }

  /** First octets of printed values: not white space, nor a slash, nor punctuation that closes. */
  predicate Opens(t: bytes) {
    t != [] && !IsSpace(t[0]) && t[0] != RBRACKET && t[0] != SLASH
  }

  lemma ValueOpens(v: Value, show: Show)
    requires RealFree(v)
    ensures Opens(FastText(v, show))
  {
    match v
    case Int(i) => IntTextShape(i);
    case UInt(u) => IntTextShape(u);
    case _ =>
  }

  lemma ElementOpens(es: seq<Entry>, i: nat, show: Show)
    requires RealFree(Array(es))
    ensures Opens(FastElement(es, i, show))
  {
    var p := LowerBound(es, Index(i));
    if p < |es| {
      ValueOpens(es[p].value, show);
    }
  }

  lemma GapReadsBack(d: Doc, p: nat, depth: nat)
    requires Has(d.text, p, NULL_TEXT)
    ensures ReadValue(d, p, depth) == Expected(depth + 1, Null, p + |NULL_TEXT|)
  {
    hide ReadToken;
    LexWords(d.text, p);
  }

  lemma {:induction false} ElementReadsBack(d: Doc, p: nat, depth: nat, es: seq<Entry>, i: nat, show: Show)
    requires WellFormed(Array(es)) && RealFree(Array(es))
    requires p <= |d.text|
    requires Has(d.text, p, FastElement(es, i, show)) && Delimited(d.text, p + |FastElement(es, i, show)|)
    ensures ReadValue(d, p, depth) ==
            Expected(depth + ElementDepth(es, i), RereadElement(es, i), p + |FastElement(es, i, show)|)
    decreases es, 0
  {
    hide LowerBound, FastText, Reread, Depth;
    hide ReadValue, ReadArray, ReadElements, ReadMembers, ReadToken, NextToken, SkipSpaces, Has, Delimited;
    var k := LowerBound(es, Index(i));
    if k < |es| && es[k].key == Index(i) {
      assert (es decreases to es[k]);
      ReadsBack(d, p, depth, es[k].value, show);
    } else {
      GapReadsBack(d, p, depth);
    }
  }

  /** Elements from `i` on, with no comma before the first, up to the closing bracket. */
  function ElementsTail(es: seq<Entry>, i: nat, n: nat, show: Show): bytes {
    FastElement(es, i, show) + FastElements(es, i + 1, n, show) + [RBRACKET]
  }

  lemma ElementsLayout(text: bytes, p: nat, es: seq<Entry>, i: nat, n: nat, show: Show)
    requires i < n && Has(text, p, ElementsTail(es, i, n, show))
    ensures Has(text, p, FastElement(es, i, show))
    ensures var q := p + |FastElement(es, i, show)|;
            if i + 1 < n then
              && Has(text, q, [COMMA]) && Has(text, q + 1, ElementsTail(es, i + 1, n, show))
              && p + |ElementsTail(es, i, n, show)| == q + 1 + |ElementsTail(es, i + 1, n, show)|
            else Has(text, q, [RBRACKET]) && p + |ElementsTail(es, i, n, show)| == q + 1
  {
    hide FastElement, Has;
    var e, rest := FastElement(es, i, show), FastElements(es, i + 1, n, show);
    assert ElementsTail(es, i, n, show) == e + (rest + [RBRACKET]);
    HasConcat(text, p, e, rest + [RBRACKET]);
    if i + 1 < n {
      var tail := ElementsTail(es, i + 1, n, show);
      assert rest + [RBRACKET] == [COMMA] + tail;
      HasConcat(text, p + |e|, [COMMA], tail);
    } else {
      assert rest + [RBRACKET] == [RBRACKET];
    }
  }

  lemma {:induction false} ElementsReadBack(d: Doc, p: nat, depth: nat, es: seq<Entry>, i: nat, n: nat, acc: seq<Entry>, show: Show)
    requires WellFormed(Array(es)) && RealFree(Array(es)) && i < n && |acc| == i
    requires Has(d.text, p, ElementsTail(es, i, n, show)) && p <= |d.text|
    ensures ReadElements(d, p, depth, acc) ==
            Expected(depth + ElementsDepth(es, i, n), Array(acc + RereadElements(es, i, n)),
                     p + |ElementsTail(es, i, n, show)|)
    decreases es, 1, n - i
  {
    hide FastElement, RereadElement, ElementDepth, ElementsTail, WellFormed, RealFree;
    hide ReadValue, ReadArray, ReadElements, ReadMembers, ReadToken, NextToken, SkipSpaces, Has, Delimited;
    ElementsLayout(d.text, p, es, i, n, show);
    var q := p + |FastElement(es, i, show)|;
    var acc' := acc + [Entry(Index(i), RereadElement(es, i))];
    PunctuationDelimits(d.text, q, if i + 1 < n then COMMA else RBRACKET);
    LexPunctuation(d.text, q, if i + 1 < n then COMMA else RBRACKET);
    ElementReadsBack(d, p, depth, es, i, show);
    ElementStep(d, p, depth, acc);
    assert acc + RereadElements(es, i, n) == acc' + RereadElements(es, i + 1, n);
    if i + 1 < n {
      ElementsReadBack(d, q + 1, depth, es, i + 1, n, acc', show);
    } else {
      assert acc' + RereadElements(es, i + 1, n) == acc';
    }
  }

  lemma FirstMember(es: seq<Entry>, show: Show)
    requires es != []
    ensures FastMembers(es, 0, show) + [RBRACE] == MembersTail(es, 0, show)
  {
    hide FastMember;
    assert FastMembers(es, 0, show) == FastMember(es[0], show) + FastMembers(es, 1, show);
  }

  lemma {:induction false} ObjectReadsBack(d: Doc, p: nat, depth: nat, es: seq<Entry>, show: Show)
    requires WellFormed(Object(es)) && RealFree(Object(es)) && depth < STACK_LIMIT
    requires Has(d.text, p, FastText(Object(es), show))
    ensures ReadValue(d, p, depth) == Expected(depth + Depth(Object(es)), Reread(Object(es)), p + |FastText(Object(es), show)|)
    decreases es, 2
  {
    hide FastMembers, WellFormed, RealFree, MembersTail, RereadMembers, MembersDepth;
    hide ReadValue, ReadArray, ReadElements, ReadMembers, ReadToken, NextToken, SkipSpaces, Has, Delimited;
    var inner := FastMembers(es, 0, show);
    assert FastText(Object(es), show) == [LBRACE] + (inner + [RBRACE]);
    HasConcat(d.text, p, [LBRACE], inner + [RBRACE]);
    LexPunctuation(d.text, p, LBRACE);
    ContainerStep(d, p, depth);
    if es == [] {
      NoMembers(show);
      LexPunctuation(d.text, p + 1, RBRACE);
      EmptyObjectStep(d, p + 1, depth + 1);
    } else {
      FirstMember(es, show);
      MembersReadBack(d, p + 1, depth + 1, es, 0, [], [], show);
      assert [] + RereadMembers(es, 0) == RereadMembers(es, 0);
    }
  }

  lemma NoMembers(show: Show)
    ensures FastMembers([], 0, show) + [RBRACE] == [RBRACE]
    ensures RereadMembers([], 0) == [] && MembersDepth([], 0) == 0
  {
  }

  function MembersTail(es: seq<Entry>, i: nat, show: Show): bytes
    requires i < |es|
  {
    FastMember(es[i], show) + FastMembers(es, i + 1, show) + [RBRACE]
  }

  lemma MembersLayout(text: bytes, p: nat, es: seq<Entry>, i: nat, show: Show)
    requires i < |es| && es[i].key.Name? && Has(text, p, MembersTail(es, i, show))
    ensures var name, value := Quote(es[i].key.name), FastText(es[i].value, show);
            var q := p + |name| + 1 + |value|;
            && Has(text, p, name) && Has(text, p + |name|, [COLON]) && Has(text, p + |name| + 1, value)
            && if i + 1 < |es| then
                 && Has(text, q, [COMMA]) && Has(text, q + 1, MembersTail(es, i + 1, show))
                 && p + |MembersTail(es, i, show)| == q + 1 + |MembersTail(es, i + 1, show)|
               else Has(text, q, [RBRACE]) && p + |MembersTail(es, i, show)| == q + 1
  {
    hide FastText, Quote, Has;
    var name, value, rest := Quote(es[i].key.name), FastText(es[i].value, show), FastMembers(es, i + 1, show) + [RBRACE];
    assert MembersTail(es, i, show) == name + ([COLON] + (value + rest));
    HasConcat(text, p, name, [COLON] + (value + rest));
    HasConcat(text, p + |name|, [COLON], value + rest);
    HasConcat(text, p + |name| + 1, value, rest);
    if i + 1 < |es| {
      var tail := MembersTail(es, i + 1, show);
      assert rest == [COMMA] + tail;
      HasConcat(text, p + |name| + 1 + |value|, [COMMA], tail);
    } else {
      assert rest == [RBRACE];
    }
  }

  lemma MemberFacts(es: seq<Entry>, i: nat, acc: seq<Entry>)
    requires WellFormed(Object(es)) && RealFree(Object(es)) && i < |es|
    requires |acc| == i && forall j | 0 <= j < i :: acc[j].key == es[j].key
    ensures es[i].key.Name? && WellFormed(es[i].value) && RealFree(es[i].value)
    ensures forall j | 0 <= j < i :: KeyLess(acc[j].key, es[i].key)
    ensures (es decreases to es[i].value)
  {
    assert (es decreases to es[i]);
  }

  /** One member and the token after it. */
  lemma {:induction false} MemberReadsBack(d: Doc, p: nat, depth: nat, es: seq<Entry>, i: nat, acc: seq<Entry>, last: bytes, show: Show)
    requires WellFormed(Object(es)) && RealFree(Object(es)) && i < |es|
    requires |acc| == i && forall j | 0 <= j < i :: acc[j].key == es[j].key
    requires Has(d.text, p, MembersTail(es, i, show)) && p <= |d.text|
    ensures var more := i + 1 < |es|;
            var q := p + |MembersTail(es, i, show)| - if more then |MembersTail(es, i + 1, show)| else 0;
            var acc' := acc + [Entry(es[i].key, Reread(es[i].value))];
            && p <= q <= |d.text|
            && (more ==> Has(d.text, q, MembersTail(es, i + 1, show)))
            && ReadMembers(d, p, depth, acc, last) ==
               if depth + Depth(es[i].value) > STACK_LIMIT then Thrown
               else if more then ReadMembers(d, q, depth, acc', NameOf(es[i].key))
               else Parsed(Object(acc'), q)
    decreases es, 0
  {
    hide FastText, Reread, Depth, Put, Quote, DecodeBody, MembersTail, WellFormed, RealFree, KeyLess;
    hide ReadValue, ReadArray, ReadElements, ReadMembers, ReadToken, NextToken, SkipSpaces, Has, Delimited;
    MemberFacts(es, i, acc);
    var name, v := es[i].key.name, es[i].value;
    MembersLayout(d.text, p, es, i, show);
    var start := p + |Quote(name)| + 1;
    var q := start + |FastText(v, show)|;
    var c := if i + 1 < |es| then COMMA else RBRACE;
    NameReadsBack(d, p, name);
    LexPunctuation(d.text, start - 1, COLON);
    PunctuationDelimits(d.text, q, c);
    LexPunctuation(d.text, q, c);
    ReadsBack(d, start, depth, v, show);
    MemberStep(d, p, depth, acc, last, name);
    PutLast(acc, es[i].key, Reread(v));
  }

  lemma {:induction false} MembersReadBack(d: Doc, p: nat, depth: nat, es: seq<Entry>, i: nat, acc: seq<Entry>, last: bytes, show: Show)
    requires WellFormed(Object(es)) && RealFree(Object(es)) && i < |es|
    requires |acc| == i && forall j | 0 <= j < i :: acc[j].key == es[j].key
    requires Has(d.text, p, MembersTail(es, i, show)) && p <= |d.text|
    ensures ReadMembers(d, p, depth, acc, last) ==
            Expected(depth + MembersDepth(es, i), Object(acc + RereadMembers(es, i)), p + |MembersTail(es, i, show)|)
    decreases es, 1, |es| - i
  {
    hide Reread, Depth, MembersTail, WellFormed, RealFree;
    hide ReadValue, ReadArray, ReadElements, ReadMembers, ReadToken, NextToken, SkipSpaces, Has, Delimited;
    MemberReadsBack(d, p, depth, es, i, acc, last, show);
    var acc' := acc + [Entry(es[i].key, Reread(es[i].value))];
    assert acc + RereadMembers(es, i) == acc' + RereadMembers(es, i + 1);
    if i + 1 < |es| {
      var q := p + |MembersTail(es, i, show)| - |MembersTail(es, i + 1, show)|;
      MembersReadBack(d, q, depth, es, i + 1, acc', NameOf(es[i].key), show);
    } else {
      assert acc' + RereadMembers(es, i + 1) == acc';
    }
  }

  lemma NameReadsBack(d: Doc, p: nat, name: bytes)
    requires Has(d.text, p, Quote(name))
    ensures NextToken(d.text, p) == Token(StringToken, p, p + |Quote(name)|)
    ensures DecodeBody(Body(d.text, NextToken(d.text, p))) == Text(name)
  {
    LexString(d.text, p, name);
    DecodeInvertsEscape(name);
  }

  /**
    * Reading the text of any real-free value gives `Reread` of the value when it nests at most
    * 1000 deep, and throws at the depth limit otherwise.
    */
  lemma RoundTrip(v: Value, show: Show, scan: bytes -> Option<real>)
    requires WellFormed(v) && RealFree(v)
    ensures ReadValue(Doc(FastText(v, show) + [NEWLINE], scan), 0, 0) == Expected(Depth(v), Reread(v), |FastText(v, show)|)
  {
    hide FastText, ReadValue;
    var d := Doc(FastText(v, show) + [NEWLINE], scan);
    assert Has(d.text, 0, FastText(v, show));
    ReadsBack(d, 0, 0, v, show);
  }

  // ---- what is lost on the way ----

  /** Highest index + 1, without the 32-bit wrap of `size()`. */
  function Span(es: seq<Entry>): nat {
    if es == [] || !es[|es| - 1].key.Index? then 0 else es[|es| - 1].key.index + 1
  }

  /** `w` is the same document as `v` but for integer tags and for gaps, which are null in `w`. */
  ghost predicate SameDocument(v: Value, w: Value)
    decreases v, 1
  {
    match v
    case Int(i) => (w.Int? && w.i == i) || (w.UInt? && w.u == i)
    case UInt(u) => (w.Int? && w.i == u) || (w.UInt? && w.u == u)
    case Array(es) =>
      && w.Array? && |w.entries| == Span(es)
      && forall j | 0 <= j < |w.entries| :: w.entries[j].key == Index(j) && SameSlot(es, j, w.entries[j].value)
    case Object(es) =>
      && w.Object? && |w.entries| == |es|
      && forall k | 0 <= k < |es| :: w.entries[k].key == es[k].key && SameDocument(es[k].value, w.entries[k].value)
    case _ => v == w
  }

  ghost predicate SameSlot(es: seq<Entry>, j: nat, w: Value)
    decreases es, 0
  {
    var p := LowerBound(es, Index(j));
    if p < |es| && es[p].key == Index(j) then
      assert (es decreases to es[p]);
      SameDocument(es[p].value, w)
    else w == Null
  }

  /** Every array in the document has a size that fits an `int`. */
  ghost predicate SizesFit(v: Value) {
    match v
    case Array(es) => Span(es) < TWO31 && forall k | 0 <= k < |es| :: SizesFit(es[k].value)
    case Object(es) => forall k | 0 <= k < |es| :: SizesFit(es[k].value)
    case _ => true
  }

  lemma {:induction false} RereadElementsAt(es: seq<Entry>, i: nat, n: nat)
    requires i <= n
    ensures |RereadElements(es, i, n)| == n - i
    ensures forall j | i <= j < n :: RereadElements(es, i, n)[j - i] == Entry(Index(j), RereadElement(es, j))
    decreases n - i
  {
    hide RereadElement;
    if i < n {
      RereadElementsAt(es, i + 1, n);
    }
  }

  lemma {:induction false} RereadMembersAt(es: seq<Entry>, i: nat)
    requires i <= |es|
    ensures |RereadMembers(es, i)| == |es| - i
    ensures forall j | i <= j < |es| :: RereadMembers(es, i)[j - i] == Entry(es[j].key, Reread(es[j].value))
    decreases |es| - i
  {
    hide Reread, RereadMembers;
    RereadMembersStep(es, i);
    if i < |es| {
      RereadMembersAt(es, i + 1);
      forall j | i <= j < |es| ensures RereadMembers(es, i)[j - i] == Entry(es[j].key, Reread(es[j].value)) {
        if j > i {
          assert RereadMembers(es, i)[j - i] == RereadMembers(es, i + 1)[j - (i + 1)];
        }
      }
    }
  }

  lemma RereadMembersStep(es: seq<Entry>, i: nat)
    ensures RereadMembers(es, i) ==
            if i >= |es| then [] else [Entry(es[i].key, Reread(es[i].value))] + RereadMembers(es, i + 1)
  {
    hide Reread;
  }

  lemma PrintedLengthIs(es: seq<Entry>)
    requires WellFormed(Array(es))
    ensures PrintedLength(es) == if Span(es) < TWO31 then Span(es) else 0
  {
    if es != [] {
      var last := es[|es| - 1].key.index;
      assert last < TWO32;
      assert ArraySize(es) == if last + 1 == TWO32 then 0 else last + 1;
    }
  }

  /**
    * The document read back is the document written exactly when every array size fits an `int`:
    * an array that reaches index 2^31 - 1 prints as `[]` and its elements are gone.
    */
  lemma {:induction false} SameExactly(v: Value)
    requires WellFormed(v)
    ensures SameDocument(v, Reread(v)) <==> SizesFit(v)
    decreases v, 0
  {
    hide RereadElements, RereadMembers, Span;
    match v
    case Array(es) => SameArrayExactly(es);
    case Object(es) =>
      RereadMembersAt(es, 0);
      var ms := RereadMembers(es, 0);
      forall k | 0 <= k < |es| ensures ms[k].key == es[k].key && (SameDocument(es[k].value, ms[k].value) <==> SizesFit(es[k].value)) {
        assert (es decreases to es[k]);
        SameExactly(es[k].value);
        assert ms[k - 0] == Entry(es[k].key, Reread(es[k].value));
      }
    case _ =>
  }

  lemma {:induction false} SameArrayExactly(es: seq<Entry>)
    requires WellFormed(Array(es))
    ensures SameDocument(Array(es), Reread(Array(es))) <==> SizesFit(Array(es))
    decreases es, 2
  {
    hide LowerBound, PrintedLength, Reread, SameSlot, RereadElement;
    PrintedLengthIs(es);
    RereadArray(es);
    if Span(es) < TWO31 {
      var n := Span(es);
      var dense := RereadElements(es, 0, n);
      RereadElementsAt(es, 0, n);
      forall j: nat | j < n ensures dense[j] == Entry(Index(j), RereadElement(es, j)) {
        assert RereadElements(es, 0, n)[j - 0] == Entry(Index(j), RereadElement(es, j));
      }
      SlotsExactly(es);
    }
  }

  ghost predicate SlotsSame(es: seq<Entry>) {
    forall j: nat | j < Span(es) :: SameSlot(es, j, RereadElement(es, j))
  }

  lemma {:induction false} SlotsExactly(es: seq<Entry>)
    requires WellFormed(Array(es))
    ensures SlotsSame(es) <==> forall k | 0 <= k < |es| :: SizesFit(es[k].value)
    decreases es, 1
  {
    hide LowerBound, Reread, SizesFit;
    forall k | 0 <= k < |es|
      ensures es[k].key.index < Span(es)
      ensures SameSlot(es, es[k].key.index, RereadElement(es, es[k].key.index)) <==> SizesFit(es[k].value)
    {
      if k < |es| - 1 { assert KeyLess(es[k].key, es[|es| - 1].key); }
      LookupAt(es, true, k);
      SlotExactly(es, k);
    }
    forall j: nat | j < Span(es) && (forall k | 0 <= k < |es| :: SizesFit(es[k].value))
      ensures SameSlot(es, j, RereadElement(es, j))
    {
      var p := LowerBound(es, Index(j));
      if p < |es| && es[p].key == Index(j) { assert es[p].key.index == j; }
    }
  }

  lemma RereadArray(es: seq<Entry>)
    ensures Reread(Array(es)) == Array(RereadElements(es, 0, PrintedLength(es)))
  {
  }

  lemma {:induction false} SlotExactly(es: seq<Entry>, k: nat)
    requires WellFormed(Array(es)) && k < |es|
    requires LowerBound(es, es[k].key) == k
    ensures SameSlot(es, es[k].key.index, RereadElement(es, es[k].key.index)) <==> SizesFit(es[k].value)
    decreases es, 0
  {
    assert (es decreases to es[k]);
    SameExactly(es[k].value);
  }

  // ---- writing again ----

  lemma {:induction false} WritesTheSame(v: Value, show: Show)
    requires WellFormed(v)
    ensures FastText(Reread(v), show) == FastText(v, show)
    decreases v, 0
  {
    match v
    case Array(es) => ArrayWritesTheSame(es, show);
    case Object(es) =>
      RereadMembersAt(es, 0);
      assert forall k | 0 <= k < |es| :: RereadMembers(es, 0)[k - 0] == Entry(es[k].key, Reread(es[k].value));
      MembersWriteTheSame(es, RereadMembers(es, 0), 0, show);
    case _ =>
  }

  lemma {:induction false} ArrayWritesTheSame(es: seq<Entry>, show: Show)
    requires WellFormed(Array(es))
    ensures FastText(Reread(Array(es)), show) == FastText(Array(es), show)
    decreases es, 2
  {
    hide LowerBound, Reread, RereadElement, FastElements, ArraySize;
    PrintedLengthIs(es);
    RereadArray(es);
    var n := PrintedLength(es);
    var dense := RereadElements(es, 0, n);
    RereadElementsAt(es, 0, n);
    forall j: nat | j < n ensures dense[j] == Entry(Index(j), RereadElement(es, j)) {
      assert RereadElements(es, 0, n)[j - 0] == Entry(Index(j), RereadElement(es, j));
    }
    DensePrintedLength(dense);
    ElementsWriteTheSame(es, dense, 0, n, show);
  }

  lemma DensePrintedLength(es: seq<Entry>)
    requires Dense(es) && |es| < TWO31
    ensures PrintedLength(es) == |es|
  {
  }

  lemma {:induction false} ElementsWriteTheSame(es: seq<Entry>, dense: seq<Entry>, i: nat, n: nat, show: Show)
    requires WellFormed(Array(es)) && |dense| == n
    requires forall j | 0 <= j < n :: dense[j] == Entry(Index(j), RereadElement(es, j))
    ensures FastElements(dense, i, n, show) == FastElements(es, i, n, show)
    decreases es, 1, n - i
  {
    hide FastElement, RereadElement;
    if i < n {
      ElementWritesTheSame(es, dense, i, show);
      ElementsWriteTheSame(es, dense, i + 1, n, show);
    }
  }

  lemma {:induction false} ElementWritesTheSame(es: seq<Entry>, dense: seq<Entry>, i: nat, show: Show)
    requires WellFormed(Array(es)) && i < |dense|
    requires forall j | 0 <= j < |dense| :: dense[j] == Entry(Index(j), RereadElement(es, j))
    ensures FastElement(dense, i, show) == FastElement(es, i, show)
    decreases es, 0
  {
    hide LowerBound, Reread, FastText;
    LookupAt(dense, true, i);
    var p := LowerBound(es, Index(i));
    if p < |es| && es[p].key == Index(i) {
      assert (es decreases to es[p]);
      WritesTheSame(es[p].value, show);
    } else {
      NullText(show);
    }
  }

  lemma NullText(show: Show)
    ensures FastText(Null, show) == NULL_TEXT
  {
  }

  lemma {:induction false} MembersWriteTheSame(es: seq<Entry>, ms: seq<Entry>, i: nat, show: Show)
    requires WellFormed(Object(es)) && |ms| == |es|
    requires forall k | 0 <= k < |es| :: ms[k] == Entry(es[k].key, Reread(es[k].value))
    ensures FastMembers(ms, i, show) == FastMembers(es, i, show)
    decreases es, 1, |es| - i
  {
    hide Reread, FastText;
    if i < |es| {
      assert (es decreases to es[i]);
      WritesTheSame(es[i].value, show);
      MembersWriteTheSame(es, ms, i + 1, show);
    }
  }

  /** A null at index 2^31 - 1 prints as the empty array. */
  lemma LongArrayIsLost(show: Show)
    ensures var v := Array([Entry(Index(TWO31 - 1), Null)]);
            WellFormed(v) && RealFree(v) && FastText(v, show) == [LBRACKET, RBRACKET] && !SameDocument(v, Reread(v))
  {
    hide SameDocument, Reread;
    var es := [Entry(Index(TWO31 - 1), Null)];
    assert Span(es) == TWO31;
    assert PrintedLength(es) == 0;
    assert !SizesFit(Array(es));
    SameExactly(Array(es));
  }
}
