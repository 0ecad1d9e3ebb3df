/**
  * The JSON grammar of RFC 8259, sections 2 to 7, octet by octet: documents as trees, the tokens
  * they are written with, what they denote, and texts as tokens with white space between them.
  */
module Rfc8259 {
  import opened Bytes
  import opened JsonValue
  import opened JsonMap
  import opened JsonString

  // ---- strings (section 7) ----

  /** An octet as it is, a two-character escape, a `\u` escape, or a surrogate pair of them. */
  datatype Char = Raw(octet: byte) | Short(letter: byte) | Hex(digits: bytes) | Twin(high: bytes, low: bytes)

  predicate IsHexDigit(c: byte) {
    0x30 <= c <= 0x39 || 0x41 <= c <= 0x46 || 0x61 <= c <= 0x66
  }

  predicate IsHex4(d: bytes) {
    |d| == 4 && IsHexDigit(d[0]) && IsHexDigit(d[1]) && IsHexDigit(d[2]) && IsHexDigit(d[3])
  }

  function HexOf(c: byte): nat
    requires IsHexDigit(c)
  {
    if c <= 0x39 then c - 0x30 else if c <= 0x46 then c - 0x37 else c - 0x57
  }

  function Hex4(d: bytes): nat
    requires IsHex4(d)
  {
    0x1000 * HexOf(d[0]) + 0x100 * HexOf(d[1]) + 0x10 * HexOf(d[2]) + HexOf(d[3])
  }

  predicate ValidChar(c: Char) {
    match c
    case Raw(o) => o >= 0x20 && o != 0x22 && o != 0x5C
    case Short(l) => l in {0x22, 0x5C, 0x2F, 0x62, 0x66, 0x6E, 0x72, 0x74}
    case Hex(d) => IsHex4(d) && !(0xD800 <= Hex4(d) <= 0xDFFF)
    case Twin(h, l) => IsHex4(h) && IsHex4(l) && 0xD800 <= Hex4(h) <= 0xDBFF && 0xDC00 <= Hex4(l) <= 0xDFFF
  }

  function CharText(c: Char): bytes {
    match c
    case Raw(o) => [o]
    case Short(l) => [0x5C, l]
    case Hex(d) => [0x5C, 0x75] + d
    case Twin(h, l) => [0x5C, 0x75] + h + [0x5C, 0x75] + l
  }

  /** The scalar value a `\u` escape or pair stands for. */
  function ScalarOf(c: Char): nat
    requires ValidChar(c) && (c.Hex? || c.Twin?)
  {
    if c.Hex? then Hex4(c.digits) else 0x10000 + 0x400 * (Hex4(c.high) - 0xD800) + (Hex4(c.low) - 0xDC00)
  }

  /** The octets a character stands for; scalar values in UTF-8. */
  function CharOctets(c: Char): bytes
    requires ValidChar(c)
  {
    match c
    case Raw(o) => [o]
    case Short(l) =>
      if l == 0x62 then [0x08] else if l == 0x66 then [0x0C] else if l == 0x6E then [0x0A]
      else if l == 0x72 then [0x0D] else if l == 0x74 then [0x09] else [l]
    case _ => CodePointToUtf8(ScalarOf(c))
  }

  predicate ValidString(cs: seq<Char>) {
    forall i | 0 <= i < |cs| :: ValidChar(cs[i])
  }

  function StringText(cs: seq<Char>): bytes {
    if cs == [] then [] else CharText(cs[0]) + StringText(cs[1..])
  }

  function StringOctets(cs: seq<Char>): bytes
    requires ValidString(cs)
  {
    if cs == [] then [] else CharOctets(cs[0]) + StringOctets(cs[1..])
  }

  // ---- numbers (section 6) ----

  datatype Expo = NoExpo | Expo(mark: byte, sign: bytes, digits: bytes)

  /** An absent fraction has no digits. */
  datatype Numeral = Numeral(minus: bool, whole: bytes, frac: bytes, expo: Expo)

  predicate AreDigits(ds: bytes) {
    forall i | 0 <= i < |ds| :: 0x30 <= ds[i] <= 0x39
  }

  predicate ValidNumeral(n: Numeral) {
    && n.whole != [] && AreDigits(n.whole) && (|n.whole| > 1 ==> n.whole[0] != 0x30) && AreDigits(n.frac)
    && (n.expo.Expo? ==>
          && (n.expo.mark == 0x65 || n.expo.mark == 0x45) && (n.expo.sign == [] || n.expo.sign == [0x2B] || n.expo.sign == [0x2D])
          && n.expo.digits != [] && AreDigits(n.expo.digits))
  }

  function FracText(n: Numeral): bytes {
    if n.frac == [] then [] else [0x2E] + n.frac
  }

  function ExpoText(n: Numeral): bytes {
    if n.expo.NoExpo? then [] else [n.expo.mark] + n.expo.sign + n.expo.digits
  }

  function NumeralText(n: Numeral): bytes {
    (if n.minus then [0x2D] else []) + n.whole + FracText(n) + ExpoText(n)
  }

  function Decimal(ds: bytes): nat
    requires AreDigits(ds)
  {
    if ds == [] then 0 else 10 * Decimal(ds[..|ds| - 1]) + (ds[|ds| - 1] - 0x30)
  }

  /**
    * Integers from -2^63 to 2^64 - 1 are exact, tagged unsigned from 2^31 on. Every other numeral is
    * the floating-point number that `scan`, outside this model, makes of its text.
    */
  function NumeralValue(n: Numeral, scan: bytes -> Option<real>): Option<Value>
    requires ValidNumeral(n)
  {
    if n.frac == [] && n.expo.NoExpo? && Decimal(n.whole) <= (if n.minus then 0x8000_0000_0000_0000 else 0xFFFF_FFFF_FFFF_FFFF) then
      var m := Decimal(n.whole);
      Some(if n.minus then Int(0 - m) else if m < 0x8000_0000 then Int(m) else UInt(m))
    else
      var r := scan(NumeralText(n));
      if r.Some? then Some(Real(r.value)) else None
  }

  // ---- documents (sections 3 to 5) ----

  datatype Json =
    | JsonNull | JsonTrue | JsonFalse
    | JsonNumber(n: Numeral)
    | JsonString(cs: seq<Char>)
    | JsonArray(items: seq<Json>)
    | JsonObject(members: seq<Member>)

  datatype Member = Member(name: seq<Char>, value: Json)

  predicate Valid(j: Json, scan: bytes -> Option<real>)
    decreases j
  {
    match j
    case JsonNumber(n) => ValidNumeral(n) && NumeralValue(n, scan).Some?
    case JsonString(cs) => ValidString(cs)
    case JsonArray(items) => forall k | 0 <= k < |items| :: Valid(items[k], scan)
    case JsonObject(ms) => forall k | 0 <= k < |ms| :: ValidString(ms[k].name) && Valid(ms[k].value, scan)
    case _ => true
  }

  function NameOctets(m: Member): bytes
    requires ValidString(m.name)
  {
    StringOctets(m.name)
  }

  /** What a document denotes. Members are stored in order, so that the last of one name stays. */
  function Meaning(j: Json, scan: bytes -> Option<real>): Value
    requires Valid(j, scan)
    decreases j, 0
  {
    match j
    case JsonNull => Null
    case JsonTrue => Bool(true)
    case JsonFalse => Bool(false)
    case JsonNumber(n) => NumeralValue(n, scan).value
    case JsonString(cs) => String(StringOctets(cs))
    case JsonArray(items) => Array(ItemsMeaning(items, |items|, scan))
    case JsonObject(ms) => Object(MembersMeaning(ms, |ms|, scan))
  }

  /** The first `n` items, under their indices. */
  function ItemsMeaning(items: seq<Json>, n: nat, scan: bytes -> Option<real>): seq<Entry>
    requires n <= |items| && forall k | 0 <= k < |items| :: Valid(items[k], scan)
    decreases items, 1, n
  {
    if n == 0 then []
    else
      assert (items decreases to items[n - 1]);
      ItemsMeaning(items, n - 1, scan) + [Entry(Index(n - 1), Meaning(items[n - 1], scan))]
  }

  /** The first `n` members. */
  function MembersMeaning(ms: seq<Member>, n: nat, scan: bytes -> Option<real>): seq<Entry>
    requires n <= |ms| && forall k | 0 <= k < |ms| :: ValidString(ms[k].name) && Valid(ms[k].value, scan)
    decreases ms, 1, n
  {
    if n == 0 then []
    else
      assert (ms decreases to ms[n - 1]);
      Put(MembersMeaning(ms, n - 1, scan), Name(NameOctets(ms[n - 1])), Meaning(ms[n - 1].value, scan))
  }

  /** How deep arrays, objects and scalars nest. */
  function Nesting(j: Json): nat
    decreases j, 0
  {
    match j
    case JsonArray(items) => 1 + ItemsNesting(items, 0)
    case JsonObject(ms) => 1 + MembersNesting(ms, 0)
    case _ => 1
  }

  function Larger(a: nat, b: nat): nat {
    if a < b then b else a
  }

  function ItemsNesting(items: seq<Json>, i: nat): nat
    decreases items, 1, |items| - i
  {
    if i >= |items| then 0
    else
      assert (items decreases to items[i]);
      Larger(Nesting(items[i]), ItemsNesting(items, i + 1))
  }

  function MembersNesting(ms: seq<Member>, i: nat): nat
    decreases ms, 1, |ms| - i
  {
    if i >= |ms| then 0
    else
      assert (ms decreases to ms[i]);
      Larger(Nesting(ms[i].value), MembersNesting(ms, i + 1))
  }

  // ---- tokens and texts (section 2) ----

  datatype Tok = Mark(c: byte) | NullTok | TrueTok | FalseTok | NumTok(n: Numeral) | StrTok(cs: seq<Char>)

  predicate ValidTok(t: Tok) {
    match t
    case Mark(c) => c in {0x5B, 0x7B, 0x5D, 0x7D, 0x3A, 0x2C}
    case NumTok(n) => ValidNumeral(n)
    case StrTok(cs) => ValidString(cs)
    case _ => true
  }

  function TokText(t: Tok): bytes {
    match t
    case Mark(c) => [c]
    case NullTok => [0x6E, 0x75, 0x6C, 0x6C]
    case TrueTok => [0x74, 0x72, 0x75, 0x65]
    case FalseTok => [0x66, 0x61, 0x6C, 0x73, 0x65]
    case NumTok(n) => NumeralText(n)
    case StrTok(cs) => [0x22] + StringText(cs) + [0x22]
  }

  function Toks(j: Json): seq<Tok>
    decreases j, 0
  {
    match j
    case JsonNull => [NullTok]
    case JsonTrue => [TrueTok]
    case JsonFalse => [FalseTok]
    case JsonNumber(n) => [NumTok(n)]
    case JsonString(cs) => [StrTok(cs)]
    case JsonArray(items) => [Mark(0x5B)] + (ItemsToks(items, 0) + [Mark(0x5D)])
    case JsonObject(ms) => [Mark(0x7B)] + (MembersToks(ms, 0) + [Mark(0x7D)])
  }

  function CommaTok(i: nat): seq<Tok> {
    if i > 0 then [Mark(0x2C)] else []
  }

  function ItemsToks(items: seq<Json>, i: nat): seq<Tok>
    decreases items, 1, |items| - i
  {
    if i >= |items| then []
    else
      assert (items decreases to items[i]);
      CommaTok(i) + (Toks(items[i]) + ItemsToks(items, i + 1))
  }

  function MembersToks(ms: seq<Member>, i: nat): seq<Tok>
    decreases ms, 1, |ms| - i
  {
    if i >= |ms| then []
    else
      assert (ms decreases to ms[i]);
      CommaTok(i) + ([StrTok(ms[i].name), Mark(0x3A)] + (Toks(ms[i].value) + MembersToks(ms, i + 1)))
  }

  predicate IsWhite(c: byte) {
    c == 0x20 || c == 0x09 || c == 0x0A || c == 0x0D
  }

  function Strip(t: bytes): bytes {
    if t != [] && IsWhite(t[0]) then Strip(t[1..]) else t
  }

  /** The tokens in order, with any white space before, between and behind them. */
  predicate Spaced(t: bytes, toks: seq<Tok>)
    decreases toks
  {
    var s := Strip(t);
    if toks == [] then s == [] else TokText(toks[0]) <= s && Spaced(s[|TokText(toks[0])|..], toks[1..])
  }

  /** `text` is a JSON text for document `j`. */
  predicate IsText(text: bytes, j: Json, scan: bytes -> Option<real>) {
    Valid(j, scan) && Spaced(text, Toks(j))
  }

  // ---- duplicate names (section 4) ----

  /** Member `k` is the last of its name among the first `n`. */
  predicate LastOfName(ms: seq<Member>, k: nat, n: nat)
    requires n <= |ms| && forall i | 0 <= i < |ms| :: ValidString(ms[i].name)
  {
    k < n && forall i | k < i < n :: NameOctets(ms[i]) != NameOctets(ms[k])
  }

  /** The object is a map in key order, and has an entry exactly for the last member of each name. */
  lemma {:induction false} LastOneWins(ms: seq<Member>, n: nat, scan: bytes -> Option<real>, name: bytes, w: Value)
    requires n <= |ms| && forall k | 0 <= k < |ms| :: ValidString(ms[k].name) && Valid(ms[k].value, scan)
    ensures IsMap(MembersMeaning(ms, n, scan), false)
    ensures Lookup(MembersMeaning(ms, n, scan), Name(name)) == Some(w) <==>
            exists k | 0 <= k < n :: LastOfName(ms, k, n) && NameOctets(ms[k]) == name && Meaning(ms[k].value, scan) == w
    decreases n
  {
    hide Meaning, Put, Lookup, StringOctets, Valid, ValidString;
    if n > 0 {
      var m, es := ms[n - 1], MembersMeaning(ms, n - 1, scan);
      LastOneWins(ms, n - 1, scan, name, w);
      PutIsMap(es, Name(NameOctets(m)), Meaning(m.value, scan), false);
      LookupPut(es, Name(NameOctets(m)), Meaning(m.value, scan), Name(name), false);
      if NameOctets(m) == name {
        assert LastOfName(ms, n - 1, n);
      } else {
        forall k | 0 <= k < n - 1 && NameOctets(ms[k]) == name ensures LastOfName(ms, k, n) <==> LastOfName(ms, k, n - 1) {
        }
      }
    } else {
      NothingThere(name);
    }
  }

  lemma NothingThere(name: bytes)
    ensures Lookup([], Name(name)) == None
  {
  }

  /** The same said of the entries themselves. */
  lemma ObjectEntries(ms: seq<Member>, scan: bytes -> Option<real>, name: bytes, w: Value)
    requires Valid(JsonObject(ms), scan)
    ensures var v := Meaning(JsonObject(ms), scan);
            (exists i | 0 <= i < |v.entries| :: v.entries[i] == Entry(Name(name), w)) <==>
            exists k | 0 <= k < |ms| :: LastOfName(ms, k, |ms|) && NameOctets(ms[k]) == name && Meaning(ms[k].value, scan) == w
  {
    hide MembersMeaning, Lookup, LastOfName, StringOctets, IsMap, Meaning, Valid;
    ObjectMeans(ms, scan);
    var es := MembersMeaning(ms, |ms|, scan);
    LastOneWins(ms, |ms|, scan, name, w);
    EntryOrLookup(es, name, w);
  }

  lemma ObjectMeans(ms: seq<Member>, scan: bytes -> Option<real>)
    requires Valid(JsonObject(ms), scan)
    ensures forall k | 0 <= k < |ms| :: ValidString(ms[k].name) && Valid(ms[k].value, scan)
    ensures Meaning(JsonObject(ms), scan) == Object(MembersMeaning(ms, |ms|, scan))
  {
    hide MembersMeaning;
  }

  lemma EntryOrLookup(es: seq<Entry>, name: bytes, w: Value)
    requires IsMap(es, false)
    ensures (exists i | 0 <= i < |es| :: es[i] == Entry(Name(name), w)) <==> Lookup(es, Name(name)) == Some(w)
  {
    hide Lookup;
    if Lookup(es, Name(name)).Some? {
      var i := LookupFinds(es, Name(name), false);
    }
    if i: nat :| i < |es| && es[i] == Entry(Name(name), w) {
      LookupAt(es, false, i);
    }
  }
}
