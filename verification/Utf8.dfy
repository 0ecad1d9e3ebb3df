/** The streaming UTF-8 validator, proved to accept exactly the grammar of RFC 3629 section 4. */
module Utf8 {
  import opened Bytes

  // ---- RFC 3629 section 4, the ABNF of UTF8-char ----

  predicate Tail(b: byte) {
    0x80 <= b <= 0xBF
  }

  /** Which second octets may follow lead octet `b` (for leads of two octets and more). */
  predicate Second(b: byte, c: byte) {
    if b == 0xE0 then 0xA0 <= c <= 0xBF
    else if b == 0xED then 0x80 <= c <= 0x9F
    else if b == 0xF0 then 0x90 <= c <= 0xBF
    else if b == 0xF4 then 0x80 <= c <= 0x8F
    else Tail(c)
  }

  function CharLength(b: byte): nat {
    if b <= 0x7F then 1
    else if 0xC2 <= b <= 0xDF then 2
    else if 0xE0 <= b <= 0xEF then 3
    else if 0xF0 <= b <= 0xF4 then 4
    else 0
  }

  predicate IsChar(c: bytes) {
    && 1 <= |c| <= 4
    && |c| == CharLength(c[0])
    && (|c| >= 2 ==> Second(c[0], c[1]))
    && (|c| >= 3 ==> Tail(c[2]))
    && (|c| == 4 ==> Tail(c[3]))
  }

  /** The payload bits of an octet whose fixed high bits are `mark`. */
  function Bits(b: byte, mark: int): nat
    requires mark <= b
  {
    b - mark
  }

  /** The scalar value that a UTF8-char carries (RFC 3629 section 3). */
  function Scalar(c: bytes): nat
    requires IsChar(c)
  {
    if |c| == 1 then c[0]
    else if |c| == 2 then Bits(c[0], 0xC0) * 64 + Bits(c[1], 0x80)
    else if |c| == 3 then Bits(c[0], 0xE0) * 4096 + Bits(c[1], 0x80) * 64 + Bits(c[2], 0x80)
    else Bits(c[0], 0xF0) * 262144 + Bits(c[1], 0x80) * 4096 + Bits(c[2], 0x80) * 64 + Bits(c[3], 0x80)
  }

  predicate IsScalar(n: nat) {
    n <= 0x10FFFF && !(0xD800 <= n <= 0xDFFF)
  }

  lemma ScalarIsScalar(c: bytes)
    requires IsChar(c)
    ensures IsScalar(Scalar(c))
  {
  }

  function Flatten(parts: seq<bytes>): bytes {
    if parts == [] then [] else parts[0] + Flatten(parts[1..])
  }

  ghost predicate AllChars(parts: seq<bytes>) {
    forall i | 0 <= i < |parts| :: IsChar(parts[i])
  }

  /** UTF8-octets = *( UTF8-char ) */
  ghost predicate WellFormedUtf8(s: bytes) {
    exists parts: seq<bytes> :: AllChars(parts) && Flatten(parts) == s
  }

  // ---- the table-driven automaton ----

  /** `utf8d`, sixteen entries a row: rows 0-15 classify octets, row 16 + s is state s. */
  const UTF8D: seq<seq<nat>> := [
    [0, 0, 0, 0, 0, 0, 0, 0, 0, 0, 0, 0, 0, 0, 0, 0],  // 00..0f
    [0, 0, 0, 0, 0, 0, 0, 0, 0, 0, 0, 0, 0, 0, 0, 0],
    [0, 0, 0, 0, 0, 0, 0, 0, 0, 0, 0, 0, 0, 0, 0, 0],
    [0, 0, 0, 0, 0, 0, 0, 0, 0, 0, 0, 0, 0, 0, 0, 0],
    [0, 0, 0, 0, 0, 0, 0, 0, 0, 0, 0, 0, 0, 0, 0, 0],
    [0, 0, 0, 0, 0, 0, 0, 0, 0, 0, 0, 0, 0, 0, 0, 0],
    [0, 0, 0, 0, 0, 0, 0, 0, 0, 0, 0, 0, 0, 0, 0, 0],
    [0, 0, 0, 0, 0, 0, 0, 0, 0, 0, 0, 0, 0, 0, 0, 0],
    [1, 1, 1, 1, 1, 1, 1, 1, 1, 1, 1, 1, 1, 1, 1, 1],  // 80..8f
    [9, 9, 9, 9, 9, 9, 9, 9, 9, 9, 9, 9, 9, 9, 9, 9],
    [7, 7, 7, 7, 7, 7, 7, 7, 7, 7, 7, 7, 7, 7, 7, 7],
    [7, 7, 7, 7, 7, 7, 7, 7, 7, 7, 7, 7, 7, 7, 7, 7],
    [8, 8, 2, 2, 2, 2, 2, 2, 2, 2, 2, 2, 2, 2, 2, 2],  // c0..cf
    [2, 2, 2, 2, 2, 2, 2, 2, 2, 2, 2, 2, 2, 2, 2, 2],
    [10, 3, 3, 3, 3, 3, 3, 3, 3, 3, 3, 3, 3, 4, 3, 3],
    [11, 6, 6, 6, 5, 8, 8, 8, 8, 8, 8, 8, 8, 8, 8, 8],
    [0, 1, 2, 3, 5, 8, 7, 1, 1, 1, 4, 6, 1, 1, 1, 1],  // s0
    [1, 1, 1, 1, 1, 1, 1, 1, 1, 1, 1, 1, 1, 1, 1, 1],
    [1, 0, 1, 1, 1, 1, 1, 0, 1, 0, 1, 1, 1, 1, 1, 1],
    [1, 2, 1, 1, 1, 1, 1, 2, 1, 2, 1, 1, 1, 1, 1, 1],
    [1, 1, 1, 1, 1, 1, 1, 2, 1, 1, 1, 1, 1, 1, 1, 1],
    [1, 2, 1, 1, 1, 1, 1, 1, 1, 2, 1, 1, 1, 1, 1, 1],
    [1, 1, 1, 1, 1, 1, 1, 3, 1, 3, 1, 1, 1, 1, 1, 1],
    [1, 3, 1, 1, 1, 1, 1, 3, 1, 3, 1, 1, 1, 1, 1, 1],
    [1, 3, 1, 1, 1, 1, 1, 1, 1, 1, 1, 1, 1, 1, 1, 1]
  ]

  const ACCEPT: nat := 0
  const REJECT: nat := 1

  datatype Dfa = Dfa(state: nat, codep: nat)

  predicate Live(d: Dfa) {
    d.state <= 8 && d.codep < 0x1_0000_0000
  }

  function Class(b: byte): nat {
    UTF8D[b / 16][b % 16]
  }

  /** `(0xff >> type) & byte` */
  function LeadBits(type_: nat, b: byte): nat {
    if type_ >= 8 then 0 else b % [256, 128, 64, 32, 16, 8, 4, 2][type_]
  }

  /** `decode`: `codep` is a 32-bit unsigned integer, so the left shift drops high bits. */
  function TableStep(d: Dfa, b: byte): Dfa
    requires Live(d)
  {
    var type_ := Class(b);
    ClassBound(b);
    var codep := if d.state != ACCEPT then b % 64 + d.codep % 0x400_0000 * 64 else LeadBits(type_, b);
    StateBound(d.state, type_);
    Dfa(UTF8D[16 + d.state][type_], codep)
  }

  lemma ClassBound(b: byte)
    ensures Class(b) <= 11
  {
    var r, c := b / 16, b % 16;
    assert |UTF8D[r]| == 16;
  }

  lemma StateBound(s: nat, t: nat)
    requires s <= 8 && t <= 11
    ensures |UTF8D[16 + s]| == 16 && UTF8D[16 + s][t] <= 8
  {
  }

  /** The octet classes of the table, by ranges. */
  function ClassRange(b: byte): nat {
    if b <= 0x7F then 0
    else if b <= 0x8F then 1
    else if b <= 0x9F then 9
    else if b <= 0xBF then 7
    else if b <= 0xC1 then 8
    else if b <= 0xDF then 2
    else if b == 0xE0 then 10
    else if b == 0xED then 4
    else if b <= 0xEF then 3
    else if b == 0xF0 then 11
    else if b <= 0xF3 then 6
    else if b == 0xF4 then 5
    else 8
  }

  lemma AsciiRows(r: nat, c: nat)
    requires r < 8 && c < 16
    ensures UTF8D[r][c] == 0
  {
  }

  lemma TailRows(r: nat, c: nat)
    requires 8 <= r < 12 && c < 16
    ensures UTF8D[r][c] == if r == 8 then 1 else if r == 9 then 9 else 7
  {
  }

  lemma LeadRows(c: nat)
    requires c < 16
    ensures UTF8D[12][c] == if c < 2 then 8 else 2
    ensures UTF8D[13][c] == 2
    ensures UTF8D[14][c] == if c == 0 then 10 else if c == 13 then 4 else 3
    ensures UTF8D[15][c] == if c == 0 then 11 else if c < 4 then 6 else if c == 4 then 5 else 8
  {
  }

  lemma ClassIsRange(b: byte)
    ensures Class(b) == ClassRange(b)
  {
    var r, c := b / 16, b % 16;
    if r < 8 {
      AsciiRows(r, c);
    } else if r < 12 {
      TailRows(r, c);
    } else {
      LeadRows(c);
    }
  }

  /** State after the lead octet `b`. */
  function LeadState(b: byte): nat {
    match CharLength(b)
    case 1 => 0
    case 2 => 2
    case 3 => if b == 0xE0 then 4 else if b == 0xED then 5 else 3
    case 4 => if b == 0xF0 then 6 else if b == 0xF4 then 8 else 7
    case _ => 1
  }

  /** The fixed high bits of a lead octet. */
  function LeadMark(b: byte): nat {
    match CharLength(b)
    case 2 => 0xC0
    case 3 => 0xE0
    case 4 => 0xF0
    case _ => 0
  }

  /** What an unfinished state expects next, and where it then goes. */
  predicate Allowed(s: nat, b: byte) {
    match s
    case 4 => 0xA0 <= b <= 0xBF
    case 5 => 0x80 <= b <= 0x9F
    case 6 => 0x90 <= b <= 0xBF
    case 8 => 0x80 <= b <= 0x8F
    case _ => Tail(b)
  }

  function After(s: nat): nat {
    if s == 2 then 0 else if s <= 5 then 2 else 3
  }

  /** The automaton that the table encodes, stated by octet ranges. */
  function Step(d: Dfa, b: byte): (r: Dfa)
    requires Live(d)
    ensures Live(r)
  {
    if d.state == ACCEPT then Dfa(LeadState(b), LeadBits(ClassRange(b), b))
    else
      var codep := b % 64 + d.codep % 0x400_0000 * 64;
      Dfa(if d.state != REJECT && Allowed(d.state, b) then After(d.state) else REJECT, codep)
  }

  lemma TransitionRows(s: nat, t: nat)
    requires 2 <= s <= 8 && t <= 11
    ensures UTF8D[16 + s][t] ==
            if t == 1 then (if s == 4 || s == 6 then 1 else After(s))
            else if t == 7 then (if s == 5 || s == 8 then 1 else After(s))
            else if t == 9 then (if s == 4 || s == 8 then 1 else After(s))
            else 1
  {
  }

  lemma FirstRows(b: byte)
    ensures UTF8D[16][ClassRange(b)] == LeadState(b)
    ensures UTF8D[17][ClassRange(b)] == REJECT
  {
    assert UTF8D[16] == [0, 1, 2, 3, 5, 8, 7, 1, 1, 1, 4, 6, 1, 1, 1, 1];
    assert UTF8D[17] == [1, 1, 1, 1, 1, 1, 1, 1, 1, 1, 1, 1, 1, 1, 1, 1];
  }

  /** The table is that automaton. */
  lemma TableIsStep(d: Dfa, b: byte)
    requires Live(d)
    ensures TableStep(d, b) == Step(d, b)
  {
    ClassIsRange(b);
    ClassBound(b);
    StateBound(d.state, Class(b));
    hide Class, UTF8D;
    if d.state <= 1 {
      FirstRows(b);
    } else {
      TransitionRows(d.state, ClassRange(b));
    }
  }

  function Run(d: Dfa, s: bytes): (r: Dfa)
    requires Live(d)
    ensures Live(r)
    decreases s
  {
    if s == [] then d else Run(Step(d, s[0]), s[1..])
  }

  const START := Dfa(ACCEPT, 0)

  lemma LeadStep(d: Dfa, b: byte)
    requires Live(d) && d.state == ACCEPT && CharLength(b) > 0
    ensures Step(d, b) == Dfa(LeadState(b), Bits(b, LeadMark(b)))
  {
  }

  lemma TailStep(d: Dfa, b: byte)
    requires Live(d) && 2 <= d.state <= 8 && Allowed(d.state, b) && d.codep < 0x400_0000
    ensures Step(d, b) == Dfa(After(d.state), d.codep * 64 + Bits(b, 0x80))
  {
  }

  lemma {:induction false} RejectAbsorbs(d: Dfa, s: bytes)
    requires Live(d) && d.state == REJECT
    ensures Run(d, s).state == REJECT
    decreases s
  {
    if s != [] {
      RejectAbsorbs(Step(d, s[0]), s[1..]);
    }
  }

  /** Feeding in two chunks is feeding their concatenation. */
  lemma {:induction false} RunConcat(d: Dfa, a: bytes, b: bytes)
    requires Live(d)
    ensures Run(Run(d, a), b) == Run(d, a + b)
    decreases a
  {
    if a == [] {
      assert a + b == b;
    } else {
      assert (a + b)[1..] == a[1..] + b;
      RunConcat(Step(d, a[0]), a[1..], b);
    }
  }

  lemma RunPrefix(d: Dfa, s: bytes, n: nat)
    requires Live(d) && n < |s|
    ensures Run(d, s[..n + 1]) == Step(Run(d, s[..n]), s[n])
    ensures Run(d, s) == Run(Run(d, s[..n + 1]), s[n + 1..])
  {
    assert s[..n + 1] == s[..n] + [s[n]] && s == s[..n + 1] + s[n + 1..];
    RunConcat(d, s[..n], [s[n]]);
    RunConcat(d, s[..n + 1], s[n + 1..]);
  }

  /** A UTF8-char takes the automaton from accept to accept, and leaves its scalar value. */
  lemma CharRun(d: Dfa, c: bytes)
    requires Live(d) && d.state == ACCEPT && IsChar(c)
    ensures Run(d, c) == Dfa(ACCEPT, Scalar(c))
  {
    RunPrefix(d, c, 0);
    LeadStep(d, c[0]);
    assert c[..|c|] == c;
    if |c| >= 2 {
      RunPrefix(d, c, 1);
      TailStep(Run(d, c[..1]), c[1]);
    }
    if |c| >= 3 {
      RunPrefix(d, c, 2);
      TailStep(Run(d, c[..2]), c[2]);
    }
    if |c| == 4 {
      RunPrefix(d, c, 3);
      TailStep(Run(d, c[..3]), c[3]);
    }
  }

  /** A run from accept to accept starts with a UTF8-char. */
  lemma FirstChar(d: Dfa, s: bytes) returns (n: nat)
    requires Live(d) && d.state == ACCEPT && s != [] && Run(d, s).state == ACCEPT
    ensures 1 <= n <= |s| && IsChar(s[..n])
  {
    n := CharLength(s[0]);
    RunPrefix(d, s, 0);
    if n == 0 {
      RejectAbsorbs(Run(d, s[..1]), s[1..]);
      assert false;
    }
    var k := 1;
    while k < n
      invariant 1 <= k <= n && k <= |s|
      invariant forall i | 1 <= i < k :: if i == 1 then Second(s[0], s[1]) else Tail(s[i])
      invariant k < n ==> Run(d, s[..k]).state == if k == 1 then LeadState(s[0]) else n - k + 1
    {
      assert s[..|s|] == s;
      RunPrefix(d, s, k);
      if !Allowed(Run(d, s[..k]).state, s[k]) {
        RejectAbsorbs(Run(d, s[..k + 1]), s[k + 1..]);
        assert false;
      }
      k := k + 1;
    }
  }

  lemma {:induction false} SplitAccepted(d: Dfa, s: bytes) returns (parts: seq<bytes>)
    requires Live(d) && d.state == ACCEPT && Run(d, s).state == ACCEPT
    ensures AllChars(parts) && Flatten(parts) == s
    ensures s != [] ==> parts != [] && Run(d, s).codep == Scalar(parts[|parts| - 1])
    decreases s
  {
    if s == [] {
      parts := [];
    } else {
      var n := FirstChar(d, s);
      assert s == s[..n] + s[n..];
      RunConcat(d, s[..n], s[n..]);
      CharRun(d, s[..n]);
      var rest := SplitAccepted(Run(d, s[..n]), s[n..]);
      parts := [s[..n]] + rest;
    }
  }

  lemma {:induction false} CharsAccepted(d: Dfa, parts: seq<bytes>)
    requires Live(d) && d.state == ACCEPT && AllChars(parts)
    ensures Run(d, Flatten(parts)).state == ACCEPT
    decreases parts
  {
    if parts != [] {
      CharRun(d, parts[0]);
      RunConcat(d, parts[0], Flatten(parts[1..]));
      CharsAccepted(Run(d, parts[0]), parts[1..]);
    }
  }

  /** The automaton accepts exactly the well-formed octet sequences. */
  lemma AcceptsExactly(d: Dfa, s: bytes)
    requires Live(d) && d.state == ACCEPT
    ensures Run(d, s).state == ACCEPT <==> WellFormedUtf8(s)
  {
    if Run(d, s).state == ACCEPT {
      var parts := SplitAccepted(d, s);
    }
    if WellFormedUtf8(s) {
      var parts: seq<bytes> :| AllChars(parts) && Flatten(parts) == s;
      CharsAccepted(d, parts);
    }
  }

  lemma {:induction false} FlattenSnoc(parts: seq<bytes>, c: bytes)
    ensures Flatten(parts + [c]) == Flatten(parts) + c
  {
    if parts == [] {
      assert parts + [c] == [c];
    } else {
      assert (parts + [c])[1..] == parts[1..] + [c];
      FlattenSnoc(parts[1..], c);
    }
  }

  /** Whenever the automaton is back in accept, `codep` is the scalar value just completed. */
  lemma CodepointJustCompleted(s: bytes) returns (before: bytes, c: bytes)
    requires s != [] && Run(START, s).state == ACCEPT
    ensures s == before + c && WellFormedUtf8(before) && IsChar(c)
    ensures Run(START, s).codep == Scalar(c) && IsScalar(Scalar(c))
  {
    var parts := SplitAccepted(START, s);
    var n := |parts| - 1;
    c := parts[n];
    before := Flatten(parts[..n]);
    FlattenSnoc(parts[..n], c);
    assert parts == parts[..n] + [c];
    ScalarIsScalar(c);
  }

  lemma WellFormedConcat(a: bytes, b: bytes)
    requires WellFormedUtf8(a)
    ensures WellFormedUtf8(a + b) <==> WellFormedUtf8(b)
  {
    AcceptsExactly(START, a);
    RunConcat(START, a, b);
    AcceptsExactly(Run(START, a), b);
    AcceptsExactly(START, a + b);
  }

  // ---- class validator ----

  class Validator {
    var state: nat
    var codepoint: nat

    ghost predicate Valid()
      reads this
    {
      Live(Dfa(state, codepoint))
    }

    ghost function Model(): Dfa
      reads this
    {
      Dfa(state, codepoint)
    }

    constructor ()
      ensures Valid() && Model() == START
    {
      state, codepoint := ACCEPT, 0;
    }

    method DecodeByte(b: byte) returns (result: nat)
      requires Valid()
      modifies this
      ensures Valid() && Model() == Step(old(Model()), b) && result == state
    {
      TableIsStep(Dfa(state, codepoint), b);
      var next := TableStep(Dfa(state, codepoint), b);
      state, codepoint := next.state, next.codep;
      return state;
    }

    method Consume(b: byte) returns (ok: bool)
      requires Valid()
      modifies this
      ensures Valid() && Model() == Step(old(Model()), b) && ok == (state != REJECT)
    {
      var result := DecodeByte(b);
      return result != REJECT;
    }

    /**
      * `decode` over a range: stops at the first rejection, from which nothing recovers but
      * `reset`. An empty range answers true in every state, rejected or not.
      */
    method Decode(chunk: bytes) returns (ok: bool)
      requires Valid()
      modifies this
      ensures Valid() && ok == (chunk == [] || Run(old(Model()), chunk).state != REJECT)
      ensures ok ==> Model() == Run(old(Model()), chunk)
      ensures !ok ==> state == REJECT
    {
      for i := 0 to |chunk|
        invariant Valid() && Model() == Run(old(Model()), chunk[..i])
        invariant i > 0 ==> state != REJECT
      {
        RunPrefix(old(Model()), chunk, i);
        var result := DecodeByte(chunk[i]);
        if result == REJECT {
          RejectAbsorbs(Model(), chunk[i + 1..]);
          return false;
        }
      }
      assert chunk[..|chunk|] == chunk;
      return true;
    }

    method Complete() returns (done: bool)
      ensures done == (state == ACCEPT)
    {
      return state == ACCEPT;
    }

    method Reset()
      modifies this
      ensures Valid() && Model() == START
    {
      state, codepoint := ACCEPT, 0;
    }
  }

  /** `validate`: true exactly on the concatenations of UTF8-char. */
  method Validate(s: bytes) returns (ok: bool)
    ensures ok <==> WellFormedUtf8(s)
  {
    AcceptsExactly(START, s);
    var v := new Validator();
    var good := v.Decode(s);
    if !good {
      return false;
    }
    ok := v.Complete();
  }

  /**
    * However a text is cut into chunks, streaming it through one validator and asking at the end
    * whether every `decode` and `complete` said yes gives the verdict on the whole text.
    */
  method ValidateChunks(chunks: seq<bytes>) returns (ok: bool)
    ensures ok <==> WellFormedUtf8(Flatten(chunks))
  {
    var v := new Validator();
    ok := true;
    for i := 0 to |chunks|
      invariant v.Valid() && fresh(v)
      invariant v.state == REJECT <==> Run(START, Flatten(chunks[..i])).state == REJECT
      invariant ok <==> v.state != REJECT
      invariant ok ==> v.Model() == Run(START, Flatten(chunks[..i]))
    {
      assert chunks[..i + 1] == chunks[..i] + [chunks[i]];
      FlattenSnoc(chunks[..i], chunks[i]);
      RunConcat(START, Flatten(chunks[..i]), chunks[i]);
      if v.state == REJECT {
        RejectAbsorbs(v.Model(), chunks[i]);
        RejectAbsorbs(Run(START, Flatten(chunks[..i])), chunks[i]);
      }
      var good := v.Decode(chunks[i]);
      ok := ok && good;
    }
    assert chunks[..|chunks|] == chunks;
    AcceptsExactly(START, Flatten(chunks));
    var done := v.Complete();
    ok := ok && done;
  }
}
