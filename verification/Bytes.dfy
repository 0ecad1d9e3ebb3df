/** Octets, and the unsigned lexicographic comparison of byte strings that `memcmp` gives. */
module Bytes {
  type byte = b: int | 0 <= b < 256
  type bytes = seq<byte>

  /** The octet at `p`, or the zero that `c_str()` guarantees after the last octet. */
  function At(text: bytes, p: nat): byte {
    if p < |text| then text[p] else 0
  }

  /** `text` reads `part` from position `p` on. */
  predicate Has(text: bytes, p: nat, part: bytes) {
    p + |part| <= |text| && text[p..p + |part|] == part
  }

  lemma HasConcat(text: bytes, p: nat, a: bytes, b: bytes)
    requires Has(text, p, a + b)
    ensures Has(text, p, a) && Has(text, p + |a|, b)
  {
    var whole := text[p..p + |a + b|];
    assert text[p..p + |a|] == whole[..|a|] == a;
    assert text[p + |a|..p + |a| + |b|] == whole[|a|..] == b;
  }

  lemma HasByte(text: bytes, p: nat, part: bytes, i: nat)
    requires Has(text, p, part) && i < |part|
    ensures p + i < |text| && text[p + i] == part[i]
  {
    assert text[p..p + |part|][i] == text[p + i];
  }

  /** First difference among the first `n` octets, as `memcmp` reports it. */
  function Memcmp(a: bytes, b: bytes, n: nat): int
    requires n <= |a| && n <= |b|
  {
    if n == 0 then 0
    else if a[0] != b[0] then a[0] - b[0]
    else Memcmp(a[1..], b[1..], n - 1)
  }

  function Min(m: nat, n: nat): nat {
    if m < n then m else n
  }

  /** The order that both `CZString::operator<` and the string case of `Value::operator<` use. */
  predicate BytesLess(a: bytes, b: bytes) {
    var c := Memcmp(a, b, Min(|a|, |b|));
    if c != 0 then c < 0 else |a| < |b|
  }

  lemma BytesLessUnfold(a: bytes, b: bytes)
    requires a != [] && b != []
    ensures BytesLess(a, b) <==> a[0] < b[0] || (a[0] == b[0] && BytesLess(a[1..], b[1..]))
  {
  }

  lemma {:induction false} BytesTrichotomy(a: bytes, b: bytes)
    ensures (a == b) <==> !BytesLess(a, b) && !BytesLess(b, a)
    ensures !(BytesLess(a, b) && BytesLess(b, a))
  {
    if a != [] && b != [] {
      BytesLessUnfold(a, b);
      BytesLessUnfold(b, a);
      BytesTrichotomy(a[1..], b[1..]);
      assert a == [a[0]] + a[1..] && b == [b[0]] + b[1..];
    }
  }

  lemma {:induction false} BytesTransitive(a: bytes, b: bytes, c: bytes)
    requires BytesLess(a, b) && BytesLess(b, c)
    ensures BytesLess(a, c)
  {
    if a != [] {
      BytesLessUnfold(a, b);
      BytesLessUnfold(b, c);
      BytesLessUnfold(a, c);
      if a[0] == b[0] && b[0] == c[0] {
        BytesTransitive(a[1..], b[1..], c[1..]);
      }
    }
  }
}
