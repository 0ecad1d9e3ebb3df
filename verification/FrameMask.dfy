/** The four masking routines of WebSocket frames (RFC 6455 section 5.3). */
module FrameMask {
  import opened Bytes

  // ---- bitwise operations on bytes ----

  function BitXor(a: nat, b: nat, bits: nat): (r: nat) {
    if bits == 0 then 0 else (if a % 2 != b % 2 then 1 else 0) + 2 * BitXor(a / 2, b / 2, bits - 1)
  }

  function BitOr(a: nat, b: nat, bits: nat): (r: nat) {
    if bits == 0 then 0 else (if a % 2 == 1 || b % 2 == 1 then 1 else 0) + 2 * BitOr(a / 2, b / 2, bits - 1)
  }

  function Pow2(n: nat): nat {
    if n == 0 then 1 else 2 * Pow2(n - 1)
  }

  lemma {:induction false} BitBounds(a: nat, b: nat, bits: nat)
    ensures BitXor(a, b, bits) < Pow2(bits) && BitOr(a, b, bits) < Pow2(bits)
  {
    if bits > 0 {
      BitBounds(a / 2, b / 2, bits - 1);
    }
  }

  function XorByte(a: byte, b: byte): byte {
    BitBounds(a, b, 8);
    assert Pow2(8) == 256;
    BitXor(a, b, 8)
  }

  function OrByte(a: byte, b: byte): byte {
    BitBounds(a, b, 8);
    assert Pow2(8) == 256;
    BitOr(a, b, 8)
  }

  /** Bit `i`, counting from the least significant. */
  predicate Bit(x: nat, i: nat)
    decreases i
  {
    if i == 0 then x % 2 == 1 else Bit(x / 2, i - 1)
  }

  /** `r` has a bit set exactly where `a` and `b` differ. */
  ghost predicate IsXor(r: byte, a: byte, b: byte) {
    forall i | 0 <= i < 8 :: Bit(r, i) <==> Bit(a, i) != Bit(b, i)
  }

  lemma {:induction false} BitOfXor(a: nat, b: nat, bits: nat, i: nat)
    requires i < bits
    ensures Bit(BitXor(a, b, bits), i) <==> Bit(a, i) != Bit(b, i)
  {
    hide BitXor;
    XorHalves(a, b, bits);
    if i > 0 {
      BitOfXor(a / 2, b / 2, bits - 1, i - 1);
    }
  }

  lemma XorHalves(a: nat, b: nat, bits: nat)
    requires bits > 0
    ensures BitXor(a, b, bits) / 2 == BitXor(a / 2, b / 2, bits - 1)
    ensures BitXor(a, b, bits) % 2 == 1 <==> a % 2 != b % 2
  {
  }

  lemma XorIsXor(a: byte, b: byte)
    ensures IsXor(XorByte(a, b), a, b)
  {
    hide Bit, BitXor;
    forall i | 0 <= i < 8 ensures Bit(XorByte(a, b), i) <==> Bit(a, i) != Bit(b, i) {
      BitOfXor(a, b, 8, i);
    }
  }

  lemma {:induction false} BitXorTwice(a: nat, k: nat, bits: nat)
    requires a < Pow2(bits)
    ensures BitXor(BitXor(a, k, bits), k, bits) == a
  {
    if bits > 0 {
      var x := BitXor(a, k, bits);
      assert x / 2 == BitXor(a / 2, k / 2, bits - 1);
      BitXorTwice(a / 2, k / 2, bits - 1);
    }
  }

  lemma {:induction false} BitOrZero(a: nat, bits: nat)
    requires a < Pow2(bits)
    ensures BitOr(a, 0, bits) == BitOr(0, a, bits) == BitOr(a, a, bits) == a
  {
    if bits > 0 {
      BitOrZero(a / 2, bits - 1);
    }
  }

  lemma XorTwice(x: byte, k: byte)
    ensures XorByte(XorByte(x, k), k) == x
  {
    assert Pow2(8) == 256;
    BitXorTwice(x, k, 8);
  }

  lemma OrZero(x: byte)
    ensures OrByte(x, 0) == OrByte(0, x) == OrByte(x, x) == x
  {
    assert Pow2(8) == 256;
    BitOrZero(x, 8);
  }

  /**
    * The host: `size_t` of 8 or 4 bytes, byte order, and what its shifter does when the count
    * equals the word width, which C++ leaves undefined and `circshift_prepared_key` asks for at
    * offset 0 (either the count wraps to 0 or everything is shifted out).
    */
  datatype Machine = Machine(wide: bool, little: bool, countWraps: bool) {
    function Width(): nat {
      if wide then 8 else 4
    }

    /** `n % sizeof(size_t)` */
    function InWord(n: nat): nat {
      if wide then n % 8 else n % 4
    }
  }

  // ---- machine words ----

  /**
    * A word is held as its base-256 digits, least significant first. `Number` is the integer it
    * stands for; the shifts in use move whole bytes, and `RightIsDivision` and
    * `LeftIsMultiplication` say what they do to that integer.
    */
  type word = seq<byte>

  function Number(w: word): nat {
    if w == [] then 0 else w[0] + 256 * Number(w[1..])
  }

  function Pow256(n: nat): nat {
    if n == 0 then 1 else 256 * Pow256(n - 1)
  }

  function Zeros(n: nat): word {
    seq(n, _ => 0)
  }

  /** `w >> 8k` */
  function ShiftRight(m: Machine, w: word, k: nat): (r: word)
    requires |w| == m.Width() && k <= |w|
    ensures |r| == |w|
  {
    if k == |w| then (if m.countWraps then w else Zeros(k)) else w[k..] + Zeros(k)
  }

  /** `w << 8k` */
  function ShiftLeft(m: Machine, w: word, k: nat): (r: word)
    requires |w| == m.Width() && k <= |w|
    ensures |r| == |w|
  {
    if k == |w| then (if m.countWraps then w else Zeros(k)) else Zeros(k) + w[..|w| - k]
  }

  function Or(x: word, y: word): (r: word)
    requires |x| == |y|
    ensures |r| == |x|
  {
    seq(|x|, i requires 0 <= i < |x| => OrByte(x[i], y[i]))
  }

  function Xor(x: word, y: word): (r: word)
    requires |x| == |y|
    ensures |r| == |x|
  {
    seq(|x|, i requires 0 <= i < |x| => XorByte(x[i], y[i]))
  }

  lemma {:induction false} NumberZeros(k: nat, w: word)
    ensures Number(Zeros(k) + w) == Pow256(k) * Number(w)
    ensures Number(w + Zeros(k)) == Number(w)
    decreases k, |w|
  {
    if k == 0 {
      assert Zeros(0) + w == w && w + Zeros(0) == w;
    } else {
      assert (Zeros(k) + w)[1..] == Zeros(k - 1) + w;
      NumberZeros(k - 1, w);
      MulAssoc(Pow256(k - 1), Number(w));
    }
    if w == [] {
      assert w + Zeros(k) == Zeros(k) + w;
    } else {
      assert (w + Zeros(k))[1..] == w[1..] + Zeros(k);
      NumberZeros(k, w[1..]);
    }
  }

  lemma MulAssoc(p: nat, n: nat)
    ensures 256 * (p * n) == (256 * p) * n
  {
  }

  lemma {:induction false} NumberSplit(w: word, k: nat)
    requires k <= |w|
    ensures Number(w) == Number(w[..k]) + Pow256(k) * Number(w[k..])
    ensures Number(w[..k]) < Pow256(k)
  {
    if k == 0 {
      assert w[0..] == w;
    } else {
      NumberSplit(w[1..], k - 1);
      assert w[..k][1..] == w[1..][..k - 1] && w[k..] == w[1..][k - 1..];
      MulAssoc(Pow256(k - 1), Number(w[k..]));
    }
  }

  lemma AwayFromZero(b: nat, d: int)
    ensures d >= 1 ==> b * d >= b
    ensures d <= -1 ==> b * d <= 0 - b
  {
  }

  lemma DivMod(q: nat, r: nat, b: nat)
    requires r < b
    ensures (b * q + r) / b == q && (b * q + r) % b == r
  {
    var x := b * q + r;
    var d := x / b - q;
    assert b * d == r - x % b;
    assert b * d < b && b * d > 0 - b;
    AwayFromZero(b, d);
  }

  lemma {:induction false} Pow256Add(a: nat, b: nat)
    ensures Pow256(a + b) == Pow256(a) * Pow256(b) && Pow256(a) > 0
  {
    if a > 0 {
      Pow256Add(a - 1, b);
    }
  }

  lemma RightIsDivision(m: Machine, w: word, k: nat)
    requires |w| == m.Width() && k < |w|
    ensures Pow256(k) > 0 && Number(ShiftRight(m, w, k)) == Number(w) / Pow256(k)
  {
    NumberSplit(w, k);
    NumberZeros(k, w[k..]);
    DivMod(Number(w[k..]), Number(w[..k]), Pow256(k));
  }

  lemma LeftIsMultiplication(m: Machine, w: word, k: nat)
    requires |w| == m.Width() && k < |w|
    ensures Pow256(|w|) > 0 && Number(ShiftLeft(m, w, k)) == Number(w) * Pow256(k) % Pow256(|w|)
  {
    var n := |w| - k;
    NumberSplit(w, n);
    NumberZeros(k, w[..n]);
    Pow256Add(k, n);
    LeftArithmetic(Number(w[..n]), Number(w[n..]), Pow256(n), Pow256(k));
  }

  lemma LeftArithmetic(low: nat, high: nat, p: nat, q: nat)
    requires low < p && 0 < q
    ensures p * q > 0 && (low + p * high) * q % (q * p) == q * low
  {
    assert q * low < q * p;
    assert (low + p * high) * q == (q * p) * high + q * low;
    DivMod(high, q * low, q * p);
  }

  /** The byte at address `i` of a word in memory. */
  function ByteOf(m: Machine, w: word, i: nat): byte
    requires |w| == m.Width() && i < |w|
  {
    w[if m.little then i else |w| - 1 - i]
  }

  /** `reinterpret_cast<size_t*>`: the word whose memory bytes are `bs`, and back. */
  function Load(m: Machine, bs: bytes): (w: word)
    requires |bs| == m.Width()
    ensures |w| == |bs| && forall i | 0 <= i < |bs| :: ByteOf(m, w, i) == bs[i]
  {
    if m.little then bs else seq(|bs|, i requires 0 <= i < |bs| => bs[|bs| - 1 - i])
  }

  // ---- keys ----

  /** `masking_key_type`: a 32-bit integer as digits. `KeyByte` is its `c` array. */
  type key32 = k: word | |k| == 4 witness [0, 0, 0, 0]

  function KeyByte(m: Machine, key: key32, i: nat): byte
    requires i < 4
  {
    key[if m.little then i else 3 - i]
  }

  function PrepareMaskingKey(m: Machine, key: key32): (w: word)
    ensures |w| == m.Width()
  {
    if m.wide then Or(ShiftLeft(m, key + Zeros(4), 4), key + Zeros(4)) else key
  }

  function CircshiftPreparedKey(m: Machine, w: word, offset: nat): (r: word)
    requires |w| == m.Width() && offset < |w|
    ensures |r| == |w|
  {
    if m.little then Or(ShiftRight(m, w, offset), ShiftLeft(m, w, |w| - offset))
    else Or(ShiftLeft(m, w, offset), ShiftRight(m, w, |w| - offset))
  }

  lemma ShiftAt(m: Machine, w: word, k: nat, j: nat)
    requires |w| == m.Width() && k < |w| && j < |w|
    ensures ShiftRight(m, w, k)[j] == if j + k < |w| then w[j + k] else 0
    ensures ShiftLeft(m, w, k)[j] == if k <= j then w[j - k] else 0
  {
  }

  lemma FullShiftAt(m: Machine, w: word, j: nat)
    requires |w| == m.Width() && j < |w|
    ensures ShiftRight(m, w, |w|)[j] in {w[j], 0} && ShiftLeft(m, w, |w|)[j] in {w[j], 0}
  {
  }

  /** Digit `j` of the shifted key. */
  lemma CircshiftDigit(m: Machine, w: word, offset: nat, j: nat)
    requires |w| == m.Width() && offset < |w| && j < |w|
    ensures var from := if m.little then j + offset else j - offset;
            CircshiftPreparedKey(m, w, offset)[j] == w[if from >= |w| then from - |w| else if from < 0 then from + |w| else from]
  {
    hide ShiftLeft, ShiftRight, OrByte;
    ShiftAt(m, w, offset, j);
    if offset == 0 {
      FullShiftAt(m, w, j);
      OrZero(w[j]);
    } else {
      ShiftAt(m, w, |w| - offset, j);
      var from := if m.little then j + offset else j - offset;
      OrZero(w[if from >= |w| then from - |w| else if from < 0 then from + |w| else from]);
    }
  }

  lemma ModWrap(a: nat, n: nat)
    requires 0 < n && a < 2 * n
    ensures a % n == if a < n then a else a - n
  {
    if a < n { DivMod(0, a, n); } else { DivMod(1, a - n, n); }
  }

  /** The shift rotates the memory image, for offset 0 too, whatever the full-width shift does. */
  lemma CircshiftRotates(m: Machine, w: word, offset: nat, i: nat)
    requires |w| == m.Width() && offset < |w| && i < |w|
    ensures ByteOf(m, CircshiftPreparedKey(m, w, offset), i) == ByteOf(m, w, (i + offset) % |w|)
  {
    hide CircshiftPreparedKey;
    CircshiftDigit(m, w, offset, if m.little then i else |w| - 1 - i);
    ModWrap(i + offset, |w|);
  }

  lemma CircshiftZero(m: Machine, w: word)
    requires |w| == m.Width()
    ensures CircshiftPreparedKey(m, w, 0) == w
  {
    hide CircshiftPreparedKey;
    forall i | 0 <= i < |w| ensures CircshiftPreparedKey(m, w, 0)[i] == w[i] {
      CircshiftDigit(m, w, 0, i);
    }
  }

  /** `w` repeats the key's bytes, starting `off` bytes in. */
  ghost predicate Carries(m: Machine, w: word, key: key32, off: nat) {
    |w| == m.Width() && forall i | 0 <= i < |w| :: ByteOf(m, w, i) == KeyByte(m, key, (off + i) % 4)
  }

  lemma PreparedCarries(m: Machine, key: key32)
    ensures Carries(m, PrepareMaskingKey(m, key), key, 0)
  {
    var w := PrepareMaskingKey(m, key);
    forall i | 0 <= i < |w| ensures ByteOf(m, w, i) == KeyByte(m, key, i % 4) {
      OrZero(KeyByte(m, key, i % 4));
    }
  }

  lemma SameMod4(off: nat, a: nat, b: nat)
    requires b == a || b == a + 4 || b == a + 8
    ensures (off + a) % 4 == (off + b) % 4
  {
  }

  lemma CircshiftCarries(m: Machine, w: word, key: key32, off: nat, l: nat)
    requires Carries(m, w, key, off) && l < |w|
    ensures Carries(m, CircshiftPreparedKey(m, w, l), key, off + l)
  {
    hide CircshiftPreparedKey;
    var r := CircshiftPreparedKey(m, w, l);
    forall i | 0 <= i < |r| ensures ByteOf(m, r, i) == KeyByte(m, key, (off + l + i) % 4) {
      CircshiftRotates(m, w, l, i);
      var at := (i + l) % |w|;
      ModWrap(i + l, |w|);
      assert ByteOf(m, w, at) == KeyByte(m, key, (off + at) % 4);
      SameMod4(off, at, i + l);
    }
  }

  // ---- masking ----

  /** RFC 6455 section 5.3: octet i is masked with key octet (i + off) mod 4. */
  function Masked(m: Machine, s: bytes, key: key32, off: nat): (r: bytes)
    ensures |r| == |s|
  {
    seq(|s|, i requires 0 <= i < |s| => XorByte(s[i], KeyByte(m, key, (off + i) % 4)))
  }

  /** Masking twice restores the payload. */
  lemma MaskedTwice(m: Machine, s: bytes, key: key32, off: nat)
    ensures Masked(m, Masked(m, s, key, off), key, off) == s
  {
    forall i | 0 <= i < |s| ensures Masked(m, Masked(m, s, key, off), key, off)[i] == s[i] {
      XorTwice(s[i], KeyByte(m, key, (off + i) % 4));
    }
  }

  /** A key whose four octets stand in memory as given. */
  function KeyFrom(m: Machine, octets: bytes): key32
    requires |octets| == 4
  {
    if m.little then octets else [octets[3], octets[2], octets[1], octets[0]]
  }

  /** Section 5.3 of RFC 6455, bit by bit, for a key given as octets on the wire. */
  lemma MaskedIsXor(m: Machine, s: bytes, octets: bytes, off: nat, i: nat)
    requires |octets| == 4 && i < |s|
    ensures IsXor(Masked(m, s, KeyFrom(m, octets), off)[i], s[i], octets[(off + i) % 4])
  {
    hide XorByte, IsXor;
    XorIsXor(s[i], octets[(off + i) % 4]);
  }

  /** The example of section 5.7 of RFC 6455: a masked "Hello". */
  lemma MaskedHello(m: Machine)
    ensures Masked(m, [0x48, 0x65, 0x6C, 0x6C, 0x6F], KeyFrom(m, [0x37, 0xFA, 0x21, 0x3D]), 0) == [0x7F, 0x9F, 0x4D, 0x51, 0x58]
  {
    hide XorByte;
    HelloOctets();
    var s, k := [0x48, 0x65, 0x6C, 0x6C, 0x6F], KeyFrom(m, [0x37, 0xFA, 0x21, 0x3D]);
    assert KeyByte(m, k, 0) == 0x37 && KeyByte(m, k, 1) == 0xFA && KeyByte(m, k, 2) == 0x21 && KeyByte(m, k, 3) == 0x3D;
    var t := Masked(m, s, k, 0);
    assert t[0] == 0x7F && t[1] == 0x9F && t[2] == 0x4D && t[3] == 0x51 && t[4] == 0x58;
  }

  lemma HelloOctets()
    ensures XorByte(0x48, 0x37) == 0x7F && XorByte(0x65, 0xFA) == 0x9F && XorByte(0x6C, 0x21) == 0x4D
    ensures XorByte(0x6C, 0x3D) == 0x51 && XorByte(0x6F, 0x37) == 0x58
  {
    hide XorByte;
    FirstOctetOfHello();
    SecondOctetOfHello();
    ThirdOctetOfHello();
    FourthOctetOfHello();
    FifthOctetOfHello();
  }

  lemma FirstOctetOfHello()
    ensures XorByte(0x48, 0x37) == 0x7F
  {
    hide XorByte;
    XorIs(0x48, 0x37, 0x7F);
  }

  lemma SecondOctetOfHello()
    ensures XorByte(0x65, 0xFA) == 0x9F
  {
    hide XorByte;
    XorIs(0x65, 0xFA, 0x9F);
  }

  lemma ThirdOctetOfHello()
    ensures XorByte(0x6C, 0x21) == 0x4D
  {
    hide XorByte;
    XorIs(0x6C, 0x21, 0x4D);
  }

  lemma FourthOctetOfHello()
    ensures XorByte(0x6C, 0x3D) == 0x51
  {
    hide XorByte;
    XorIs(0x6C, 0x3D, 0x51);
  }

  lemma FifthOctetOfHello()
    ensures XorByte(0x6F, 0x37) == 0x58
  {
    hide XorByte;
    XorIs(0x6F, 0x37, 0x58);
  }

  /** An octet that is the exclusive or, checked bit by bit. */
  predicate XorHolds(a: nat, b: nat, r: nat, bits: nat) {
    bits == 0 || ((r % 2 == 1 <==> a % 2 != b % 2) && XorHolds(a / 2, b / 2, r / 2, bits - 1))
  }

  lemma XorIs(a: byte, b: byte, r: byte)
    requires XorHolds(a, b, r, 8)
    ensures XorByte(a, b) == r
  {
    hide XorHolds, BitXor;
    assert Pow2(8) == 256;
    XorUnique(a, b, r, 8);
  }

  lemma {:induction false} XorUnique(a: nat, b: nat, r: nat, bits: nat)
    requires XorHolds(a, b, r, bits) && r < Pow2(bits)
    ensures BitXor(a, b, bits) == r
  {
    if bits > 0 {
      XorUnique(a / 2, b / 2, r / 2, bits - 1);
    }
  }

  lemma MaskedEmpty(m: Machine, key: key32, off: nat)
    ensures Masked(m, [], key, off) == []
  {
  }

  lemma MaskedConcat(m: Machine, a: bytes, b: bytes, key: key32, off: nat)
    ensures Masked(m, a + b, key, off) == Masked(m, a, key, off) + Masked(m, b, key, off + |a|)
  {
  }

  /** Octets of one circular call with key word `w`: every word is masked with `w`, the tail with its start. */
  function WordStream(m: Machine, s: bytes, w: word): (r: bytes)
    requires |w| == m.Width()
    ensures |r| == |s|
  {
    seq(|s|, i requires 0 <= i < |s| => XorByte(s[i], ByteOf(m, w, m.InWord(i))))
  }

  /** Memory byte `i` of the low 32 bits of the key word, which is all `byte_mask_circ` uses. */
  function LowKey(w: word): key32
    requires |w| >= 4
  {
    w[..4]
  }

  /** `byte_mask`, into an output buffer that may be the input. */
  method ByteMask(m: Machine, input: array<byte>, output: array<byte>, length: nat, key: key32, keyOffset: nat)
    requires length <= input.Length && length <= output.Length
    modifies output
    ensures output[..length] == Masked(m, old(input[..length]), key, keyOffset)
    ensures forall j | 0 <= j < length :: IsXor(output[j], old(input[j]), KeyByte(m, key, (keyOffset + j) % 4))
    ensures output[length..] == old(output[length..])
  {
    hide XorByte, IsXor;
    var keyIndex := keyOffset % 4;
    var i := 0;
    while i != length
      invariant 0 <= i <= length && keyIndex == (keyOffset + i) % 4
      invariant forall j | 0 <= j < i :: output[j] == XorByte(old(input[j]), KeyByte(m, key, (keyOffset + j) % 4))
      invariant forall j | i <= j < output.Length :: output[j] == old(output[j])
      invariant forall j | i <= j < input.Length :: input[j] == old(input[j])
    {
      output[i] := XorByte(input[i], KeyByte(m, key, keyIndex));
      keyIndex := (keyIndex + 1) % 4;
      i := i + 1;
    }
    forall j | 0 <= j < length ensures IsXor(output[j], old(input[j]), KeyByte(m, key, (keyOffset + j) % 4)) {
      XorIsXor(old(input[j]), KeyByte(m, key, (keyOffset + j) % 4));
    }
  }

  /** The word loop that `word_mask_exact` and `word_mask_circ` share. */
  method MaskWords(m: Machine, input: array<byte>, output: array<byte>, n: nat, prepared: word)
    requires |prepared| == m.Width()
    requires n * m.Width() <= input.Length && n * m.Width() <= output.Length
    modifies output
    ensures forall j | 0 <= j < n * |prepared| :: output[j] == XorByte(old(input[j]), ByteOf(m, prepared, m.InWord(j)))
    ensures forall j | n * |prepared| <= j < output.Length :: output[j] == old(output[j])
    ensures forall j | n * |prepared| <= j < input.Length :: input[j] == old(input[j])
  {
    hide XorByte, ByteOf;
    var width, at := |prepared|, 0;
    for i := 0 to n
      invariant at == i * width <= n * width
      invariant forall j | 0 <= j < at :: output[j] == XorByte(old(input[j]), ByteOf(m, prepared, m.InWord(j)))
      invariant forall j | at <= j < output.Length :: output[j] == old(output[j])
      invariant forall j | at <= j < input.Length :: input[j] == old(input[j])
    {
      NextWord(i, n, width);
      MaskWord(m, input, output, at, prepared);
      forall j | at <= j < at + width ensures m.InWord(j) == j - at {
        ModOffset(m, i, j - at);
      }
      at := at + width;
    }
  }

  lemma NextWord(i: nat, n: nat, width: nat)
    requires i < n
    ensures i * width + width == (i + 1) * width <= n * width
  {
    assert n * width == (i + 1) * width + (n - i - 1) * width;
  }

  /** `output_word[i] = input_word[i] ^ prepared_key` at byte address `at`. */
  method MaskWord(m: Machine, input: array<byte>, output: array<byte>, at: nat, prepared: word)
    requires |prepared| == m.Width()
    requires at + |prepared| <= input.Length && at + |prepared| <= output.Length
    modifies output
    ensures forall j | at <= j < at + |prepared| :: output[j] == XorByte(old(input[j]), ByteOf(m, prepared, j - at))
    ensures forall j | 0 <= j < output.Length && !(at <= j < at + |prepared|) :: output[j] == old(output[j])
  {
    var bs := input[at..at + |prepared|];
    var x := Xor(Load(m, bs), prepared);
    StoreWord(m, output, at, x);
  }

  lemma ModOffset(m: Machine, i: nat, d: nat)
    requires d < m.Width()
    ensures m.InWord(i * m.Width() + d) == d
  {
    DivMod(i, d, m.Width());
  }

  /** Whole words, and the octets left over. */
  lemma LeftOver(m: Machine, length: nat)
    ensures var n := length / m.Width(); n * m.Width() <= length && length - n * m.Width() == m.InWord(length) < m.Width()
  {
  }

  method StoreWord(m: Machine, output: array<byte>, at: nat, x: word)
    requires |x| == m.Width() && at + |x| <= output.Length
    modifies output
    ensures forall j | at <= j < at + |x| :: output[j] == ByteOf(m, x, j - at)
    ensures forall j | 0 <= j < output.Length && !(at <= j < at + |x|) :: output[j] == old(output[j])
  {
    for k := 0 to |x|
      invariant forall j | at <= j < at + k :: output[j] == ByteOf(m, x, j - at)
      invariant forall j | 0 <= j < output.Length && !(at <= j < at + k) :: output[j] == old(output[j])
    {
      output[at + k] := ByteOf(m, x, k);
    }
  }

  /** `word_mask_exact` */
  method WordMaskExact(m: Machine, input: array<byte>, output: array<byte>, length: nat, key: key32)
    requires length <= input.Length && length <= output.Length
    modifies output
    ensures output[..length] == Masked(m, old(input[..length]), key, 0)
    ensures output[length..] == old(output[length..])
  {
    hide XorByte, PrepareMaskingKey;
    var prepared := PrepareMaskingKey(m, key);
    PreparedCarries(m, key);
    var n := length / m.Width();
    MaskWords(m, input, output, n, prepared);
    ghost var start := n * m.Width();
    forall j | 0 <= j < start ensures output[j] == XorByte(old(input[j]), KeyByte(m, key, j % 4)) {
      CarriedByte(m, prepared, key, 0, j);
    }
    for i := n * m.Width() to length
      invariant forall j | 0 <= j < i :: output[j] == XorByte(old(input[j]), KeyByte(m, key, j % 4))
      invariant forall j | i <= j < output.Length :: output[j] == old(output[j])
      invariant forall j | i <= j < input.Length :: input[j] == old(input[j])
    {
      output[i] := XorByte(input[i], KeyByte(m, key, i % 4));
    }
  }

  /** `word_mask_circ` */
  method WordMaskCirc(m: Machine, input: array<byte>, output: array<byte>, length: nat, prepared: word) returns (next: word)
    requires |prepared| == m.Width()
    requires length <= input.Length && length <= output.Length
    modifies output
    ensures output[..length] == WordStream(m, old(input[..length]), prepared)
    ensures output[length..] == old(output[length..])
    ensures next == CircshiftPreparedKey(m, prepared, m.InWord(length))
  {
    hide XorByte, CircshiftPreparedKey, ByteOf;
    var n := length / m.Width();
    var l := length - n * m.Width();
    LeftOver(m, length);
    MaskWords(m, input, output, n, prepared);
    var start := length - l;
    for i := 0 to l
      invariant forall j | 0 <= j < start + i :: output[j] == XorByte(old(input[j]), ByteOf(m, prepared, m.InWord(j)))
      invariant forall j | start + i <= j < output.Length :: output[j] == old(output[j])
      invariant forall j | start + i <= j < input.Length :: input[j] == old(input[j])
    {
      ModOffset(m, n, i);
      output[start + i] := XorByte(input[start + i], ByteOf(m, prepared, i));
    }
    return CircshiftPreparedKey(m, prepared, l);
  }

  /** `byte_mask_circ` */
  method ByteMaskCirc(m: Machine, input: array<byte>, output: array<byte>, length: nat, prepared: word) returns (next: word)
    requires |prepared| == m.Width()
    requires length <= input.Length && length <= output.Length
    modifies output
    ensures output[..length] == Masked(m, old(input[..length]), LowKey(prepared), 0)
    ensures output[length..] == old(output[length..])
    ensures next == CircshiftPreparedKey(m, prepared, length % 4)
  {
    var key := LowKey(prepared);
    for i := 0 to length
      invariant forall j | 0 <= j < i :: output[j] == XorByte(old(input[j]), KeyByte(m, key, j % 4))
      invariant forall j | i <= j < output.Length :: output[j] == old(output[j])
      invariant forall j | i <= j < input.Length :: input[j] == old(input[j])
    {
      output[i] := XorByte(input[i], KeyByte(m, key, i % 4));
    }
    return CircshiftPreparedKey(m, prepared, length % 4);
  }

  lemma CarriedByte(m: Machine, w: word, key: key32, off: nat, j: nat)
    requires Carries(m, w, key, off)
    ensures ByteOf(m, w, m.InWord(j)) == KeyByte(m, key, (off + j) % 4)
  {
    var r := m.InWord(j);
    assert ByteOf(m, w, r) == KeyByte(m, key, (off + r) % 4);
    WholeWords(off, j);
  }

  lemma WholeWords(off: nat, j: nat)
    ensures (off + j % 8) % 4 == (off + j) % 4 && (off + j % 4) % 4 == (off + j) % 4
  {
    WholeFours(off + j % 8, 2 * (j / 8));
    assert off + j == off + j % 8 + 4 * (2 * (j / 8));
    WholeFours(off + j % 4, j / 4);
    assert off + j == off + j % 4 + 4 * (j / 4);
  }

  lemma {:induction false} WholeFours(a: nat, k: nat)
    ensures (a + 4 * k) % 4 == a % 4
  {
    if k > 0 {
      WholeFours(a, k - 1);
      assert a + 4 * k == a + 4 * (k - 1) + 4;
    }
  }

  /** With a key that carries, a circular word call masks as RFC 6455 says. */
  lemma WordStreamIsMasked(m: Machine, s: bytes, w: word, key: key32, off: nat)
    requires Carries(m, w, key, off)
    ensures WordStream(m, s, w) == Masked(m, s, key, off)
  {
    forall i | 0 <= i < |s| ensures WordStream(m, s, w)[i] == Masked(m, s, key, off)[i] {
      CarriedByte(m, w, key, off, i);
    }
  }

  lemma LowKeyIsMasked(m: Machine, s: bytes, w: word, key: key32, off: nat)
    requires Carries(m, w, key, off)
    ensures Masked(m, s, LowKey(w), 0) == Masked(m, s, key, off)
  {
    forall i | 0 <= i < |s| ensures Masked(m, s, LowKey(w), 0)[i] == Masked(m, s, key, off)[i] {
      LowKeyByte(m, w, key, off, i);
    }
  }

  lemma LowKeyByte(m: Machine, w: word, key: key32, off: nat, i: nat)
    requires Carries(m, w, key, off)
    ensures KeyByte(m, LowKey(w), i % 4) == KeyByte(m, key, (off + i) % 4)
  {
    var k := i % 4;
    var at := if m.little || !m.wide then k else k + 4;
    assert KeyByte(m, LowKey(w), k) == ByteOf(m, w, at) == KeyByte(m, key, (off + at) % 4);
    assert (off + at) % 4 == (off + i) % 4;
  }

  // ---- streaming ----

  /** One call of a circular routine: which of the two, and the chunk it is given. */
  datatype Call = WordCirc(chunk: bytes) | ByteCirc(chunk: bytes)

  function Output(m: Machine, c: Call, w: word): bytes
    requires |w| == m.Width()
  {
    match c
    case WordCirc(s) => WordStream(m, s, w)
    case ByteCirc(s) => Masked(m, s, LowKey(w), 0)
  }

  function NextKey(m: Machine, c: Call, w: word): (r: word)
    requires |w| == m.Width()
    ensures |r| == |w|
  {
    CircshiftPreparedKey(m, w, (if c.WordCirc? then m.InWord(|c.chunk|) else |c.chunk| % 4))
  }

  /** What a run of calls writes in all, each given the key the previous one returned. */
  function Stream(m: Machine, calls: seq<Call>, w: word): bytes
    requires |w| == m.Width()
    decreases calls
  {
    if calls == [] then []
    else Output(m, calls[0], w) + Stream(m, calls[1..], NextKey(m, calls[0], w))
  }

  function Payload(calls: seq<Call>): bytes {
    if calls == [] then [] else calls[0].chunk + Payload(calls[1..])
  }

  lemma NextKeyCarries(m: Machine, c: Call, w: word, key: key32, off: nat)
    requires Carries(m, w, key, off)
    ensures Carries(m, NextKey(m, c, w), key, off + |c.chunk|)
  {
    hide CircshiftPreparedKey, ByteOf, KeyByte;
    var l := if c.WordCirc? then m.InWord(|c.chunk|) else |c.chunk| % 4;
    var r := NextKey(m, c, w);
    CircshiftCarries(m, w, key, off, l);
    forall i | 0 <= i < |r| ensures ByteOf(m, r, i) == KeyByte(m, key, (off + |c.chunk| + i) % 4) {
      WholeWords(off + i, |c.chunk|);
      assert off + i + l == off + l + i && off + i + |c.chunk| == off + |c.chunk| + i;
    }
  }

  lemma OutputIsMasked(m: Machine, c: Call, w: word, key: key32, off: nat)
    requires Carries(m, w, key, off)
    ensures Output(m, c, w) == Masked(m, c.chunk, key, off)
  {
    WordStreamIsMasked(m, c.chunk, w, key, off);
    LowKeyIsMasked(m, c.chunk, w, key, off);
  }

  lemma {:induction false} StreamFrom(m: Machine, calls: seq<Call>, w: word, key: key32, off: nat)
    requires |w| == m.Width() && Carries(m, w, key, off)
    ensures Stream(m, calls, w) == Masked(m, Payload(calls), key, off)
    decreases calls
  {
    hide Carries, Masked, NextKey, Output;
    if calls == [] {
      MaskedEmpty(m, key, off);
    } else {
      var c := calls[0];
      OutputIsMasked(m, c, w, key, off);
      NextKeyCarries(m, c, w, key, off);
      StreamFrom(m, calls[1..], NextKey(m, c, w), key, off + |c.chunk|);
      MaskedConcat(m, c.chunk, Payload(calls[1..]), key, off);
    }
  }

  /**
    * Any split of a payload into chunks, masked by any mix of the two circular routines threading
    * the returned key, comes out as one masking of the whole payload.
    */
  lemma StreamIsOneMask(m: Machine, calls: seq<Call>, key: key32)
    ensures Stream(m, calls, PrepareMaskingKey(m, key)) == Masked(m, Payload(calls), key, 0)
  {
    PreparedCarries(m, key);
    StreamFrom(m, calls, PrepareMaskingKey(m, key), key, 0);
  }
}
