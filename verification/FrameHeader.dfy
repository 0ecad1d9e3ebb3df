/** WebSocket frame headers (RFC 6455 section 5.2). */
module FrameHeader {
  import opened Bytes
  import opened FrameMask

  const TWO64: nat := 0x1_0000_0000_0000_0000

  // ---- the two fixed octets ----

  datatype BasicHeader = BasicHeader(b0: byte, b1: byte)

  predicate GetFin(h: BasicHeader) { h.b0 / 0x80 % 2 == 1 }
  predicate GetRsv1(h: BasicHeader) { h.b0 / 0x40 % 2 == 1 }
  predicate GetRsv2(h: BasicHeader) { h.b0 / 0x20 % 2 == 1 }
  predicate GetRsv3(h: BasicHeader) { h.b0 / 0x10 % 2 == 1 }
  predicate GetMasked(h: BasicHeader) { h.b1 / 0x80 % 2 == 1 }
  function GetOpcode(h: BasicHeader): nat { h.b0 % 16 }
  function GetBasicSize(h: BasicHeader): nat { h.b1 % 128 }

  datatype Flags = Flags(fin: bool, rsv1: bool, rsv2: bool, rsv3: bool, masked: bool)

  function GetFlags(h: BasicHeader): Flags {
    Flags(GetFin(h), GetRsv1(h), GetRsv2(h), GetRsv3(h), GetMasked(h))
  }

  /** The seven-bit length field that a payload size asks for. */
  function SizeCode(size: nat): nat {
    if size <= 125 then size else if size <= 0xFFFF then 126 else 127
  }

  /** `basic_header(op, size, fin, mask, rsv1, rsv2, rsv3)`: only the low four bits of `op` count. */
  method NewBasicHeader(op: nat, size: nat, f: Flags) returns (h: BasicHeader)
    ensures GetFlags(h) == f && GetOpcode(h) == op % 16 && GetBasicSize(h) == SizeCode(size)
    ensures h == HeaderOf(op, size, f)
  {
    HeaderOfGives(op, size, f);
    hide GetFlags, GetOpcode, GetBasicSize;
    // Each bit is still clear when it is or-ed in, so the sum is the disjunction.
    var b0, b1 := 0, 0;
    if f.fin { b0 := b0 + 0x80; }
    if f.rsv1 { b0 := b0 + 0x40; }
    if f.rsv2 { b0 := b0 + 0x20; }
    if f.rsv3 { b0 := b0 + 0x10; }
    b0 := b0 + op % 16;
    if f.masked { b1 := b1 + 0x80; }
    b1 := b1 + if size <= 125 then size else if size <= 0xFFFF then 126 else 127;
    h := BasicHeader(b0, b1);
  }

  function Flag(v: bool, weight: nat): nat {
    if v then weight else 0
  }

  /** The octets that carry given fields. */
  function HeaderOf(op: nat, size: nat, f: Flags): BasicHeader {
    BasicHeader(FirstOctet(f, op % 16), Flag(f.masked, 0x80) + SizeCode(size))
  }

  /** A bit of weight `w` below `q` bits and above a remainder. */
  lemma BitOf(q: nat, v: bool, w: nat, r: nat)
    requires w in {0x10, 0x20, 0x40, 0x80} && r < w
    ensures (2 * w * q + Flag(v, w) + r) / w % 2 == 1 <==> v
  {
    var n := 2 * q + Flag(v, 1);
    DivMod(n, r, w);
    assert w * n + r == 2 * w * q + Flag(v, w) + r;
  }

  lemma HeaderOfGives(op: nat, size: nat, f: Flags)
    ensures var h := HeaderOf(op, size, f);
            GetFlags(h) == f && GetOpcode(h) == op % 16 && GetBasicSize(h) == SizeCode(size)
  {
    UpperFlags(f, op % 16);
    LowerFlags(f, op % 16);
    SecondOctet(f, SizeCode(size));
  }

  function FirstOctet(f: Flags, o: nat): byte
    requires o < 16
  {
    Flag(f.fin, 0x80) + Flag(f.rsv1, 0x40) + Flag(f.rsv2, 0x20) + Flag(f.rsv3, 0x10) + o
  }

  lemma UpperFlags(f: Flags, o: nat)
    requires o < 16
    ensures FirstOctet(f, o) / 0x80 % 2 == 1 <==> f.fin
    ensures FirstOctet(f, o) / 0x40 % 2 == 1 <==> f.rsv1
  {
    var low := Flag(f.rsv2, 0x20) + Flag(f.rsv3, 0x10) + o;
    BitOf(0, f.fin, 0x80, Flag(f.rsv1, 0x40) + low);
    BitOf(Flag(f.fin, 1), f.rsv1, 0x40, low);
  }

  lemma LowerFlags(f: Flags, o: nat)
    requires o < 16
    ensures FirstOctet(f, o) / 0x20 % 2 == 1 <==> f.rsv2
    ensures FirstOctet(f, o) / 0x10 % 2 == 1 <==> f.rsv3
    ensures FirstOctet(f, o) % 16 == o
  {
    var high := Flag(f.fin, 2) + Flag(f.rsv1, 1);
    BitOf(high, f.rsv2, 0x20, Flag(f.rsv3, 0x10) + o);
    BitOf(2 * high + Flag(f.rsv2, 1), f.rsv3, 0x10, o);
    DivMod(4 * high + Flag(f.rsv2, 2) + Flag(f.rsv3, 1), o, 16);
  }

  lemma SecondOctet(f: Flags, code: nat)
    requires code < 128
    ensures (Flag(f.masked, 0x80) + code) / 0x80 % 2 == 1 <==> f.masked
    ensures (Flag(f.masked, 0x80) + code) % 128 == code
  {
    BitOf(0, f.masked, 0x80, code);
    DivMod(Flag(f.masked, 1), code, 128);
  }

  function GetMaskingKeyOffset(h: BasicHeader): nat {
    if GetBasicSize(h) == 126 then 2 else if GetBasicSize(h) == 127 then 8 else 0
  }

  function GetHeaderLen(h: BasicHeader): nat {
    2 + GetMaskingKeyOffset(h) + if GetMasked(h) then 4 else 0
  }

  // ---- the variable part ----

  /** The `n` base-256 digits of `x`, least significant first. */
  function DigitsOf(x: nat, n: nat): (w: word)
    ensures |w| == n
  {
    if n == 0 then [] else [x % 256] + DigitsOf(x / 256, n - 1)
  }

  lemma {:induction false} DigitsNumber(x: nat, n: nat)
    requires x < Pow256(n)
    ensures Number(DigitsOf(x, n)) == x
  {
    if n > 0 {
      DigitsNumber(x / 256, n - 1);
    }
  }

  function Reversed(s: bytes): (r: bytes)
    ensures |r| == |s|
  {
    seq(|s|, i requires 0 <= i < |s| => s[|s| - 1 - i])
  }

  /** An integer of `n` bytes as the host keeps it in memory, and back. */
  function InMemory(little: bool, x: nat, n: nat): (bs: bytes)
    ensures |bs| == n
  {
    if little then DigitsOf(x, n) else Reversed(DigitsOf(x, n))
  }

  function FromMemory(little: bool, bs: bytes): nat {
    Number(if little then bs else Reversed(bs))
  }

  /** `_htonll` and `_ntohll` on the memory image: four swaps on a little-endian host. */
  function SwapEight(little: bool, c: bytes): (r: bytes)
    requires |c| == 8
    ensures |r| == 8
  {
    if little then [c[7], c[6], c[5], c[4], c[3], c[2], c[1], c[0]] else c
  }

  /** Network byte order: most significant first. */
  function BigEndian(x: nat, n: nat): (bs: bytes)
    ensures |bs| == n
  {
    Reversed(DigitsOf(x, n))
  }

  function PayloadOffset(size: nat): nat {
    if size <= 125 then 8 else if size <= 0xFFFF then 6 else 0
  }

  /** `extended_header`: twelve octets, zero but for the length form and, if masked, the key after it. */
  method NewExtendedHeader(little: bool, size: nat, masked: bool, key: bytes) returns (bs: bytes)
    requires size < TWO64 && |key| == 4
    ensures |bs| == 12
    ensures bs == Padded(LengthForm(size) + if masked then key else [])
  {
    hide DigitsOf, Reversed, InMemory, SwapEight;
    var buffer := new byte[12](_ => 0);
    var zeros := seq(12, _ => 0);
    assert buffer[..] == zeros;
    var payloadOffset := PayloadOffset(size);
    var temp64 := SwapEight(little, InMemory(little, size, 8));
    SwapIsBigEndian(little, size);
    var form := temp64[payloadOffset..8];
    CopyTo(form, buffer, 0);
    assert form == LengthForm(size);
    if masked {
      CopyTo(key, buffer, 8 - payloadOffset);
      assert buffer[..] == form + key + zeros[|form| + 4..];
    } else {
      assert buffer[..] == form + zeros[|form|..];
    }
    bs := buffer[..];
  }

  /** `std::copy` into a buffer. */
  method CopyTo(source: bytes, buffer: array<byte>, at: nat)
    requires at + |source| <= buffer.Length
    modifies buffer
    ensures buffer[..] == old(buffer[..at]) + source + old(buffer[at + |source|..])
  {
    for i := 0 to |source|
      invariant forall j | 0 <= j < buffer.Length ::
                  buffer[j] == if at <= j < at + i then source[j - at] else old(buffer[j])
    {
      buffer[at + i] := source[i];
    }
  }

  /** The octets of the length that follow the two fixed ones: none, two or eight. */
  function LengthForm(size: nat): bytes {
    BigEndian(size, 8)[PayloadOffset(size)..]
  }

  function Padded(t: bytes): (r: bytes)
    requires |t| <= 12
    ensures |r| == 12
  {
    t + seq(12 - |t|, _ => 0)
  }

  lemma SwapIsBigEndian(little: bool, x: nat)
    ensures SwapEight(little, InMemory(little, x, 8)) == BigEndian(x, 8)
  {
    hide DigitsOf;
    var d := DigitsOf(x, 8);
    if little {
      assert SwapEight(true, d) == Reversed(d);
    }
  }

  /** `prepare_header` */
  function PrepareHeader(h: BasicHeader, e: bytes): bytes
    requires |e| == 12
  {
    [h.b0, h.b1] + e[..GetHeaderLen(h) - 2]
  }

  function GetExtendedSize(little: bool, e: bytes): nat
    requires |e| == 12
  {
    var c := e[..2];
    FromMemory(little, if little then [c[1], c[0]] else c)
  }

  function GetJumboSize(little: bool, e: bytes): nat
    requires |e| == 12
  {
    FromMemory(little, SwapEight(little, e[..8]))
  }

  function GetPayloadSize(little: bool, h: BasicHeader, e: bytes): nat
    requires |e| == 12
  {
    var val := GetBasicSize(h);
    if val <= 125 then val else if val == 126 then GetExtendedSize(little, e) else GetJumboSize(little, e)
  }

  function GetMaskingKey(h: BasicHeader, e: bytes): bytes
    requires |e| == 12
  {
    if !GetMasked(h) then [0, 0, 0, 0] else e[GetMaskingKeyOffset(h)..GetMaskingKeyOffset(h) + 4]
  }

  // ---- reading a header back ----

  datatype Decoded = Decoded(opcode: nat, flags: Flags, size: nat, key: bytes, used: nat)

  /** The two fixed octets tell how many more to take; those go into a zeroed extended header. */
  function Decode(little: bool, wire: bytes): (d: Decoded)
    requires |wire| >= 2 && |wire| >= GetHeaderLen(BasicHeader(wire[0], wire[1]))
  {
    var h := BasicHeader(wire[0], wire[1]);
    var n := GetHeaderLen(h);
    var e := Padded(wire[2..n]);
    Decoded(GetOpcode(h), GetFlags(h), GetPayloadSize(little, h, e), GetMaskingKey(h, e), n)
  }

  lemma {:induction false} ReversedTwice(s: bytes)
    ensures Reversed(Reversed(s)) == s
  {
  }

  lemma SwapUndoes(little: bool, x: nat)
    requires x < TWO64
    ensures FromMemory(little, SwapEight(little, BigEndian(x, 8))) == x
  {
    hide DigitsOf, Number;
    var d := DigitsOf(x, 8);
    ReversedTwice(d);
    assert SwapEight(true, Reversed(d)) == d;
    Pow256Eight();
    DigitsNumber(x, 8);
  }

  lemma Pow256Eight()
    ensures Pow256(8) == TWO64 && Pow256(2) == 0x1_0000
  {
    assert Pow256(4) == 0x1_0000_0000;
    assert Pow256(8) == 256 * (256 * (256 * (256 * Pow256(4))));
  }

  /** The low two octets of an eight-octet big-endian number below 2^16 are the number. */
  lemma LowTwo(x: nat)
    requires x <= 0xFFFF
    ensures BigEndian(x, 8)[6..] == [x / 256, x % 256]
  {
    var d := DigitsOf(x, 8);
    assert d[0] == x % 256 && d[1] == DigitsOf(x / 256, 7)[0] == x / 256;
  }

  lemma NumberOfTwo(a: byte, b: byte)
    ensures Number([a, b]) == a + 256 * b
  {
    assert [a, b][1..] == [b] && [b][1..] == [];
    assert Number([b]) == b;
  }

  lemma ExtendedSizeBack(little: bool, x: nat, rest: bytes)
    requires x <= 0xFFFF && |rest| == 10
    ensures GetExtendedSize(little, [x / 256, x % 256] + rest) == x
  {
    var e := [x / 256, x % 256] + rest;
    assert e[..2] == [x / 256, x % 256];
    NumberOfTwo(x % 256, x / 256);
    assert Reversed([x / 256, x % 256]) == [x % 256, x / 256];
  }

  lemma PaddedPrefix(t: bytes, u: bytes)
    requires |t| + |u| <= 12
    ensures Padded(t + u)[..|t|] == t && Padded(t + u)[|t|..|t| + |u|] == u
  {
  }

  lemma SizeBack(little: bool, op: nat, size: nat, f: Flags, key: bytes)
    requires size < TWO64 && |key| == 4
    ensures var e := Padded(LengthForm(size) + if f.masked then key else []);
            GetPayloadSize(little, HeaderOf(op, size, f), e) == size
  {
    hide DigitsOf, Reversed;
    HeaderOfGives(op, size, f);
    var u := if f.masked then key else [];
    var e := Padded(LengthForm(size) + u);
    PaddedPrefix(LengthForm(size), u);
    if size <= 125 {
    } else if size <= 0xFFFF {
      LowTwo(size);
      assert e == [size / 256, size % 256] + e[2..];
      ExtendedSizeBack(little, size, e[2..]);
    } else {
      assert LengthForm(size) == BigEndian(size, 8);
      assert e[..8] == BigEndian(size, 8);
      SwapUndoes(little, size);
    }
  }

  /**
    * Whatever follows on the wire, decoding a prepared header recovers opcode, flags, size and key
    * and takes exactly `get_header_len` octets, at most 14. The length form is the shortest that
    * holds the size. The byte order of neither host matters.
    */
  lemma HeaderRoundTrip(reader: bool, op: nat, size: nat, f: Flags, key: bytes, tail: bytes)
    requires op < 16 && size < TWO64 && |key| == 4
    ensures var h := HeaderOf(op, size, f);
            var e := Padded(LengthForm(size) + if f.masked then key else []);
            var text := PrepareHeader(h, e);
            && |text| == GetHeaderLen(h) <= 14
            && Decode(reader, text + tail) == Decoded(op, f, size, if f.masked then key else [0, 0, 0, 0], |text|)
            && GetMaskingKeyOffset(h) == (if size <= 125 then 0 else if size < 0x1_0000 then 2 else 8)
  {
    hide DigitsOf, Reversed, GetPayloadSize;
    var h := HeaderOf(op, size, f);
    var u := if f.masked then key else [];
    var e := Padded(LengthForm(size) + u);
    HeaderOfGives(op, size, f);
    var text := PrepareHeader(h, e);
    var n := GetHeaderLen(h);
    assert |LengthForm(size)| == 8 - PayloadOffset(size) == GetMaskingKeyOffset(h);
    PaddedPrefix(LengthForm(size), u);
    assert (text + tail)[2..n] == e[..n - 2] == LengthForm(size) + u;
    SizeBack(reader, op, size, f, key);
  }

  // ---- the octets on the wire ----

  /** An unsigned integer in network order. */
  function Unsigned(c: bytes): nat {
    if c == [] then 0 else 256 * Unsigned(c[..|c| - 1]) + c[|c| - 1]
  }

  lemma {:induction false} UnsignedReversed(d: bytes)
    ensures Unsigned(Reversed(d)) == Number(d)
  {
    if d != [] {
      var c := Reversed(d);
      assert c[..|c| - 1] == Reversed(d[1..]) && c[|c| - 1] == d[0];
      UnsignedReversed(d[1..]);
    }
  }

  lemma LengthIs(size: nat)
    requires 125 < size < TWO64
    ensures |LengthForm(size)| == (if size <= 0xFFFF then 2 else 8) && Unsigned(LengthForm(size)) == size
  {
    hide DigitsOf, Reversed, Number;
    if size <= 0xFFFF {
      LowTwo(size);
      TwoOctets(size / 256, size % 256);
    } else {
      assert LengthForm(size) == BigEndian(size, 8);
      Pow256Eight();
      DigitsNumber(size, 8);
      UnsignedReversed(DigitsOf(size, 8));
    }
  }

  lemma TwoOctets(a: byte, b: byte)
    ensures Unsigned([a, b]) == 256 * a + b
  {
    assert [a, b][..1] == [a] && [a][..0] == [];
    assert Unsigned([a]) == a;
  }

  /**
    * Section 5.2 of RFC 6455, octet by octet: FIN, RSV1 to RSV3 and the opcode; MASK and the length
    * or the mark 126 or 127 of a longer form in network order; then the key.
    */
  lemma WireLayout(op: nat, size: nat, f: Flags, key: bytes)
    requires op < 16 && size < TWO64 && |key| == 4
    ensures var text := PrepareHeader(HeaderOf(op, size, f), Padded(LengthForm(size) + if f.masked then key else []));
            && text == [FirstOnWire(op, f), SecondOnWire(size, f)] + LengthForm(size) + (if f.masked then key else [])
            && |LengthForm(size)| == (if size <= 125 then 0 else if size <= 65535 then 2 else 8)
            && (size > 125 ==> Unsigned(LengthForm(size)) == size)
  {
    hide DigitsOf, Reversed, Unsigned, LengthForm, HeaderOf, Padded;
    FixedOctets(op, size, f);
    HeaderPieces(op, size, f, key);
    if size > 125 {
      LengthIs(size);
    }
  }

  function FirstOnWire(op: nat, f: Flags): nat {
    (if f.fin then 128 else 0) + (if f.rsv1 then 64 else 0) + (if f.rsv2 then 32 else 0) + (if f.rsv3 then 16 else 0) + op
  }

  function SecondOnWire(size: nat, f: Flags): nat {
    (if f.masked then 128 else 0) + (if size <= 125 then size else if size <= 65535 then 126 else 127)
  }

  lemma FixedOctets(op: nat, size: nat, f: Flags)
    requires op < 16
    ensures HeaderOf(op, size, f).b0 == FirstOnWire(op, f) && HeaderOf(op, size, f).b1 == SecondOnWire(size, f)
  {
  }

  lemma HeaderPieces(op: nat, size: nat, f: Flags, key: bytes)
    requires op < 16 && size < TWO64 && |key| == 4
    ensures var h, u := HeaderOf(op, size, f), if f.masked then key else [];
            && |LengthForm(size)| == (if size <= 125 then 0 else if size <= 65535 then 2 else 8)
            && PrepareHeader(h, Padded(LengthForm(size) + u)) == [h.b0, h.b1] + LengthForm(size) + u
  {
    hide DigitsOf, Reversed, HeaderOf, GetFlags, GetBasicSize, GetOpcode;
    var h := HeaderOf(op, size, f);
    var u, length := if f.masked then key else [], LengthForm(size);
    HeaderLength(op, size, f);
    PaddedPrefix(length, u);
    assert Padded(length + u)[..GetHeaderLen(h) - 2] == length + u;
  }

  lemma HeaderLength(op: nat, size: nat, f: Flags)
    ensures GetHeaderLen(HeaderOf(op, size, f)) ==
            2 + (if size <= 125 then 0 else if size <= 65535 then 2 else 8) + (if f.masked then 4 else 0)
  {
    HeaderOfGives(op, size, f);
  }
}
