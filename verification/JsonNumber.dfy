/** Integers as decimal text: `uintToString`, `valueToString` and the integer part of `decodeNumber`. */
module JsonNumber {
  import opened Bytes
  import opened JsonValue
  import opened JsonMap

  const ZERO: byte := 0x30
  const MINUS: byte := 0x2D

  predicate IsDigit(b: byte) {
    0x30 <= b <= 0x39
  }

  predicate AllDigits(ds: bytes) {
    forall i | 0 <= i < |ds| :: IsDigit(ds[i])
  }

  /** The number that a digit string denotes. */
  function NumberOf(ds: bytes): nat
    requires AllDigits(ds)
  {
    if ds == [] then 0 else NumberOf(ds[..|ds| - 1]) * 10 + (ds[|ds| - 1] - ZERO)
  }

  /** Shortest decimal text of `n`. */
  function Digits(n: nat): bytes {
    if n < 10 then [ZERO + n] else Digits(n / 10) + [ZERO + n % 10]
  }

  lemma {:induction false} DigitsDenote(n: nat)
    ensures Digits(n) != [] && AllDigits(Digits(n)) && NumberOf(Digits(n)) == n
  {
    if n >= 10 {
      DigitsDenote(n / 10);
      assert Digits(n)[..|Digits(n)| - 1] == Digits(n / 10);
    } else {
      assert Digits(n)[..0] == [];
    }
  }

  function Pow10(k: nat): nat {
    if k == 0 then 1 else 10 * Pow10(k - 1)
  }

  lemma {:induction false} DigitsLength(n: nat, k: nat)
    requires k > 0 && n < Pow10(k)
    ensures |Digits(n)| <= k
  {
    if n >= 10 {
      DigitsLength(n / 10, k - 1);
    }
  }

  lemma Pow10Of20()
    ensures Pow10(20) == 100_000_000_000_000_000_000
  {
    assert Pow10(5) == 100_000;
    assert Pow10(10) == 10_000_000_000;
    assert Pow10(15) == 1_000_000_000_000_000;
  }

  /** A 64-bit magnitude has at most 20 digits, so sign, digits and terminator fit in 3 * 8 + 1 bytes. */
  lemma DigitsFit(n: nat)
    requires n < TWO64
    ensures |Digits(n)| <= 20
  {
    Pow10Of20();
    DigitsLength(n, 20);
  }

  // ---- printing ----

  const BUFFER_SIZE: nat := 25

  /** `uintToString`: writes backwards from `current`, a terminator and then the digits. */
  method UintToString(value: nat, buffer: array<byte>, current: nat) returns (start: nat)
    requires |Digits(value)| < current <= buffer.Length
    modifies buffer
    ensures start == current - 1 - |Digits(value)|
    ensures buffer[start..current - 1] == Digits(value) && buffer[current - 1] == 0
    ensures forall j | 0 <= j < buffer.Length && !(start <= j < current) :: buffer[j] == old(buffer[j])
  {
    hide Digits;
    buffer[current - 1] := 0;
    start := current - 1;
    var v := value;
    assert Digits(value) == Digits(v) + buffer[start..current - 1];
    while true
      invariant 0 <= start < current
      invariant Digits(value) == Digits(v) + buffer[start..current - 1]
      invariant buffer[current - 1] == 0
      invariant forall j | 0 <= j < buffer.Length && !(start <= j < current) :: buffer[j] == old(buffer[j])
      decreases v
    {
      LastDigit(v);
      ghost var rest := buffer[start..current - 1];
      start := start - 1;
      buffer[start] := ZERO + v % 10;
      assert buffer[start..current - 1] == [ZERO + v % 10] + rest;
      if v / 10 == 0 {
        break;
      }
      assert Digits(v / 10) + [ZERO + v % 10] + rest == Digits(v / 10) + ([ZERO + v % 10] + rest);
      v := v / 10;
    }
  }

  lemma LastDigit(v: nat)
    ensures Digits(v) == (if v / 10 == 0 then [] else Digits(v / 10)) + [ZERO + v % 10]
  {
  }

  /** `-x` on a 64-bit signed integer. */
  function Negate64(x: int): int {
    if x == -TWO63 then x else -x
  }

  function ToUInt64(x: int): nat {
    x % TWO64
  }

  /** Decimal text of a 64-bit signed integer. */
  function IntText(i: int): bytes {
    if i < 0 then [MINUS] + Digits(-i) else Digits(i)
  }

  /** `valueToString(LargestInt)`, including the one value whose negation overflows. */
  method IntToString(value: int) returns (text: bytes)
    requires -TWO63 <= value < TWO63
    ensures text == IntText(value)
  {
    var buffer := new byte[BUFFER_SIZE](_ => 0);
    var current := BUFFER_SIZE;
    var isNegative := value < 0;
    var v := if isNegative then Negate64(value) else value;
    assert ToUInt64(v) == if isNegative then -value else value;
    DigitsFit(ToUInt64(v));
    current := UintToString(ToUInt64(v), buffer, current);
    text := buffer[current..BUFFER_SIZE - 1];
    if isNegative {
      ghost var digits := text;
      current := current - 1;
      buffer[current] := MINUS;
      text := buffer[current..BUFFER_SIZE - 1];
      assert text == [MINUS] + digits;
    }
  }

  /** `valueToString(LargestUInt)` */
  method UIntToText(value: nat) returns (text: bytes)
    requires value < TWO64
    ensures text == Digits(value)
  {
    var buffer := new byte[BUFFER_SIZE](_ => 0);
    DigitsFit(value);
    var current := UintToString(value, buffer, BUFFER_SIZE);
    text := buffer[current..BUFFER_SIZE - 1];
  }

  // ---- decoding ----

  function Magnitude(t: bytes): bytes {
    if t != [] && t[0] == MINUS then t[1..] else t
  }

  function MaxMagnitude(t: bytes): nat {
    if t != [] && t[0] == MINUS then TWO63 else TWO64 - 1
  }

  /**
    * A number token is an integer exactly when it is a digit string, signed or not, whose number
    * lies between -2^63 and 2^64 - 1. Above 2^31 - 1 it is tagged unsigned. The lone sign is 0.
    */
  function DecodeInteger(t: bytes): Option<Value> {
    var ds := Magnitude(t);
    if AllDigits(ds) && NumberOf(ds) <= MaxMagnitude(t) then
      var n := NumberOf(ds);
      Some(if t != [] && t[0] == MINUS then Int(0 - n) else if n < TWO31 then Int(n) else UInt(n))
    else None
  }

  lemma {:induction false} PrefixNumber(ds: bytes, i: nat)
    requires AllDigits(ds) && i <= |ds|
    ensures NumberOf(ds[..i]) <= NumberOf(ds)
    ensures i < |ds| ==> 10 * NumberOf(ds[..i]) <= NumberOf(ds)
    decreases |ds| - i
  {
    if i == |ds| {
      assert ds[..i] == ds;
    } else {
      assert ds[..i + 1][..i] == ds[..i];
      PrefixNumber(ds, i + 1);
    }
  }

  /**
    * `decodeNumber` up to the point where it gives up and calls `decodeDouble` (None): the guard
    * on `threshold` keeps the 64-bit accumulator exact throughout.
    */
  method DecodeNumber(t: bytes) returns (r: Option<Value>)
    ensures r == DecodeInteger(t)
  {
    hide NumberOf;
    var isNegative := At(t, 0) == MINUS;
    var current := if isNegative then 1 else 0;
    ghost var ds := Magnitude(t);
    var maxIntegerValue: nat := if isNegative then TWO63 else TWO64 - 1;
    var threshold := maxIntegerValue / 10;
    var value: nat := 0;
    ghost var i := 0;
    NoDigits();
    while current < |t|
      invariant 0 <= i <= |ds| && current == i + (if isNegative then 1 else 0) && |t| == |ds| + current - i
      invariant AllDigits(ds[..i]) && value == NumberOf(ds[..i]) <= maxIntegerValue
    {
      var c := t[current];
      assert c == ds[i];
      current := current + 1;
      if c < ZERO || c > 0x39 {
        return None;
      }
      OneMoreDigit(ds, i);
      var digit := c - ZERO;
      if value >= threshold {
        if value > threshold || current != |t| || digit > maxIntegerValue % 10 {
          TooLarge(ds, i, maxIntegerValue);
          return None;
        }
      }
      assert value * 10 + digit < TWO64;  // no wrap-around
      value := value * 10 + digit;
      i := i + 1;
    }
    assert ds[..i] == ds;
    if isNegative {
      r := Some(Int(Negate64(ToInt64(value))));
    } else if value <= TWO31 - 1 {
      r := Some(Int(value));
    } else {
      r := Some(UInt(value));
    }
  }

  lemma NoDigits()
    ensures NumberOf([]) == 0
  {
  }

  lemma OneMoreDigit(ds: bytes, i: nat)
    requires i < |ds| && AllDigits(ds[..i]) && IsDigit(ds[i])
    ensures AllDigits(ds[..i + 1]) && NumberOf(ds[..i + 1]) == NumberOf(ds[..i]) * 10 + (ds[i] - ZERO)
  {
    assert ds[..i + 1][..i] == ds[..i];
  }

  /** Past the threshold the number is out of range, whatever digits may follow. */
  lemma TooLarge(ds: bytes, i: nat, max: nat)
    requires i < |ds| && AllDigits(ds[..i]) && IsDigit(ds[i]) && 10 <= max
    requires NumberOf(ds[..i]) >= max / 10
    requires NumberOf(ds[..i]) > max / 10 || i + 1 != |ds| || ds[i] - ZERO > max % 10
    ensures AllDigits(ds) ==> NumberOf(ds) > max
  {
    hide NumberOf;
    OneMoreDigit(ds, i);
    if AllDigits(ds) {
      PrefixNumber(ds, i + 1);
    }
  }

  /** `LargestInt(value)` of a 64-bit unsigned integer. */
  function ToInt64(x: nat): int
    requires x < TWO64
  {
    if x < TWO63 then x else x - TWO64
  }

  /** Printing an integer and decoding the text gives the integer back, retagged by magnitude. */
  function Retag(n: int): Value
    requires -TWO63 <= n < TWO64
  {
    if n < TWO31 then Int(n) else UInt(n)
  }

  lemma DecodeInvertsPrinting(n: int)
    requires -TWO63 <= n < TWO64
    ensures DecodeInteger(IntText(n)) == Some(Retag(n))
  {
    if n < 0 {
      DigitsDenote(-n);
      assert Magnitude(IntText(n)) == Digits(-n);
    } else {
      DigitsDenote(n);
      assert IsDigit(Digits(n)[0]);
    }
  }
}
