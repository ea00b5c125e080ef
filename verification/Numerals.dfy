/** Decimal numerals: how integers are printed, and that printing and decoding are inverse. */
module Numerals {
  import opened Bytes
  import opened Values
  import opened Decoding

  /** The minimal decimal numeral of `n`. */
  function Decimal(n: nat): (t: Text)
    ensures t != []
  {
    if n < 10 then [ZERO + n] else Decimal(n / 10) + [ZERO + n % 10]
  }

  /** valueToString of a signed integer. */
  function IntText(i: int): Text {
    if i < 0 then [MINUS] + Decimal(-i) else Decimal(i)
  }

  predicate AllDigits(t: Text) {
    forall i | 0 <= i < |t| :: IsDigit(t[i])
  }

  function Pow10(k: nat): (r: nat)
    ensures r > 0
  {
    if k == 0 then 1 else 10 * Pow10(k - 1)
  }

  function Pow256(k: nat): nat {
    if k == 0 then 1 else 256 * Pow256(k - 1)
  }

  // ---- printing ----

  /** Only digits, no leading zero, and as many as the magnitude needs. */
  lemma {:induction false} DecimalShape(n: nat)
    ensures AllDigits(Decimal(n))
    ensures Decimal(n)[0] == ZERO ==> n == 0
    ensures n > 0 ==> Pow10(|Decimal(n)| - 1) <= n
    ensures n < Pow10(|Decimal(n)|)
  {
    if n >= 10 {
      DecimalShape(n / 10);
    } else {
      assert Pow10(1) == 10 * Pow10(0);
    }
  }

  lemma {:induction false} Pow10Monotone(j: nat, k: nat)
    requires j <= k
    ensures Pow10(j) <= Pow10(k)
  {
    if j < k {
      Pow10Monotone(j, k - 1);
    }
  }

  /** A number below 10^k has at most k digits. */
  lemma DecimalLength(n: nat, k: nat)
    requires n < Pow10(k) && k > 0
    ensures |Decimal(n)| <= k
  {
  }

  lemma {:induction false} Pow256Below(k: nat)
    ensures Pow256(k) <= Pow10(3 * k)
  {
    if k > 0 {
      Pow256Below(k - 1);
      assert Pow10(3 * k) == 10 * Pow10(3 * k - 1) == 100 * Pow10(3 * k - 2) == 1000 * Pow10(3 * (k - 1));
    }
  }

  /** Why 3 * sizeof + 1 characters are enough: a k-byte integer has at most 3k digits. */
  lemma BufferBound(n: nat, k: nat)
    requires n < Pow256(k) && k > 0
    ensures |Decimal(n)| <= 3 * k
  {
    Pow256Below(k);
    DecimalLength(n, 3 * k);
  }

  const UINT_TO_STRING_BUFFER_SIZE: nat := 25

  lemma LargestIntegers()
    ensures UINT_MAX + 1 == TWO64 == Pow256(8)
    ensures INT64_MAX + 1 < Pow10(19)
  {
    assert Pow256(4) == 0x1_0000_0000 by {
      assert Pow256(2) == 0x1_0000;
    }
    assert Pow256(6) == 0x1_0000_0000_0000;
    assert Pow10(4) == 10_000 by {
      assert Pow10(2) == 100;
    }
    assert Pow10(8) == 100_000_000 by {
      assert Pow10(6) == 1_000_000;
    }
    assert Pow10(12) == 1_000_000_000_000 by {
      assert Pow10(10) == 10_000_000_000;
    }
    assert Pow10(16) == 10_000_000_000_000_000 by {
      assert Pow10(14) == 100_000_000_000_000;
    }
    assert Pow10(18) == 1_000_000_000_000_000_000;
  }

  /** The last digit goes in front of those after it. */
  lemma DecimalStep(value: nat, tail: Text)
    ensures Decimal(value) + tail ==
            if value < 10 then [ZERO + value % 10] + tail else Decimal(value / 10) + ([ZERO + value % 10] + tail)
    ensures |Decimal(value)| == if value < 10 then 1 else |Decimal(value / 10)| + 1
  {
  }

  /** Writes the numeral of `value` backwards from `current`, after a terminating zero. */
  method UintToString(value0: nat, buffer: array<Byte>, current0: nat) returns (current: nat)
    requires |Decimal(value0)| + 1 <= current0 <= buffer.Length
    modifies buffer
    ensures current == current0 - 1 - |Decimal(value0)|
    ensures buffer[current..current0] == Decimal(value0) + [NUL]
    ensures buffer[..current] == old(buffer[..current]) && buffer[current0..] == old(buffer[current0..])
  {
    hide Decimal;
    var value := value0;
    current := current0 - 1;
    buffer[current] := NUL;
    ghost var tail := [NUL];
    while true
      invariant current < current0 && |Decimal(value)| <= current
      invariant buffer[current..current0] == tail
      invariant Decimal(value) + tail == Decimal(value0) + [NUL]
      invariant buffer[..current] == old(buffer[..current]) && buffer[current0..] == old(buffer[current0..])
      decreases value
    {
      DecimalStep(value, tail);
      current := current - 1;
      buffer[current] := ZERO + value % 10;
      tail := [ZERO + value % 10] + tail;
      assert buffer[current..current0] == tail;
      value := value / 10;
      if value == 0 {
        break;
      }
    }
    assert current == current0 - |tail|;
  }

  /** valueToString of a signed 64-bit integer; the smallest one is negated as an unsigned number. */
  method IntToString(value: int) returns (t: Text)
    requires INT_MIN <= value <= INT64_MAX
    ensures t == IntText(value)
  {
    hide Decimal;
    var buffer := new Byte[UINT_TO_STRING_BUFFER_SIZE](_ => NUL);
    var end := buffer.Length;
    // the smallest integer has no negation in its own type
    var magnitude: nat := if value == INT_MIN then INT64_MAX + 1 else if value < 0 then -value else value;
    assert |Decimal(magnitude)| <= 19 by {
      LargestIntegers();
      DecimalLength(magnitude, 19);
    }
    var current := UintToString(magnitude, buffer, end);
    t := buffer[current..end - 1];
    assert t == buffer[current..end][..|Decimal(magnitude)|] == Decimal(magnitude);
    if value < 0 {
      current := current - 1;
      buffer[current] := MINUS;
      assert buffer[current + 1..end - 1] == t;
      t := buffer[current..end - 1];
    }
  }

  method UintToText(value: nat) returns (t: Text)
    requires value <= UINT_MAX
    ensures t == Decimal(value)
  {
    var buffer := new Byte[UINT_TO_STRING_BUFFER_SIZE](_ => NUL);
    assert |Decimal(value)| <= 24 by {
      LargestIntegers();
      BufferBound(value, 8);
    }
    var current := UintToString(value, buffer, buffer.Length);
    t := buffer[current..buffer.Length - 1];
    assert t == buffer[current..buffer.Length][..|t|];
  }

  // ---- decoding ----

  predicate DigitsFrom(t: Text, i: nat) {
    forall k | i <= k < |t| :: IsDigit(t[k])
  }

  /** The number the digits of `t` from `i` on denote, after `acc`. */
  function Denoted(t: Text, i: nat, acc: nat): (n: nat)
    requires i <= |t| && DigitsFrom(t, i)
    ensures n >= acc
    ensures i < |t| ==> n >= acc * 10
    decreases |t| - i
  {
    if i == |t| then acc else Denoted(t, i + 1, acc * 10 + DigitValue(t[i]))
  }

  /** The accumulator gives the number denoted exactly when that does not exceed the maximum. */
  lemma {:induction false} AccumulateExact(t: Text, i: nat, max: nat, acc: nat)
    requires i <= |t| && DigitsFrom(t, i) && acc <= max && max >= 10
    ensures Accumulate(t, i, max, acc) ==
            if Denoted(t, i, acc) <= max then Some(Denoted(t, i, acc)) else None
    decreases |t| - i
  {
    if i < |t| {
      var next := acc * 10 + DigitValue(t[i]);
      if next <= max && (acc < max / 10 || i + 1 == |t|) {
        AccumulateExact(t, i + 1, max, next);
      } else if next <= max {
        // one digit more and the maximum is exceeded
        assert Denoted(t, i + 1, next) >= next * 10 > max;
      }
    }
  }

  /** The number a token denotes: an optional minus and digits. */
  function TokenNumber(t: Text): int
    requires DigitsFrom(t, if IsNegative(t) then 1 else 0)
  {
    if IsNegative(t) then 0 - Denoted(t, 1, 0) else Denoted(t, 0, 0)
  }

  /** The type that decoding chooses for an integer. */
  function Canonical(n: int): Payload {
    if n <= INT32_MAX then Int(n) else UInt(n)
  }

  /** Decoding is exact on [-2^63, 2^64 - 1] and leaves every other integer to the floating-point reader. */
  lemma DecodeIntegerExact(t: Text)
    requires DigitsFrom(t, if IsNegative(t) then 1 else 0)
    ensures DecodeInteger(t) ==
            var n := TokenNumber(t);
            if -0x8000_0000_0000_0000 <= n <= 0xFFFF_FFFF_FFFF_FFFF then
              Some(if n <= 0x7FFF_FFFF then Int(n) else UInt(n))
            else None
    ensures DecodeInteger(t).Some? ==> DecodeInteger(t).value == Canonical(TokenNumber(t))
  {
    var negative := IsNegative(t);
    AccumulateExact(t, if negative then 1 else 0, MaxMagnitude(negative), 0);
  }

  /** A text with anything but digits after the optional minus is left to the floating-point reader. */
  lemma {:induction false} AccumulateRejects(t: Text, i: nat, max: nat, acc: nat)
    requires i <= |t| && !DigitsFrom(t, i) && acc <= max
    ensures Accumulate(t, i, max, acc) == None
    decreases |t| - i
  {
    if IsDigit(t[i]) {
      var next := acc * 10 + DigitValue(t[i]);
      if next <= max {
        AccumulateRejects(t, i + 1, max, next);
      }
    }
  }

  // ---- printing then decoding ----

  lemma {:induction false} DenotedAppend(a: Text, d: Byte, i: nat, acc: nat)
    requires i <= |a| && DigitsFrom(a, i) && IsDigit(d)
    ensures DigitsFrom(a + [d], i)
    ensures Denoted(a + [d], i, acc) == Denoted(a, i, acc) * 10 + DigitValue(d)
    decreases |a| - i
  {
    if i < |a| {
      DenotedAppend(a, d, i + 1, acc * 10 + DigitValue(a[i]));
    } else {
      assert Denoted(a + [d], i + 1, acc * 10 + DigitValue(d)) == acc * 10 + DigitValue(d);
    }
  }

  lemma {:induction false} DenotedDecimal(prefix: Text, n: nat)
    ensures DigitsFrom(prefix + Decimal(n), |prefix|)
    ensures Denoted(prefix + Decimal(n), |prefix|, 0) == n
  {
    if n < 10 {
      assert Denoted(prefix + Decimal(n), |prefix| + 1, n) == n;
    } else {
      DenotedDecimal(prefix, n / 10);
      DenotedAppend(prefix + Decimal(n / 10), ZERO + n % 10, |prefix|, 0);
      assert prefix + Decimal(n) == prefix + Decimal(n / 10) + [ZERO + n % 10];
    }
  }

  /** Decoding what IntText prints gives the number back. */
  lemma PrintThenDecode(i: int)
    requires INT_MIN <= i <= UINT_MAX
    ensures DecodeInteger(IntText(i)) == Some(Canonical(i))
  {
    var t := IntText(i);
    if i < 0 {
      DenotedDecimal([MINUS], -i);
    } else {
      DenotedDecimal([], i);
      assert [] + Decimal(i) == t;
      DecimalShape(i);
      assert IsDigit(t[0]);
    }
    DecodeIntegerExact(t);
  }
}
