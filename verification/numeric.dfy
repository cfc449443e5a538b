/**
 * Machine integers of the C++ library written out over Dafny's unbounded
 * integers: the ranges of `int`, `int64_t` and `uint64_t`, division that
 * truncates toward zero, and decimal rendering as done by `%d`.
 */
module Numeric {
  const INT32_MIN: int := -0x8000_0000
  const INT32_MAX: int := 0x7FFF_FFFF
  const INT64_MIN: int := -0x8000_0000_0000_0000
  const INT64_MAX: int := 0x7FFF_FFFF_FFFF_FFFF
  /** 2^64, the modulus of `uint64_t` arithmetic. */
  const TWO_64: int := 0x1_0000_0000_0000_0000

  predicate IsInt32(x: int) { INT32_MIN <= x <= INT32_MAX }
  predicate IsInt64(x: int) { INT64_MIN <= x <= INT64_MAX }
  predicate IsUint64(x: int) { 0 <= x < TWO_64 }

  function Abs(x: int): nat { if x < 0 then -x else x }

  /**
   * C++ integer division: the quotient is truncated toward zero, so the
   * remainder takes the sign of the dividend (Dafny's own `/` is Euclidean).
   */
  function TruncDiv(a: int, b: int): (q: int)
    requires b != 0
    ensures Abs(a - q * b) < Abs(b)
    ensures a - q * b == 0 || ((a - q * b < 0) == (a < 0))
  {
    if a >= 0 then
      (if b > 0 then a / b else -(a / -b))
    else
      (if b > 0 then -((-a) / b) else (-a) / (-b))
  }

  /** The `uint64_t` value a conversion from a signed integer produces (two's complement). */
  function ToUnsigned(x: int): (u: int)
    requires IsInt64(x)
    ensures IsUint64(u)
    ensures x >= 0 ==> u == x
    ensures x < 0 ==> u == x + TWO_64
  {
    x % 0x1_0000_0000_0000_0000
  }

  /** The `int64_t` value a conversion from `uint64_t` produces (two's complement). */
  function ToSigned(u: int): (x: int)
    requires IsUint64(u)
    ensures IsInt64(x)
    ensures (x - u) % TWO_64 == 0
  {
    if u <= 0x7FFF_FFFF_FFFF_FFFF then u else u - 0x1_0000_0000_0000_0000
  }

  lemma SignedUnsignedRoundTrip(x: int)
    requires IsInt64(x)
    ensures ToSigned(ToUnsigned(x)) == x
  {
  }

  function DigitChar(d: int): (c: char)
    requires 0 <= d < 10
    ensures '0' <= c <= '9'
  {
    (d + '0' as int) as char
  }

  /** The decimal digits of `n` without leading zeros, as `%d` prints a natural number. */
  function NatToString(n: nat): (s: string)
    ensures |s| > 0
    ensures forall i :: 0 <= i < |s| ==> '0' <= s[i] <= '9'
    ensures |s| > 1 ==> s[0] != '0'
    decreases n
  {
    if n < 10 then [DigitChar(n)] else NatToString(n / 10) + [DigitChar(n % 10)]
  }

  /** `%d` of an integer: a minus sign before the digits of its magnitude when negative. */
  function IntToString(x: int): (s: string)
    ensures x >= 0 ==> s == NatToString(x)
    ensures x < 0 ==> s == "-" + NatToString(-x)
  {
    if x < 0 then "-" + NatToString(-x) else NatToString(x)
  }

  /** Reads a string of decimal digits back as the number it denotes. */
  function DecimalValue(s: string): nat
    requires forall i :: 0 <= i < |s| ==> '0' <= s[i] <= '9'
  {
    if |s| == 0 then 0
    else DecimalValue(s[..|s| - 1]) * 10 + (s[|s| - 1] as int - '0' as int)
  }

  /** Printing a natural number in decimal loses nothing: reading the digits gives it back. */
  lemma {:induction false} DecimalRoundTrip(n: nat)
    ensures DecimalValue(NatToString(n)) == n
    decreases n
  {
    if n >= 10 {
      var s := NatToString(n);
      assert s[..|s| - 1] == NatToString(n / 10);
      DecimalRoundTrip(n / 10);
    }
  }
}
