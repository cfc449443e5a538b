/**
 * IEEE doubles as the library uses them: a finite value is a real number,
 * and the special values are kept apart. Only the limits the library reads
 * from `numeric_limits<double>` are given exact values.
 */
module Doubles {
  /** A double: not-a-number, an infinity, or a finite real. */
  datatype Double = NaN | PosInf | NegInf | Finite(v: real)

  /** 2^n as a real. */
  function Pow2R(n: nat): (r: real)
    ensures r >= 1.0
    ensures r >= (n + 1) as real
  {
    if n == 0 then 1.0 else 2.0 * Pow2R(n - 1)
  }

  /** `numeric_limits<double>::min()`: the smallest positive normal double, 2^-1022 (not the most negative one). */
  const MIN_POSITIVE: real := 1.0 / Pow2R(1022)

  /** `numeric_limits<double>::max()`: (2 - 2^-52)·2^1023. */
  const MAX: real := (2.0 - 1.0 / Pow2R(52)) * Pow2R(1023)

  /** The smallest positive normal is positive but below one; the largest finite double is above one. */
  lemma LimitsOrder()
    ensures 0.0 < MIN_POSITIVE < 1.0
    ensures 1024.0 <= MAX
  {
    var p := Pow2R(1022);
    assert p >= 1023.0;
    assert MIN_POSITIVE * p == 1.0;
    var q := Pow2R(52);
    assert 1.0 / q <= 1.0 by {
      assert (1.0 / q) * q == 1.0;
    }
    var m := Pow2R(1023);
    assert m >= 1024.0;
    assert MAX >= 1.0 * m;
  }
}
