/** The C integer facts the kernel depends on: the ranges of int16_t and
    int32_t, the truncating `/` of C on signed operands, and the conversion
    of an `int` value to `int16_t`. */
module CInt {

  const INT16_MIN: int := -0x8000
  const INT16_MAX: int := 0x7FFF
  const INT32_MIN: int := -0x8000_0000
  const INT32_MAX: int := 0x7FFF_FFFF

  /** The values an `int16_t` holds. */
  predicate IsInt16(x: int) {
    INT16_MIN <= x <= INT16_MAX
  }

  type Int16 = x: int | IsInt16(x)

  predicate IsInt32(x: int) {
    INT32_MIN <= x <= INT32_MAX
  }

  /** C's `/` for a positive divisor: the quotient rounded toward zero
      (section 6.5.5 of ISO/IEC 9899:2011). Dafny's own `/` is Euclidean
      and differs for a negative dividend. The remainder `a - q * b` is
      smaller than the divisor in magnitude and never has the opposite
      sign of the dividend. */
  function TDiv(a: int, b: int): (q: int)
    requires b > 0
    ensures -b < a - q * b < b
    ensures a >= 0 ==> 0 <= a - q * b
    ensures a <= 0 ==> a - q * b <= 0
  {
    if a >= 0 then a / b else -((-a) / b)
  }

  /** The two remainder conditions of TDiv determine the quotient. */
  lemma TDivUnique(a: int, b: int, q: int)
    requires b > 0
    requires -b < a - q * b < b
    requires a >= 0 ==> 0 <= a - q * b
    requires a <= 0 ==> a - q * b <= 0
    ensures q == TDiv(a, b)
  {
    var t := TDiv(a, b);
    // otherwise the two remainders, of the same sign and each smaller than b
    // in magnitude, would lie a multiple of b apart
    if q < t {
      MulAtLeast(t - q, b);
      Distribute(t, q, b);
    } else if q > t {
      MulAtLeast(q - t, b);
      Distribute(q, t, b);
    }
  }

  /** Only the remainder bound of TDiv is needed to place a quotient
      between two bounds of the dividend. */
  lemma QuotientBetween(a: int, b: int, q: int, lo: int, hi: int)
    requires b > 0
    requires -b < a - q * b < b
    requires lo * b <= a <= hi * b
    ensures lo <= q <= hi
  {
    if q < lo {
      MulAtLeast(lo - q, b);
      Distribute(lo, q, b);
    } else if q > hi {
      MulAtLeast(q - hi, b);
      Distribute(q, hi, b);
    }
  }

  lemma MulAtLeast(d: int, b: int)
    requires d >= 1 && b > 0
    ensures d * b >= b
  {
  }

  lemma Distribute(x: int, y: int, b: int)
    ensures (x - y) * b == x * b - y * b
  {
  }

  /** The conversion of an `int` value to `int16_t` as the compiler for the
      target performs it: reduction modulo 2^16 into the int16_t range
      (section 6.3.1.3 of ISO/IEC 9899:2011 leaves out-of-range values
      implementation-defined). A value already in range is unchanged. */
  function Wrap16(x: int): (r: int)
    ensures IsInt16(r)
    ensures (x - r) % 0x1_0000 == 0
    ensures IsInt16(x) ==> r == x
  {
    (x - INT16_MIN) % 0x1_0000 + INT16_MIN
  }

  /** How C's quotient relates to Dafny's Euclidean one for a positive
      divisor: C's is symmetric under negating the dividend, agrees with
      Dafny's when the dividend is non-negative or divisible, and is one
      larger (closer to zero) for a negative dividend with a remainder. */
  lemma TruncatesTowardZero(a: int, b: int)
    requires b > 0
    ensures TDiv(-a, b) == -TDiv(a, b)
    ensures a >= 0 || a % b == 0 ==> TDiv(a, b) == a / b
    ensures a < 0 && a % b != 0 ==> TDiv(a, b) == a / b + 1
  {
    TDivNegate(a, b);
    TDivEuclidean(a, b);
  }

  /** Negating the dividend negates C's quotient. */
  lemma TDivNegate(a: int, b: int)
    requires b > 0
    ensures TDiv(-a, b) == -TDiv(a, b)
  {
    var q := TDiv(a, b);
    assert -a - (-q) * b == -(a - q * b);
    TDivUnique(-a, b, -q);
  }

  /** C's quotient is Dafny's, moved one toward zero when a negative
      dividend leaves a remainder. */
  lemma TDivEuclidean(a: int, b: int)
    requires b > 0
    ensures TDiv(a, b) == a / b + (if a < 0 && a % b != 0 then 1 else 0)
  {
    var e, r := a / b, a % b;
    assert a == e * b + r && 0 <= r < b;
    if a < 0 && r != 0 {
      assert a - (e + 1) * b == r - b by { Distribute(e + 1, e, b); }
      TDivUnique(a, b, e + 1);
    } else {
      TDivUnique(a, b, e);
    }
  }
}
