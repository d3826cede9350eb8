/**
 * C integer division and remainder. C's `/` truncates toward zero and `%`
 * takes the sign of the dividend, whereas Dafny's `/` and `%` on `int` are
 * Euclidean. The model of the C code uses these two functions wherever the
 * source divides.
 */
module CInt {

  /** `a / b` as C computes it for a positive divisor: truncated toward zero. */
  function CDiv(a: int, b: int): (q: int)
    requires b > 0
    ensures a >= 0 ==> 0 <= a - q * b < b
    ensures a < 0 ==> -b < a - q * b <= 0
  {
    if a >= 0 then a / b else -((-a) / b)
  }

  /** `a % b` as C computes it for a positive divisor: same sign as `a`. */
  function CRem(a: int, b: int): (m: int)
    requires b > 0
    ensures a == CDiv(a, b) * b + m
    ensures a >= 0 ==> 0 <= m < b
    ensures a < 0 ==> -b < m <= 0
  {
    a - CDiv(a, b) * b
  }

  /** On a non-negative dividend the C and the Dafny operators agree. */
  lemma NonNegativeDivision(a: int, b: int)
    requires a >= 0 && b > 0
    ensures CDiv(a, b) == a / b && CRem(a, b) == a % b
  {
  }

  /** On a negative dividend they do not: C's `-1 / 2` is 0, Dafny's is -1. */
  lemma MinusOneHalf()
    ensures CDiv(-1, 2) == 0 && -1 / 2 == -1
  {
  }
}
