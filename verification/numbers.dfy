/**
 * JavaScript numbers as they reach the filter and duration code: a finite
 * value, one of the two infinities, or NaN. Finite values are exact reals.
 */
module Numbers {

  datatype Num = Fin(r: real) | PosInf | NegInf | NaN {

    /** `Number.isFinite`. */
    predicate IsFinite() {
      Fin?
    }
  }

  /** JavaScript's `v < n` for a finite integer `v`. */
  predicate Below(v: int, n: Num) {
    match n
    case Fin(r) => (v as real) < r
    case PosInf => true
    case NegInf => false
    case NaN => false
  }

  /** JavaScript's `v > n` for a finite integer `v`. */
  predicate Above(v: int, n: Num) {
    match n
    case Fin(r) => (v as real) > r
    case PosInf => false
    case NegInf => true
    case NaN => false
  }

  function MaxReal(a: real, b: real): real {
    if a >= b then a else b
  }

  function MaxInt(a: int, b: int): int {
    if a >= b then a else b
  }

  function MinReal(a: real, b: real): real {
    if a <= b then a else b
  }
}
