/**
 * The outcome of Python's `float(rating)` on a rating field, kept abstract:
 * the text either raises ValueError, denotes a finite number, or denotes
 * `nan` or an infinity. Floating-point rounding is not modelled; a finite
 * rating is a real number.
 */
module Rating {
  datatype FloatInput = Unparsable | Finite(value: real) | NonFinite

  /**
   * `1 <= rating_float <= 5`. Both comparisons are False for `nan`, and one of
   * them is False for either infinity, so only a finite value can pass.
   */
  predicate InRange(f: FloatInput) {
    f.Finite? && 1.0 <= f.value <= 5.0
  }
}
