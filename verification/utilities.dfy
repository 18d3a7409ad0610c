/** source/numerical_analysis/utilities.ts */
module Utilities {

  /** `minmax(a, b)`: the pair ordered as [min, max]. */
  function MinMax(a: real, b: real): (r: (real, real))
    ensures r.0 <= r.1
    ensures (r.0 == a && r.1 == b) || (r.0 == b && r.1 == a)
    ensures a <= b ==> r == (a, b)
  {
    if a <= b then (a, b) else (b, a)
  }

  /** The order of the arguments does not matter. */
  lemma MinMaxSymmetric(a: real, b: real)
    ensures MinMax(a, b) == MinMax(b, a)
  {
  }

  /** A product of two positive reals is positive (stated on a named product so that the
      solver does not have to relate products by itself). */
  lemma ProductPositive(p: real, a: real, b: real)
    requires p == a * b && a > 0.0 && b > 0.0
    ensures p > 0.0
  {
  }
}
