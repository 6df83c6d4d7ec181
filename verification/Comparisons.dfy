/** fcmp and c_fcmp: comparison of reals with a tolerance. */
module Comparisons {

  type Compare = (real, real) -> int

  /** A comparison that may call close values equal, but is never wrong about a strict order. */
  ghost predicate Comparison(cmp: Compare) {
    forall x, y :: -1 <= cmp(x, y) <= 1 && (cmp(x, y) > 0 ==> x > y) && (cmp(x, y) < 0 ==> x < y)
  }

  /** A comparison that calls only equal values equal. */
  ghost predicate Exact(cmp: Compare) {
    forall x, y :: cmp(x, y) == 0 ==> x == y
  }
}
