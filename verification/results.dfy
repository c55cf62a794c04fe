/** The error-or-value type every fallible step of the model returns, in place of the
    source's `fprintf(stderr, …); return 0;` / `return EXIT_FAILURE;` paths. */
module Results {

  datatype Result<+T, +E> = Ok(value: T) | Err(error: E) {

    predicate IsFailure() {
      Err?
    }

    function PropagateFailure<U>(): Result<U, E>
      requires Err?
    {
      Err(error)
    }

    function Extract(): T
      requires Ok?
    {
      value
    }
  }
}

/** Fixed-width integer limits of the C sources. */
module Limits {

  /** INT_MAX of a 32-bit `int`. */
  const INT_MAX: int := 0x7fff_ffff

  /** LONG_MAX of a 64-bit `long`, where `strtol` saturates. */
  const LONG_MAX: int := 0x7fff_ffff_ffff_ffff

  function Min(a: int, b: int): int {
    if a <= b then a else b
  }

  function Max(a: int, b: int): int {
    if a >= b then a else b
  }

  /** `sum_with_limit` (src/nonogram.c:1159-1164): adds two non-negative counts, saturating at
      INT_MAX. The comparison `a <= INT_MAX - b` is the overflow-free form of `a + b <= INT_MAX`:
      neither it nor the sum it guards leaves the 32-bit range. */
  function SumWithLimit(a: int, b: int): (r: int)
    requires 0 <= a <= INT_MAX && 0 <= b <= INT_MAX
    ensures 0 <= INT_MAX - b <= INT_MAX
    ensures r == Min(a + b, INT_MAX)
    ensures 0 <= r <= INT_MAX
    ensures r > 0 <==> a > 0 || b > 0
  {
    if a <= INT_MAX - b then a + b else INT_MAX
  }

  /** Saturating sums compose: adding two counts that were each already clamped gives the clamp of
      the exact total, so a chain of `sum_with_limit` calls reports min(total, INT_MAX). */
  lemma SaturationComposes(x: nat, y: nat)
    ensures SumWithLimit(Min(x, INT_MAX), Min(y, INT_MAX)) == Min(x + y, INT_MAX)
  {
  }
}
