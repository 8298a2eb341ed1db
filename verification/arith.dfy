/** Integer forms of the two JavaScript roundings the core applies to an
    exact quotient: `Math.ceil(a / b)` and `Math.round(a / b)`. */
module Arith {

  /** `Math.ceil(a / b)` for a positive divisor: the least integer `q` with
      `q * b >= a`. Dafny's `/` on a positive divisor is floor division, so
      the ceiling is the negated floor of the negated dividend. */
  function CeilDiv(a: int, b: int): (q: int)
    requires b > 0
    ensures q * b >= a
    ensures (q - 1) * b < a
  {
    -((-a) / b)
  }

  /** `Math.round(a / b)` for a non-negative dividend and positive divisor:
      the nearest integer, halves rounded up. */
  function RoundHalfUp(a: nat, b: nat): (q: nat)
    requires b > 0
    ensures 2 * q * b <= 2 * a + b < 2 * (q + 1) * b
  {
    (2 * a + b) / (2 * b)
  }

  /** A rounded percentage of a part within its whole lies in 0..100. */
  lemma PercentAtMostHundred(part: nat, whole: nat)
    requires 0 < whole && part <= whole
    ensures RoundHalfUp(100 * part, whole) <= 100
  {
    var q := RoundHalfUp(100 * part, whole);
    MulMonotone(101, q, whole);
  }

  /** Multiplying by a non-negative factor keeps `<=`. */
  lemma MulMonotone(x: nat, y: nat, k: nat)
    ensures x <= y ==> x * k <= y * k
  {
    if x <= y {
      assert y * k == x * k + (y - x) * k;
    }
  }
}
