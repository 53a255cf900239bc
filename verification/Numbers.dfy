/** Go's conversions of numbers, and sums of equal steps. */
module Numbers {

  /** A float to an integer: toward zero. */
  function Truncate(x: real): int {
    if x >= 0.0 then x.Floor else -((-x).Floor)
  }

  /** Integer division by two: toward zero. */
  function Half(x: int): int {
    if x >= 0 then x / 2 else -((-x) / 2)
  }

  /** Truncation keeps the sign, and what it takes off is less than one. */
  lemma TruncateTowardZero(x: real)
    ensures if x >= 0.0 then 0 <= Truncate(x) && Truncate(x) as real <= x < Truncate(x) as real + 1.0
            else Truncate(x) <= 0 && Truncate(x) as real - 1.0 < x <= Truncate(x) as real
  {
  }

  lemma HalfTowardZero(x: int)
    ensures if x >= 0 then 0 <= Half(x) && 2 * Half(x) <= x < 2 * Half(x) + 2
            else Half(x) <= 0 && 2 * Half(x) - 2 < x <= 2 * Half(x)
  {
  }

  lemma Divided(a: real, b: real)
    requires a > 0.0 && b > 0.0
    ensures a / b > 0.0 && b * (a / b) == a
  {
  }

  /** k steps of the given size. */
  function Total(k: nat, step: real): real {
    if k == 0 then 0.0 else Total(k - 1, step) + step
  }

  lemma {:induction false} TotalIsProduct(k: nat, step: real)
    ensures Total(k, step) == k as real * step
  {
    if k > 0 {
      TotalIsProduct(k - 1, step);
    }
  }

  /** Enough steps exceed any bound. */
  lemma Archimedes(step: real, bound: real) returns (k: nat)
    requires step > 0.0 && bound > 0.0
    ensures Total(k, step) > bound
  {
    Divided(bound, step);
    k := (bound / step).Floor + 1;
    TotalIsProduct(k, step);
    Exceeds(bound / step, k as real, step);
  }

  lemma Exceeds(a: real, b: real, step: real)
    requires a < b && step > 0.0
    ensures b * step > step * a
  {
  }
}
