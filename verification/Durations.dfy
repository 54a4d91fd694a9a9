/** Nanoseconds, the unit of every instant and duration that is not a real number. */
module Durations {
  const SECOND: nat := 1_000_000_000
  const MICROSECOND: nat := 1_000

  /** Whole seconds pass through a division by a second or a microsecond. */
  lemma WholeSecondsShift(n: int, x: int)
    ensures (n * SECOND + x) / SECOND == n + x / SECOND
    ensures (n * SECOND + x) / MICROSECOND == n * 1_000_000 + x / MICROSECOND
  {}

  lemma RoundingMonotone(x: int, y: int)
    requires x <= y
    ensures x / SECOND <= y / SECOND && x / MICROSECOND <= y / MICROSECOND
  {}

  lemma NoCarry(x: nat, d: nat)
    ensures x / MICROSECOND >= (x + d) / MICROSECOND <==> d < MICROSECOND - x % MICROSECOND
  {}
}
