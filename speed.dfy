/**
 * The speed adjustments of main.py: one step up capped by `min(max_speed, speed + 1)`,
 * one step down floored by `max(min_speed, speed - 1)`.
 */
module Speed {

  /** min(hi, speed + 1). */
  function SpeedUp(speed: int, hi: int): (r: int)
    ensures r <= hi
    ensures speed < hi ==> r == speed + 1
    ensures speed >= hi ==> r == hi
  {
    if hi < speed + 1 then hi else speed + 1
  }

  /** max(lo, speed - 1). */
  function SpeedDown(speed: int, lo: int): (r: int)
    ensures r >= lo
    ensures speed > lo ==> r == speed - 1
    ensures speed <= lo ==> r == lo
  {
    if lo > speed - 1 then lo else speed - 1
  }

  /** max(a, b): the larger of the two. */
  function Max(a: int, b: int): (r: int)
    ensures r >= a && r >= b && (r == a || r == b)
  {
    if a > b then a else b
  }

  /** Both adjustments keep a speed that is within [lo, hi] within [lo, hi]. */
  lemma AdjustStaysInRange(speed: int, lo: int, hi: int)
    requires lo <= speed <= hi
    ensures lo <= SpeedUp(speed, hi) <= hi
    ensures lo <= SpeedDown(speed, lo) <= hi
  {
  }
}
