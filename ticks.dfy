/**
 * MicroPython's millisecond tick counter. `time.ticks_ms()` returns a value in
 * `[0, TicksPeriod)` that wraps around; `time.ticks_diff(a, b)` is the signed
 * difference `a - b` taken modulo the period into `[-TicksPeriod/2, TicksPeriod/2)`.
 * The period is the small-integer range of a 32-bit port, 2^30.
 */
module Ticks {

  const TicksPeriod: int := 0x4000_0000
  const TicksHalf: int := TicksPeriod / 2

  /** A value `ticks_ms()` can return. */
  predicate IsTick(t: int) {
    0 <= t < TicksPeriod
  }

  /** `time.ticks_diff(a, b)`. */
  function TicksDiff(a: int, b: int): (d: int)
    ensures -TicksHalf <= d < TicksHalf
    ensures (d - (a - b)) % TicksPeriod == 0
  {
    var d := (a - b + TicksHalf) % TicksPeriod - TicksHalf;
    assert d - (a - b) == ((a - b + TicksHalf) % TicksPeriod) - (a - b + TicksHalf);
    d
  }

  /** The counter value `e` milliseconds after `start`, across wrap-around. */
  function TicksAdd(start: int, e: int): (t: int)
    ensures IsTick(t)
  {
    (start + e) % TicksPeriod
  }

  /** Numbers that agree modulo the period and lie in one half-open window of it are equal. */
  lemma WindowUnique(x: int, y: int)
    requires -TicksHalf <= x < TicksHalf && -TicksHalf <= y < TicksHalf
    requires (x - y) % TicksPeriod == 0
    ensures x == y
  {
  }

  /**
   * The elapsed time `ticks_diff` measures across a wrap-around of the
   * counter is the true elapsed time whenever that is below half the period.
   */
  lemma TicksDiffElapsed(start: int, e: int)
    requires IsTick(start)
    requires -TicksHalf <= e < TicksHalf
    ensures TicksDiff(TicksAdd(start, e), start) == e
  {
    var now := TicksAdd(start, e);
    var d := TicksDiff(now, start);
    assert (now - (start + e)) % TicksPeriod == 0;
    assert (d - e) % TicksPeriod == 0 by {
      assert d - e == (d - (now - start)) + (now - (start + e));
    }
    WindowUnique(d, e);
  }

  /**
   * Once half the period or more has passed, `ticks_diff` no longer measures
   * the elapsed time: it returns `e - TicksPeriod`, a negative number.
   */
  lemma TicksDiffPastHalf(start: int, e: int)
    requires IsTick(start)
    requires TicksHalf <= e < TicksPeriod
    ensures TicksDiff(TicksAdd(start, e), start) == e - TicksPeriod
  {
    var now := TicksAdd(start, e);
    var d := TicksDiff(now, start);
    assert (now - (start + e)) % TicksPeriod == 0;
    assert (d - (e - TicksPeriod)) % TicksPeriod == 0 by {
      assert d - (e - TicksPeriod) == (d - (now - start)) + (now - (start + e)) + TicksPeriod;
    }
    WindowUnique(d, e - TicksPeriod);
  }
}
