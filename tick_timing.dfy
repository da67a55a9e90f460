/**
 * Clock arithmetic of the watch face's redraw timer: Java's remainder on
 * `long` values, the two update rates, and the delay after which the next
 * `MSG_UPDATE_TIME` tick is posted so that ticks land on whole multiples of
 * the update rate.
 */
module TickTiming {

  /** Update rate in interactive mode: twice a second, so the colon can blink. */
  const NormalUpdateRateMs: int := 500

  /** Update rate in mute mode: once a minute (`TimeUnit.MINUTES.toMillis(1)`). */
  const MuteUpdateRateMs: int := 60000

  /**
   * Java's `%`: the quotient is truncated toward zero, so the remainder takes
   * the sign of the dividend (Dafny's `%` is Euclidean and never negative).
   * The divisor is always positive where the watch face uses it.
   */
  function JavaRem(a: int, b: int): (r: int)
    requires b > 0
    ensures a >= 0 ==> 0 <= r < b
    ensures a < 0 ==> -b < r <= 0
    ensures (a - r) % b == 0
  {
    if a >= 0 then
      ModUnique(a - a % b, b, a / b, 0);
      a % b
    else
      ModUnique(a + (-a) % b, b, -((-a) / b), 0);
      -((-a) % b)
  }

  /** `m * x` is at least `m` once `x` is positive. */
  lemma {:induction false} MulAtLeast(m: int, x: int)
    requires m > 0 && x >= 1
    ensures m * x >= m
    decreases x
  {
    if x > 1 {
      MulAtLeast(m, x - 1);
      assert m * x == m * (x - 1) + m;
    }
  }

  /**
   * Division with a positive divisor has one answer: a quotient and a
   * remainder in `0..m-1` that rebuild `a` are Dafny's `/` and `%`.
   */
  lemma ModUnique(a: int, m: int, q: int, j: int)
    requires m > 0 && a == m * q + j && 0 <= j < m
    ensures a % m == j && a / m == q
  {
    var q', j' := a / m, a % m;
    assert m * (q' - q) == j - j';
    if q' > q {
      MulAtLeast(m, q' - q);
    } else if q' < q {
      MulAtLeast(m, q - q');
    }
  }

  /**
   * The delay `interval - (now % interval)` with which a tick reschedules
   * itself: it is positive and the next tick falls on a multiple of
   * `interval`; for a clock reading at or after the epoch it is at most one
   * interval, before the epoch Java's negative remainder stretches it to
   * between one and two intervals.
   */
  function TickDelay(interval: int, now: int): (d: int)
    requires interval > 0
    ensures d >= 1
    ensures (now + d) % interval == 0
    ensures now >= 0 ==> d <= interval
    ensures now < 0 ==> interval <= d < 2 * interval
  {
    var r := JavaRem(now, interval);
    var q := (now - r) / interval;
    assert now - r == interval * q;
    assert now + (interval - r) == interval * (q + 1);
    ModUnique(now + (interval - r), interval, q + 1, 0);
    interval - r
  }

  /** Adding a multiple of `m` does not change the Euclidean remainder. */
  lemma ModShift(base: int, m: int, j: int)
    requires m > 0 && base % m == 0
    ensures (base + j) % m == j % m
  {
    var q := base / m;
    assert base == m * q;
    var jq, jr := j / m, j % m;
    assert j == m * jq + jr;
    assert base + j == m * (q + jq) + jr;
    ModUnique(base + j, m, q + jq, jr);
  }

  /**
   * The tick is posted for the FIRST wall-clock boundary strictly after
   * `now`: no earlier positive delay reaches a multiple of `interval`.
   */
  lemma {:induction false} TickDelayIsNextBoundary(interval: int, now: int, k: int)
    requires interval > 0 && now >= 0
    requires 0 < k < TickDelay(interval, now)
    ensures (now + k) % interval != 0
  {
    var r := JavaRem(now, interval);
    assert TickDelay(interval, now) == interval - r;
    var j := r + k;
    assert 0 < j < interval;
    ModShift(now - r, interval, j);
    ModUnique(j, interval, 0, j);
    assert now + k == (now - r) + j;
  }

  /**
   * Two clock readings at or after the epoch within the same interval
   * produce ticks that land on the same boundary: from the epoch on,
   * rescheduling aims at the end of the current interval. (Before the
   * epoch Java's negative remainder can split them: -500 and -499 aim at
   * 0 and 500.)
   */
  lemma {:induction false} TickTargetSharedWithinInterval(interval: int, base: int, a: int, b: int)
    requires interval > 0 && base >= 0 && base % interval == 0
    requires 0 <= a < interval && 0 <= b < interval
    ensures base + a + TickDelay(interval, base + a) == base + b + TickDelay(interval, base + b)
  {
    ModShift(base, interval, a);
    ModShift(base, interval, b);
    ModUnique(a, interval, 0, a);
    ModUnique(b, interval, 0, b);
    assert JavaRem(base + a, interval) == a;
    assert JavaRem(base + b, interval) == b;
  }
}
