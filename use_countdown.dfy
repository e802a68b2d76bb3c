/**
 * The `useCountdown` hook: a seconds counter decremented by a one-second
 * interval that is only scheduled while the counter is positive, and its
 * decomposition into hours, minutes and seconds.
 */
module UseCountdown {
  import opened Hms

  /** JavaScript's `a % b` for b > 0: the remainder takes the sign of `a`. */
  function JsRem(a: int, b: int): (r: int)
    requires b > 0
    ensures a >= 0 ==> r == a % b
    ensures a < 0 ==> -b < r <= 0
  {
    if a >= 0 then a % b else -((-a) % b)
  }

  datatype Clock = Clock(hours: int, minutes: int, seconds: int)

  /**
   * `Math.floor(s / 3600)`, `Math.floor((s % 3600) / 60)` and `s % 60`; for a
   * positive divisor Dafny's `/` is the floor of the quotient.
   */
  function Decompose(secondsRemaining: int): (c: Clock)
    ensures secondsRemaining >= 0 ==>
      && c.hours * 3600 + c.minutes * 60 + c.seconds == secondsRemaining
      && c.hours >= 0 && 0 <= c.minutes < 60 && 0 <= c.seconds < 60
  {
    HmsArithmetic(secondsRemaining);
    Clock(secondsRemaining / 3600, JsRem(secondsRemaining, 3600) / 60, JsRem(secondsRemaining, 60))
  }

  /** With the page's argument of one day the hook starts at 24:00:00. */
  lemma OneDayDecomposition()
    ensures Decompose(24 * 60 * 60) == Clock(24, 0, 0)
  {
  }

  /** The interval callback `prev => prev - 1`: no clamp of its own. */
  function Decrement(prev: int): (next: int)
    ensures next < prev
  {
    prev - 1
  }

  /** One second of the hook: the callback runs only while an interval is scheduled. */
  function Step(secondsRemaining: int): (next: int)
    ensures secondsRemaining >= 0 ==> next >= 0
    ensures next <= secondsRemaining
    ensures next == secondsRemaining <==> secondsRemaining <= 0
  {
    if secondsRemaining > 0 then Decrement(secondsRemaining) else secondsRemaining
  }

  /** The counter after `k` seconds. */
  function AfterSeconds(initialSeconds: int, k: nat): int
  {
    if k == 0 then initialSeconds else Step(AfterSeconds(initialSeconds, k - 1))
  }

  /**
   * From n >= 0 the counter is n - k after k <= n seconds and 0 from then on,
   * never below 0; a negative initial value is never changed.
   */
  lemma {:induction false} AfterSecondsValue(initialSeconds: int, k: nat)
    ensures initialSeconds >= 0 && k <= initialSeconds ==> AfterSeconds(initialSeconds, k) == initialSeconds - k
    ensures initialSeconds >= 0 && k > initialSeconds ==> AfterSeconds(initialSeconds, k) == 0
    ensures initialSeconds < 0 ==> AfterSeconds(initialSeconds, k) == initialSeconds
  {
    if k > 0 {
      AfterSecondsValue(initialSeconds, k - 1);
    }
  }

  /** The state that the hook keeps between renders. */
  class Countdown {
    var secondsRemaining: int

    /** `useState(initialSeconds)`. */
    constructor (initialSeconds: int)
      ensures secondsRemaining == initialSeconds
    {
      secondsRemaining := initialSeconds;
    }

    /** Whether the effect has an interval scheduled for the current state. */
    predicate IntervalScheduled()
      reads this
    {
      secondsRemaining > 0
    }

    /** One second passes: the scheduled interval, if any, fires once. */
    method Tick()
      modifies this
      ensures old(secondsRemaining) > 0 ==> secondsRemaining == old(secondsRemaining) - 1
      ensures old(secondsRemaining) <= 0 ==> secondsRemaining == old(secondsRemaining)
      ensures secondsRemaining == Step(old(secondsRemaining))
    {
      if IntervalScheduled() {
        secondsRemaining := Decrement(secondsRemaining);
      }
    }

    /** The hook's return value `{ hours, minutes, seconds, totalSeconds }`. */
    method Read() returns (clock: Clock, totalSeconds: int)
      ensures totalSeconds == secondsRemaining
      ensures secondsRemaining >= 0 ==>
        clock.hours * 3600 + clock.minutes * 60 + clock.seconds == totalSeconds
        && 0 <= clock.minutes < 60 && 0 <= clock.seconds < 60
      ensures clock == Decompose(secondsRemaining)
    {
      clock := Decompose(secondsRemaining);
      totalSeconds := secondsRemaining;
    }
  }
}
