/**
 * The page's own countdown to a fixed instant: the initial value computed at
 * mount, the clamped one-second tick, and the `hh:mm:ss` display.
 */
module PageCountdown {
  import opened Wrappers
  import opened Decimal
  import opened Hms

  /** `new Date("March 2, 2025 10:00:00 GMT-0500").getTime()`, in milliseconds. */
  const TargetMs: int := 1740927600000

  /** `calculateCountdown`: whole seconds left until `targetMs`, never negative. */
  function CalculateCountdown(targetMs: int, nowMs: int): (seconds: nat)
    ensures targetMs - nowMs <= 0 ==> seconds == 0
    ensures targetMs - nowMs > 0 ==> seconds * 1000 <= targetMs - nowMs < (seconds + 1) * 1000
  {
    var difference := targetMs - nowMs;
    if difference > 0 then difference / 1000 else 0
  }

  /** The interval callback: `prev > 0 ? prev - 1 : 0`. */
  function Tick(prev: int): (next: int)
    ensures next >= 0
    ensures next <= prev || prev < 0
  {
    if prev > 0 then prev - 1 else 0
  }

  /** The countdown after `k` ticks. */
  function AfterTicks(start: int, k: nat): int
  {
    if k == 0 then start else Tick(AfterTicks(start, k - 1))
  }

  /** From D >= 0 the countdown loses one per tick, reaches 0 after D ticks and stays there. */
  lemma {:induction false} TicksReachZero(d: nat, k: nat)
    ensures AfterTicks(d, k) == if k <= d then d - k else 0
  {
    if k > 0 {
      TicksReachZero(d, k - 1);
    }
  }

  /** Whatever the starting value, a ticked countdown is never negative. */
  lemma TicksNeverNegative(start: int, k: nat)
    requires k > 0
    ensures AfterTicks(start, k) >= 0
  {
  }

  /** `formatCountdown`: hours (at least two digits), minutes and seconds, zero-padded. */
  function FormatCountdown(seconds: nat): string
  {
    ClockText(seconds / 3600, (seconds % 3600) / 60, seconds % 60)
  }

  /** The `${hours}:${minutes}:${secs}` template with each part padded to two digits. */
  function ClockText(h: nat, m: nat, s: nat): string
  {
    PadStart2(ToString(h)) + ":" + PadStart2(ToString(m)) + ":" + PadStart2(ToString(s))
  }

  /** The three fields of a display `hh:mm:ss`, found from its end. */
  function HoursField(t: string): string requires |t| >= 6 { t[..|t| - 6] }
  function MinutesField(t: string): string requires |t| >= 6 { t[|t| - 5..|t| - 3] }
  function SecondsField(t: string): string requires |t| >= 6 { t[|t| - 2..] }

  /** Digits, a colon, two digits, a colon, two digits, with at least two hour digits. */
  predicate IsClock(t: string)
  {
    && |t| >= 8 && t[|t| - 6] == ':' && t[|t| - 3] == ':'
    && AllDigits(HoursField(t)) && AllDigits(MinutesField(t)) && AllDigits(SecondsField(t))
  }

  /** Reads a display back as a number of seconds, if minutes and seconds are below 60. */
  function ParseClock(t: string): Option<nat>
  {
    if IsClock(t) && Value(MinutesField(t)) < 60 && Value(SecondsField(t)) < 60
    then Some(Value(HoursField(t)) * 3600 + Value(MinutesField(t)) * 60 + Value(SecondsField(t)))
    else None
  }

  /** The template reads back field by field when minutes and seconds are below 60. */
  lemma ClockTextFields(h: nat, m: nat, s: nat)
    requires m < 60 && s < 60
    ensures IsClock(ClockText(h, m, s))
    ensures |HoursField(ClockText(h, m, s))| >= 2
    ensures |MinutesField(ClockText(h, m, s))| == 2 && |SecondsField(ClockText(h, m, s))| == 2
    ensures Value(HoursField(ClockText(h, m, s))) == h
    ensures Value(MinutesField(ClockText(h, m, s))) == m
    ensures Value(SecondsField(ClockText(h, m, s))) == s
  {
    var hh, mm, ss := PadStart2(ToString(h)), PadStart2(ToString(m)), PadStart2(ToString(s));
    assert AllDigits(hh) && Value(hh) == h && |hh| >= 2 by { PaddedValue(h); }
    assert AllDigits(mm) && Value(mm) == m && |mm| == 2 by { PaddedValue(m); }
    assert AllDigits(ss) && Value(ss) == s && |ss| == 2 by { PaddedValue(s); }
    TemplateFields(hh, mm, ss);
  }

  /** Where the three fields sit in `hh:mm:ss` when mm and ss have two characters. */
  lemma TemplateFields(hh: string, mm: string, ss: string)
    requires |hh| >= 2 && |mm| == 2 && |ss| == 2
    requires AllDigits(hh) && AllDigits(mm) && AllDigits(ss)
    ensures var t := hh + ":" + mm + ":" + ss;
      && IsClock(t) && HoursField(t) == hh && MinutesField(t) == mm && SecondsField(t) == ss
  {
    var t := hh + ":" + mm + ":" + ss;
    assert HoursField(t) == hh;
    assert MinutesField(t) == mm;
    assert SecondsField(t) == ss;
  }

  /**
   * The shape of the display: `hh:mm:ss` with mm and ss exactly two digits
   * below 60, hh at least two digits holding all the hours (not cut at 99).
   */
  lemma FormatCountdownShape(seconds: nat)
    ensures IsClock(FormatCountdown(seconds))
    ensures |HoursField(FormatCountdown(seconds))| >= 2
    ensures |MinutesField(FormatCountdown(seconds))| == 2 && |SecondsField(FormatCountdown(seconds))| == 2
    ensures Value(HoursField(FormatCountdown(seconds))) == seconds / 3600
    ensures Value(MinutesField(FormatCountdown(seconds))) == (seconds % 3600) / 60 < 60
    ensures Value(SecondsField(FormatCountdown(seconds))) == seconds % 60 < 60
  {
    HmsArithmetic(seconds);
    ClockTextFields(seconds / 3600, (seconds % 3600) / 60, seconds % 60);
  }

  /** The display reads back as the number of seconds it was made from. */
  lemma FormatCountdownRoundTrip(seconds: nat)
    ensures ParseClock(FormatCountdown(seconds)) == Some(seconds)
  {
    var h, m, s := seconds / 3600, (seconds % 3600) / 60, seconds % 60;
    assert m < 60 && s < 60 && h * 3600 + m * 60 + s == seconds by { HmsArithmetic(seconds); }
    ClockTextParses(h, m, s, seconds);
    assert FormatCountdown(seconds) == ClockText(h, m, s);
  }

  lemma ClockTextParses(h: nat, m: nat, s: nat, total: nat)
    requires m < 60 && s < 60 && h * 3600 + m * 60 + s == total
    ensures ParseClock(ClockText(h, m, s)) == Some(total)
  {
    ClockTextFields(h, m, s);
    ParseFields(ClockText(h, m, s), h, m, s, total);
  }

  lemma ParseFields(t: string, h: nat, m: nat, s: nat, total: nat)
    requires IsClock(t) && m < 60 && s < 60 && h * 3600 + m * 60 + s == total
    requires Value(HoursField(t)) == h && Value(MinutesField(t)) == m && Value(SecondsField(t)) == s
    ensures ParseClock(t) == Some(total)
  {
  }
}
