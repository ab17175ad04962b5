/**
 * The countdown: one evaluation of the time left until the target instant,
 * split into days, hours, minutes, seconds and milliseconds, with the check
 * that turns the display into "already occurred", and the zero-padding of
 * each number for display.
 */
module CountdownTimer {
  import opened Civil
  import Text

  /** The five components the countdown shows. */
  datatype TimeRemaining = TimeRemaining(days: int, hours: int, minutes: int, seconds: int, milliseconds: int)

  const Zero: TimeRemaining := TimeRemaining(0, 0, 0, 0, 0)

  /** The state the component keeps after an evaluation. */
  datatype TimerState = TimerState(remaining: TimeRemaining, isPast: bool)

  /** The span the five components add up to. */
  function TotalMillis(t: TimeRemaining): int {
    (((t.days * 24 + t.hours) * 60 + t.minutes) * 60 + t.seconds) * 1000 + t.milliseconds
  }

  /** Every component but the days is below the next unit, and none is negative. */
  predicate Normalized(t: TimeRemaining) {
    && t.days >= 0
    && 0 <= t.hours < 24
    && 0 <= t.minutes < 60
    && 0 <= t.seconds < 60
    && 0 <= t.milliseconds < 1000
  }

  function Negated(t: TimeRemaining): TimeRemaining {
    TimeRemaining(-t.days, -t.hours, -t.minutes, -t.seconds, -t.milliseconds)
  }

  /** A non-negative span split into the five units, each but the days below the next unit. */
  function Split(m: nat): (t: TimeRemaining)
    ensures Normalized(t) && TotalMillis(t) == m
  {
    var s := m / 1000;
    var min := s / 60;
    var h := min / 60;
    TimeRemaining(h / 24, h % 24, min % 60, s % 60, m % 1000)
  }

  /** Splitting the total of normalized components gives those components back. */
  lemma {:induction false} SplitTotal(t: TimeRemaining)
    requires Normalized(t)
    ensures Split(TotalMillis(t)) == t
  {
    var h := t.days * 24 + t.hours;
    var min := h * 60 + t.minutes;
    var s := min * 60 + t.seconds;
    var m := s * 1000 + t.milliseconds;
    DivModUnique(m, 1000, s, t.milliseconds);
    DivModUnique(s, 60, min, t.seconds);
    DivModUnique(min, 60, h, t.minutes);
    DivModUnique(h, 24, t.days, t.hours);
  }

  /**
   * `targetDate.diff(now, ["days", "hours", "minutes", "seconds", "milliseconds"])`
   * with 24-hour days: the magnitude of the span is split into the units and,
   * when the target is before now, every component is negated.
   */
  function Diff(target: int, now: int): (d: TimeRemaining)
    ensures TotalMillis(d) == target - now
    ensures target >= now ==> Normalized(d)
    ensures target < now ==> Normalized(Negated(d))
  {
    if target >= now then Split(target - now) else Negated(Split(now - target))
  }

  /**
   * One evaluation of `calculateTimeRemaining` at instant now. Only the
   * milliseconds component is tested: the countdown is past when it is
   * negative, and then every component shows 0.
   */
  function Tick(target: int, now: int): (s: TimerState)
    ensures s.isPast <==> now > target && (now - target) % MsPerSecond != 0
    ensures s.isPast ==> s.remaining == Zero
    ensures !s.isPast ==> TotalMillis(s.remaining) == target - now
    ensures !s.isPast && target >= now ==> Normalized(s.remaining)
  {
    var diff := Diff(target, now);
    if diff.milliseconds < 0 then TimerState(Zero, true) else TimerState(diff, false)
  }

  /** The component: its target and the state the last evaluation left. */
  class CountdownTimer {
    const targetDate: int
    var timeRemaining: TimeRemaining
    var isPast: bool

    constructor (targetDate: int)
      ensures this.targetDate == targetDate
      ensures timeRemaining == Zero && !isPast
    {
      this.targetDate := targetDate;
      timeRemaining := Zero;
      isPast := false;
    }

    /** `calculateTimeRemaining`, with the clock reading passed in. */
    method CalculateTimeRemaining(now: int)
      modifies this
      ensures timeRemaining == Tick(targetDate, now).remaining
      ensures isPast == Tick(targetDate, now).isPast
    {
      var diff := Diff(targetDate, now);
      if diff.milliseconds < 0 {
        timeRemaining := Zero;
        isPast := true;
        return;
      }
      isPast := false;
      timeRemaining := diff;
    }
  }

  /** Before the deadline the countdown shows exactly the time left, in normalized units. */
  lemma UpcomingCountdown(target: int, now: int)
    requires target >= now
    ensures !Tick(target, now).isPast
    ensures Tick(target, now).remaining == Split(target - now)
  {
  }

  /** A deadline a whole number of seconds ago is not judged past: the components show negative values. */
  lemma WholeSecondOverdueNotPast(target: int, now: int)
    requires now > target && (now - target) % MsPerSecond == 0
    ensures !Tick(target, now).isPast
    ensures Tick(target, now).remaining == Negated(Split(now - target))
    ensures Tick(target, now).remaining.seconds < 0 || Tick(target, now).remaining.minutes < 0
         || Tick(target, now).remaining.hours < 0 || Tick(target, now).remaining.days < 0
  {
  }

  /** One second after the deadline the display reads 0 days, 0 hours, 0 minutes, -1 seconds. */
  lemma OneSecondOverdue()
    ensures Tick(0, 1000) == TimerState(TimeRemaining(0, 0, 0, -1, 0), false)
  {
    SplitTotal(TimeRemaining(0, 0, 0, 1, 0));
    assert TotalMillis(TimeRemaining(0, 0, 0, 1, 0)) == 1000;
    WholeSecondOverdueNotPast(0, 1000);
  }

  /** The past check as intended: the deadline is past whenever now is after it. */
  function IntendedTick(target: int, now: int): (s: TimerState)
    ensures s.isPast <==> now > target
    ensures s.isPast ==> s.remaining == Zero
    ensures !s.isPast ==> Normalized(s.remaining) && TotalMillis(s.remaining) == target - now
  {
    if target < now then TimerState(Zero, true) else TimerState(Diff(target, now), false)
  }

  /** The two checks disagree exactly when the deadline passed a whole number of seconds ago. */
  lemma {:induction false} TickAgreesWithIntended(target: int, now: int)
    ensures Tick(target, now) == IntendedTick(target, now)
        <==> !(now > target && (now - target) % MsPerSecond == 0)
  {
    if now > target && (now - target) % MsPerSecond == 0 {
      assert Tick(target, now).isPast != IntendedTick(target, now).isPast;
    }
  }

  /** `formatNumber(num, digits)`: the decimal text of num, padded with '0' in front to digits characters. */
  function FormatNumber(num: int, digits: int): (r: string)
    ensures |r| == if digits <= |Text.IntToString(num)| then |Text.IntToString(num)| else digits
    ensures r[|r| - |Text.IntToString(num)|..] == Text.IntToString(num)
    ensures forall i :: 0 <= i < |r| - |Text.IntToString(num)| ==> r[i] == '0'
  {
    Text.PadStart(Text.IntToString(num), digits, '0')
  }

  /** The text of a `TimeUnit`: the value padded to two characters, as `formatNumber(value, 2)`. */
  function TimeUnitText(value: int): (s: string)
    ensures |s| >= 2
    ensures value >= 0 ==> Text.AllDigits(s) && Text.ParseNat(s) == value
    ensures 0 <= value < 100 ==> |s| == 2
  {
    if value < 0 then FormatNumber(value, 2)
    else
      FormatNumberReadsBack(value, 2);
      if value < 100 then
        Text.NatToStringShort(value, 2);
        assert Text.IntToString(value) == Text.NatToString(value);
        FormatNumber(value, 2)
      else
        FormatNumber(value, 2)
  }

  /** A padded non-negative number still reads as that number. */
  lemma FormatNumberReadsBack(num: nat, digits: int)
    ensures Text.AllDigits(FormatNumber(num, digits))
    ensures Text.ParseNat(FormatNumber(num, digits)) == num
  {
    var s := Text.NatToString(num);
    Text.ParseNatToString(num);
    if digits > |s| {
      Text.ParseNatLeadingZeros(digits - |s|, s);
    }
  }

  /** Padding never cuts: a day count of 100 or more is shown with all its digits. */
  lemma WideDaysUnchanged(days: int)
    requires days >= 100
    ensures TimeUnitText(days) == Text.IntToString(days)
  {
    Text.NatToStringLong(days, 2);
  }

  /**
   * Before the deadline, hours, minutes and seconds show as exactly two
   * digits, milliseconds as exactly three, and days as at least two.
   */
  lemma UpcomingDisplayWidths(target: int, now: int)
    requires target >= now
    ensures var t := Tick(target, now).remaining;
      && |TimeUnitText(t.days)| >= 2
      && |TimeUnitText(t.hours)| == 2
      && |TimeUnitText(t.minutes)| == 2
      && |TimeUnitText(t.seconds)| == 2
      && |FormatNumber(t.milliseconds, 3)| == 3
  {
    var t := Tick(target, now).remaining;
    Text.NatToStringShort(t.milliseconds, 3);
    assert Text.IntToString(t.milliseconds) == Text.NatToString(t.milliseconds);
  }
}
