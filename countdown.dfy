/**
 * The countdown component (src/components/CountDown.tsx): the milliseconds
 * left until a target instant, split into days, hours, minutes and seconds.
 *
 * Instants are whole milliseconds since the epoch, as `Date.getTime()`
 * returns them; the current time `now` is a parameter.
 */
module Countdown {
  import opened Wrappers

  const MS_PER_SECOND: int := 1000
  const MS_PER_MINUTE: int := 60000
  const MS_PER_HOUR: int := 3600000
  const MS_PER_DAY: int := 86400000

  datatype TimeLeft = TimeLeft(days: int, hours: int, minutes: int, seconds: int)

  /** What calculateTimeLeft returns, and whether it raises the time-up flag. */
  datatype Calculation = Calculation(timeLeft: Option<TimeLeft>, raisesTimeUp: bool)

  /** A duration in canonical form: whole days, then the remaining hours, minutes and seconds. */
  predicate Canonical(t: TimeLeft)
  {
    t.days >= 0 && 0 <= t.hours < 24 && 0 <= t.minutes < 60 && 0 <= t.seconds < 60
  }

  /** The milliseconds a duration stands for. */
  function Milliseconds(t: TimeLeft): int
  {
    t.days * MS_PER_DAY + t.hours * MS_PER_HOUR + t.minutes * MS_PER_MINUTE + t.seconds * MS_PER_SECOND
  }

  /**
   * calculateTimeLeft. A distance of zero or less gives no time left and
   * raises the time-up flag; a positive one never raises it and gives its
   * canonical split, which falls short of the distance by less than a second.
   */
  function CalculateTimeLeft(targetDate: int, now: int): (r: Calculation)
    ensures r.raisesTimeUp <==> targetDate - now <= 0
    ensures r.timeLeft.None? <==> targetDate - now <= 0
    ensures r.timeLeft.Some? ==>
      var t := r.timeLeft.value;
      && Canonical(t)
      && t.days == (targetDate - now) / MS_PER_DAY
      && Milliseconds(t) <= targetDate - now < Milliseconds(t) + MS_PER_SECOND
  {
    var distance := targetDate - now;
    if distance <= 0 then
      Calculation(None, true)
    else
      var t := TimeLeft(distance / MS_PER_DAY,
                        (distance % MS_PER_DAY) / MS_PER_HOUR,
                        (distance % MS_PER_HOUR) / MS_PER_MINUTE,
                        (distance % MS_PER_MINUTE) / MS_PER_SECOND);
      SplitRecomposes(distance);
      Calculation(Some(t), false)
  }

  /** The split of a non-negative distance is canonical and recomposes to it up to the last second. */
  lemma SplitRecomposes(distance: int)
    requires distance >= 0
    ensures var t := TimeLeft(distance / MS_PER_DAY,
                              (distance % MS_PER_DAY) / MS_PER_HOUR,
                              (distance % MS_PER_HOUR) / MS_PER_MINUTE,
                              (distance % MS_PER_MINUTE) / MS_PER_SECOND);
            Canonical(t) && Milliseconds(t) <= distance < Milliseconds(t) + MS_PER_SECOND
  {
    var d := distance / MS_PER_DAY;
    var h := distance / MS_PER_HOUR;
    var m := distance / MS_PER_MINUTE;
    var s := distance / MS_PER_SECOND;
    assert distance % MS_PER_DAY == distance - d * MS_PER_DAY;
    assert distance % MS_PER_HOUR == distance - h * MS_PER_HOUR;
    assert distance % MS_PER_MINUTE == distance - m * MS_PER_MINUTE;
    // Each finer quotient is the coarser one times the ratio plus the remaining units.
    assert (distance % MS_PER_DAY) / MS_PER_HOUR == h - 24 * d;
    assert (distance % MS_PER_HOUR) / MS_PER_MINUTE == m - 60 * h;
    assert (distance % MS_PER_MINUTE) / MS_PER_SECOND == s - 60 * m;
  }

  /**
   * The split is the inverse of recomposition: a canonical duration plus less
   * than a second, as a distance, splits back into that very duration.
   */
  lemma SplitOfMilliseconds(t: TimeLeft, ms: int, targetDate: int, now: int)
    requires Canonical(t) && 0 <= ms < MS_PER_SECOND
    requires targetDate - now == Milliseconds(t) + ms > 0
    ensures CalculateTimeLeft(targetDate, now).timeLeft == Some(t)
  {
    var distance := targetDate - now;
    var r := CalculateTimeLeft(targetDate, now);
    var u := r.timeLeft.value;
    // Both are canonical and recompose to the distance up to a second, so they agree
    // unit by unit, from the days down.
    assert u.days == t.days;
    assert u.hours == t.hours;
    assert u.minutes == t.minutes;
    assert u.seconds == t.seconds;
  }

  /** The component state. */
  datatype State = State(timeLeft: Option<TimeLeft>, isTimeUp: bool)

  const Initial := State(None, false)

  /** One tick of the one-second interval: store the new calculation, and latch the time-up flag. */
  function Tick(s: State, targetDate: int, now: int): (s': State)
    ensures s'.timeLeft == CalculateTimeLeft(targetDate, now).timeLeft
    ensures s'.isTimeUp <==> s.isTimeUp || targetDate - now <= 0
  {
    var c := CalculateTimeLeft(targetDate, now);
    State(c.timeLeft, s.isTimeUp || c.raisesTimeUp)
  }

  /** Once the time is up it stays up, whatever later ticks compute. */
  lemma TimeUpIsLatched(s: State, targetDate: int, now: int)
    requires s.isTimeUp
    ensures Tick(s, targetDate, now).isTimeUp
  {
  }

  /** Before the target, ticking from the initial state shows time and never the time-up flag. */
  lemma BeforeTargetShowsTime(targetDate: int, now: int)
    requires now < targetDate
    ensures Tick(Initial, targetDate, now).timeLeft.Some? && !Tick(Initial, targetDate, now).isTimeUp
  {
  }
}
