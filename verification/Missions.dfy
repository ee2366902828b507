/** When a mission runs next, on a timeline without daylight-saving changes. */
module Missions {
  import opened Wrappers
  import Schedule

  /**
   * A local instant: day number (day 0 is a Thursday, as 1 January 1970 was), minute of the day, and
   * milliseconds into that minute.
   */
  datatype Raw = Instant(day: int, minute: int, ms: int)

  type Instant = i: Raw | 0 <= i.minute < 1440 && 0 <= i.ms < 60000 witness Instant(0, 0, 0)

  /** Minutes since the start of day 0, rounded down. */
  function Minutes(i: Instant): int {
    i.day * 1440 + i.minute
  }

  function Millis(i: Instant): int {
    Minutes(i) * 60000 + i.ms
  }

  predicate After(a: Instant, b: Instant) {
    a.day > b.day || (a.day == b.day && (a.minute > b.minute || (a.minute == b.minute && a.ms > b.ms)))
  }

  /** The field-wise order is the order of the timeline. */
  lemma AfterIsLater(a: Instant, b: Instant)
    ensures After(a, b) <==> Millis(a) > Millis(b)
  {
  }

  /** Sunday is 0. */
  function Weekday(day: int): (w: nat)
    ensures w < 7
  {
    (day + 4) % 7
  }

  /** Day 0 is a Thursday, and the weekdays follow each other from Sunday to Saturday. */
  lemma WeekdaysFollow(day: int)
    ensures Weekday(0) == 4
    ensures Weekday(day + 1) == if Weekday(day) == 6 then 0 else Weekday(day) + 1
  {
    WeekdayLater(day, 1);
  }

  lemma WeekdayLater(day: int, k: nat)
    requires k < 7
    ensures Weekday(day + k) == if Weekday(day) + k < 7 then Weekday(day) + k else Weekday(day) + k - 7
  {
  }

  // ---------------------------------------------------------------------------------------------
  // Earliest instants
  // ---------------------------------------------------------------------------------------------

  /** At a minute of the day sharp, on an allowed weekday. */
  predicate Matches(i: Instant, minute: nat, allowed: set<nat>) {
    i.minute == minute && i.ms == 0 && Weekday(i.day) in allowed
  }

  /** `next` is the first matching instant strictly after `from`. */
  ghost predicate EarliestAfter(from: Instant, next: Instant, minute: nat, allowed: set<nat>) {
    Matches(next, minute, allowed) && After(next, from)
    && forall i: Instant :: Matches(i, minute, allowed) && After(i, from) ==> i == next || After(i, next)
  }

  /** The first day whose `minute` is still to come. */
  function FirstDay(from: Instant, minute: nat): int {
    if minute > from.minute then from.day else from.day + 1
  }

  lemma EarliestByDay(from: Instant, minute: nat, allowed: set<nat>, day: int)
    requires minute < 1440 && FirstDay(from, minute) <= day && Weekday(day) in allowed
    requires forall d :: FirstDay(from, minute) <= d < day ==> Weekday(d) !in allowed
    ensures EarliestAfter(from, Instant(day, minute, 0), minute, allowed)
  {
    var next: Instant := Instant(day, minute, 0);
    forall i: Instant | Matches(i, minute, allowed) && After(i, from) ensures i == next || After(i, next) {
      assert FirstDay(from, minute) <= i.day;
    }
  }

  const EVERY_DAY: set<nat> := {0, 1, 2, 3, 4, 5, 6}
  const WORKDAYS: set<nat> := {1, 2, 3, 4, 5}

  /** The minute of the day of a time text, 09:00 when it is not one. */
  function MinuteOfDay(time: Option<string>): (m: nat)
    ensures m < 1440
  {
    var (hour, minute) := Schedule.TimeOf(time);
    60 * hour + minute
  }

  method NextDailyFrom(time: Option<string>, from: Instant) returns (candidate: Instant)
    ensures EarliestAfter(from, candidate, MinuteOfDay(time), EVERY_DAY)
    ensures candidate == Instant(FirstDay(from, MinuteOfDay(time)), MinuteOfDay(time), 0)
  {
    candidate := Instant(from.day, MinuteOfDay(time), 0);
    if !After(candidate, from) {
      candidate := Instant(candidate.day + 1, candidate.minute, candidate.ms);
    }
    EarliestByDay(from, MinuteOfDay(time), EVERY_DAY, candidate.day);
  }

  /** The weekend-skipping loop. */
  method NextWeekdaysFrom(time: Option<string>, from: Instant) returns (candidate: Instant)
    ensures EarliestAfter(from, candidate, MinuteOfDay(time), WORKDAYS)
  {
    candidate := NextDailyFrom(time, from);
    ghost var first := candidate.day;
    while Weekday(candidate.day) == 0 || Weekday(candidate.day) == 6
      invariant first <= candidate.day && candidate.minute == MinuteOfDay(time) && candidate.ms == 0
      invariant forall d :: first <= d < candidate.day ==> Weekday(d) !in WORKDAYS
      decreases if Weekday(candidate.day) == 6 then 2 else if Weekday(candidate.day) == 0 then 1 else 0
    {
      WeekdayLater(candidate.day, 1);
      candidate := Instant(candidate.day + 1, candidate.minute, candidate.ms);
    }
    EarliestByDay(from, MinuteOfDay(time), WORKDAYS, candidate.day);
  }

  /** No day within the next week but the one aimed at has the weekday. */
  lemma OnlyOneInAWeek(day: int, target: nat, diff: nat)
    requires target < 7 && diff < 7 && Weekday(day + diff) == target
    ensures forall d :: day <= d < day + 7 && d != day + diff ==> Weekday(d) != target
  {
    forall d | day <= d < day + 7 && d != day + diff ensures Weekday(d) != target {
      WeekdayLater(day, d - day);
      WeekdayLater(day, diff);
    }
  }

  method NextWeeklyFrom(time: Option<string>, weekday: Option<int>, from: Instant) returns (candidate: Instant)
    ensures EarliestAfter(from, candidate, MinuteOfDay(time), {Schedule.NormaliseWeekday(weekday)})
  {
    var target := Schedule.NormaliseWeekday(weekday);
    candidate := Instant(from.day, MinuteOfDay(time), 0);
    var dayDiff := target - Weekday(candidate.day);
    if dayDiff < 0 {
      dayDiff := dayDiff + 7;
    }
    WeekdayLater(from.day, dayDiff);
    OnlyOneInAWeek(from.day, target, dayDiff);
    candidate := Instant(candidate.day + dayDiff, candidate.minute, candidate.ms);
    if !After(candidate, from) {
      SameWeekdayAgain(candidate.day);
      candidate := Instant(candidate.day + 7, candidate.minute, candidate.ms);
    }
    EarliestByDay(from, MinuteOfDay(time), {target}, candidate.day);
  }

  lemma SameWeekdayAgain(day: int)
    ensures Weekday(day + 7) == Weekday(day)
  {
  }

  // ---------------------------------------------------------------------------------------------
  // Every so many minutes
  // ---------------------------------------------------------------------------------------------

  /** Here, unlike in the stored schedule, an interval below one minute counts as one. */
  function NormaliseInterval(value: Option<real>): (r: nat)
    ensures 1 <= r <= 1440
  {
    if value.None? then 15
    else if value.value < 1.0 then 1
    else if value.value.Floor > 1440 then 1440
    else value.value.Floor
  }

  function AddMinutes(i: Instant, n: nat): (r: Instant)
    ensures Minutes(r) == Minutes(i) + n && r.ms == i.ms
    decreases n
  {
    if i.minute + n < 1440 then Instant(i.day, i.minute + n, i.ms)
    else AddMinutes(Instant(i.day + 1, 0, i.ms), i.minute + n - 1440)
  }

  function MinuteOfHour(i: Instant): (m: nat)
    ensures m < 60
  {
    i.minute % 60
  }

  /** Whole minutes that are a positive multiple of the interval past the start of `from`'s hour. */
  ghost predicate OnGrid(from: Instant, interval: nat, i: Instant) {
    i.ms == 0 && IsMultiple(Minutes(i) - Minutes(from) + MinuteOfHour(from), interval)
  }

  ghost predicate IsMultiple(x: int, interval: nat) {
    exists k: nat :: x == k * interval
  }

  function Remainder(minute: nat, interval: nat): (r: nat)
    requires 1 <= interval
    ensures r < interval
  {
    minute % interval
  }

  lemma WholeAndRemainder(minute: nat, interval: nat)
    requires 1 <= interval
    ensures minute == (minute / interval) * interval + Remainder(minute, interval)
  {
  }

  method NextEveryMinutesFrom(intervalMinutes: Option<real>, from: Instant) returns (candidate: Instant)
    ensures var interval := NormaliseInterval(intervalMinutes);
            After(candidate, from) && Millis(candidate) <= Millis(from) + interval * 60000
            && OnGrid(from, interval, candidate)
            && forall i: Instant :: OnGrid(from, interval, i) && After(i, from) ==>
              i == candidate || After(i, candidate)
    ensures candidate
         == AddMinutes(Instant(from.day, from.minute, 0), Gap(MinuteOfHour(from), NormaliseInterval(intervalMinutes)))
  {
    var interval := NormaliseInterval(intervalMinutes);
    candidate := Instant(from.day, from.minute, 0);
    var minute := MinuteOfHour(candidate);
    var remainder := Remainder(minute, interval);
    var addMinutes := if remainder == 0 then interval else interval - remainder;
    candidate := AddMinutes(candidate, addMinutes);
    AfterIsLater(candidate, from);
    if !After(candidate, from) {
      // The source adds another interval here; the candidate is always a whole minute ahead already.
      assert false;
    }
    NextOnGrid(from, interval, candidate);
  }

  /** The minutes from one run, `minute` past the hour, to the next. */
  function Gap(minute: nat, interval: nat): (g: nat)
    requires 1 <= interval
    ensures 1 <= g <= interval
  {
    interval - Remainder(minute, interval)
  }

  lemma NextOnGrid(from: Instant, interval: nat, candidate: Instant)
    requires 1 <= interval && candidate.ms == 0
    requires Minutes(candidate) == Minutes(from) - Remainder(MinuteOfHour(from), interval) + interval
    ensures OnGrid(from, interval, candidate)
    ensures forall i: Instant :: OnGrid(from, interval, i) && After(i, from) ==> i == candidate || After(i, candidate)
  {
    var minute := MinuteOfHour(from);
    MultipleAfter(minute, interval);
    forall i: Instant | OnGrid(from, interval, i) && After(i, from) ensures i == candidate || After(i, candidate) {
      AfterIsLater(i, from);
      NoMultipleBetween(minute, interval, Minutes(i) - Minutes(from) + minute);
      AfterIsLater(i, candidate);
      SameInstant(i, candidate);
    }
  }

  /** The grid, on the timeline: whole multiples of the interval after the start of the hour `from` is in. */
  lemma GridOnTimeline(from: Instant, interval: nat, i: Instant, k: nat)
    ensures Millis(i) == Millis(Instant(from.day, from.minute / 60 * 60, 0)) + k * interval * 60000
            ==> OnGrid(from, interval, i)
    ensures OnGrid(from, interval, i) ==>
              exists j: nat :: Millis(i) == Millis(Instant(from.day, from.minute / 60 * 60, 0)) + (j * interval) * 60000
  {
    var start: Instant := Instant(from.day, from.minute / 60 * 60, 0);
    assert Minutes(i) - Minutes(from) + MinuteOfHour(from) == Minutes(i) - Minutes(start);
    if Millis(i) == Millis(start) + k * interval * 60000 {
      assert Minutes(i) - Minutes(start) == k * interval && i.ms == 0;
    }
    if OnGrid(from, interval, i) {
      var j: nat :| Minutes(i) - Minutes(from) + MinuteOfHour(from) == j * interval;
      assert Millis(i) == Millis(start) + (j * interval) * 60000;
    }
  }

  lemma MultipleAfter(minute: nat, interval: nat)
    requires 1 <= interval
    ensures IsMultiple(minute - Remainder(minute, interval) + interval, interval)
  {
    var k := minute / interval;
    WholeAndRemainder(minute, interval);
    assert minute - Remainder(minute, interval) + interval == (k + 1) * interval;
  }

  lemma NoMultipleBetween(minute: nat, interval: nat, x: int)
    requires 1 <= interval && IsMultiple(x, interval) && x > minute
    ensures x >= minute - Remainder(minute, interval) + interval
  {
    var j: nat :| x == j * interval;
    WholeAndRemainder(minute, interval);
    MultipleFollows(j, minute / interval, interval);
  }

  lemma MultipleFollows(j: nat, k: nat, interval: nat)
    ensures j * interval > k * interval ==> j * interval >= k * interval + interval
  {
    assert (j - k) * interval == j * interval - k * interval;
    if (j - k) * interval > 0 {
      MultipleAbove(j - k, interval);
    }
  }

  lemma MultipleAbove(d: int, interval: nat)
    requires d * interval > 0
    ensures d * interval >= interval
  {
    if d >= 1 {
      assert (d - 1) * interval >= 0;
    }
  }

  lemma SameInstant(a: Instant, b: Instant)
    ensures Millis(a) == Millis(b) ==> a == b
  {
  }

  // ---------------------------------------------------------------------------------------------
  // Dispatch
  // ---------------------------------------------------------------------------------------------

  datatype MissionSchedule = MissionSchedule(
    kind: Schedule.Kind, time: Option<string>, weekday: Option<int>, intervalMinutes: Option<real>)

  function AllowedDays(s: MissionSchedule): set<nat> {
    match s.kind
    case Weekdays => WORKDAYS
    case Weekly => {Schedule.NormaliseWeekday(s.weekday)}
    case _ => EVERY_DAY
  }

  /** A custom schedule is checked every hour; its cron text is not interpreted. */
  function IntervalOf(s: MissionSchedule): Option<real> {
    if s.kind.Custom? then Some(60.0)
    else if s.intervalMinutes.Some? then s.intervalMinutes
    else Some(15.0)
  }

  /** The interval in minutes: the whole part of the number given, from 1 to 1440, or 15; 60 for a custom schedule. */
  lemma IntervalReads(s: MissionSchedule)
    ensures var n, given := NormaliseInterval(IntervalOf(s)), s.intervalMinutes;
            if s.kind.Custom? then n == 60
            else if given.None? then n == 15
            else if given.value < 1.0 then n == 1
            else if given.value > 1440.0 then n == 1440
            else n as real <= given.value < n as real + 1.0
  {
  }

  method ComputeNextRunAt(s: MissionSchedule, from: Instant) returns (next: Instant)
    ensures After(next, from)
    ensures s.kind.EveryMinutes? || s.kind.Custom? ==>
              var interval := NormaliseInterval(IntervalOf(s));
              Millis(next) <= Millis(from) + interval * 60000 && OnGrid(from, interval, next)
    ensures !s.kind.EveryMinutes? && !s.kind.Custom? ==>
              EarliestAfter(from, next, MinuteOfDay(s.time), AllowedDays(s))
    // The time of day is the one given, or nine o'clock; the day is a workday, or the weekday given, or Monday.
    ensures !s.kind.EveryMinutes? && !s.kind.Custom? ==>
              next.ms == 0
              && var t := if s.time.Some? then Schedule.ParseTime(s.time.value) else None;
              next.minute == if t.Some? then 60 * t.value.0 + t.value.1 else 540
    ensures s.kind.Weekdays? ==> 1 <= Weekday(next.day) <= 5
    ensures s.kind.Weekly? ==>
              Weekday(next.day) == if s.weekday.Some? && 0 <= s.weekday.value <= 6 then s.weekday.value else 1
  {
    match s.kind
    case EveryMinutes => next := NextEveryMinutesFrom(IntervalOf(s), from);
    case Weekdays => next := NextWeekdaysFrom(s.time, from);
    case Weekly => next := NextWeeklyFrom(s.time, s.weekday, from);
    case Custom => next := NextEveryMinutesFrom(Some(60.0), from);
    case Daily => next := NextDailyFrom(s.time, from);
  }

  // ---------------------------------------------------------------------------------------------
  // Steady intervals
  // ---------------------------------------------------------------------------------------------

  /** Whether a run at this minute past the hour is followed by a full interval. */
  predicate Aligned(minute: nat, interval: nat)
    requires 1 <= interval
  {
    Gap(minute, interval) == interval
  }

  /** The minute past the hour of the run after one at `minute`. */
  function NextMinute(minute: nat, interval: nat): (m: nat)
    requires 1 <= interval
    ensures m < 60
  {
    (minute + Gap(minute, interval)) % 60
  }

  lemma {:induction false} MinuteAfter(i: Instant, n: nat)
    ensures MinuteOfHour(AddMinutes(i, n)) == (MinuteOfHour(i) + n) % 60
    decreases n
  {
    HourOfSum(i.minute, n);
    if i.minute + n >= 1440 {
      MinuteAfter(Instant(i.day + 1, 0, i.ms), i.minute + n - 1440);
    }
  }

  lemma HourOfSum(a: nat, n: nat)
    ensures (a % 60 + n) % 60 == (a + n) % 60
    ensures a + n >= 1440 ==> (a + n - 1440) % 60 == (a + n) % 60
  {
  }

  /** Runs settle into full intervals: wherever one starts, the run after it is aligned. */
  ghost predicate Steady(interval: nat)
    requires 1 <= interval
  {
    forall minute: nat :: minute < 60 ==> Aligned(NextMinute(minute, interval), interval)
  }

  lemma DivisorIsSteady(interval: nat, minute: nat)
    requires 1 <= interval && 60 % interval == 0 && minute < 60
    ensures Aligned(NextMinute(minute, interval), interval)
  {
    var next, k := GridAfter(interval, minute);
    if next < 60 {
      MultipleRemainder(k, interval);
    } else {
      MultipleRemainder(0, interval);
    }
    assert NextMinute(minute, interval) == if next < 60 then next else 0;
  }

  /** The next multiple of a divisor of the hour comes within the hour. */
  lemma GridAfter(interval: nat, minute: nat) returns (next: nat, k: nat)
    requires 1 <= interval && 60 % interval == 0 && minute < 60
    ensures next == minute + Gap(minute, interval) == k * interval && next <= 60
  {
    var c := 60 / interval;
    next, k := minute + Gap(minute, interval), minute / interval + 1;
    WholeAndRemainder(minute, interval);
    WholeAndRemainder(60, interval);
    assert next == k * interval && c * interval == 60;
    QuotientBelow(k - 1, c, interval);
  }

  lemma QuotientBelow(k: nat, c: nat, interval: nat)
    requires 1 <= interval && k * interval < c * interval
    ensures k + 1 <= c && (k + 1) * interval <= c * interval
    ensures k + 1 < c ==> (k + 1) * interval < c * interval
  {
    assert (c - k) * interval > 0;
    MultipleAbove(c - k, interval);
    if k + 1 < c {
      assert (c - k - 1) * interval >= interval;
    }
  }

  lemma MultipleRemainder(k: nat, interval: nat)
    requires 1 <= interval
    ensures Remainder(k * interval, interval) == 0
  {
    var r := Remainder(k * interval, interval);
    var q := (k * interval) / interval;
    WholeAndRemainder(k * interval, interval);
    assert (k - q) * interval == r;
    if r > 0 {
      MultipleAbove(k - q, interval);
    }
  }

  lemma SmallRemainder(x: nat, interval: nat)
    requires x < interval
    ensures Remainder(x, interval) == x
  {
  }

  lemma HoursAreSteady(interval: nat, minute: nat)
    requires 60 <= interval && interval % 60 == 0 && minute < 60
    ensures Aligned(NextMinute(minute, interval), interval)
  {
    if minute < interval {
      SmallRemainder(minute, interval);
    }
    SmallRemainder(0, interval);
  }

  /** Intervals below an hour that do not divide it stumble on the last grid point of the hour. */
  lemma ShortIsUnsteady(interval: nat)
    requires 1 <= interval < 60 && 60 % interval != 0
    ensures !Steady(interval)
  {
    var c := 60 / interval;
    var minute := c * interval;
    WholeAndRemainder(60, interval);
    MultipleRemainder(c, interval);
    var x := minute + interval - 60;
    SmallRemainder(x, interval);
    assert NextMinute(minute, interval) == x;
    assert !Aligned(NextMinute(minute, interval), interval);
  }

  lemma LongIsUnsteady(interval: nat)
    requires 60 < interval && interval % 60 != 0
    ensures !Steady(interval)
  {
    SmallRemainder(0, interval);
    SmallRemainder(interval % 60, interval);
    assert NextMinute(0, interval) == interval % 60;
    assert !Aligned(NextMinute(0, interval), interval);
  }

  /**
   * "Every n minutes" means a steady n minutes exactly when n divides the hour or is whole hours; for
   * any other n the grid restarts every hour and some runs come early.
   */
  lemma SteadyIff(interval: nat)
    requires 1 <= interval
    ensures Steady(interval) <==> 60 % interval == 0 || interval % 60 == 0
  {
    if 60 % interval == 0 {
      forall minute: nat | minute < 60 ensures Aligned(NextMinute(minute, interval), interval) {
        DivisorIsSteady(interval, minute);
      }
    } else if interval % 60 == 0 {
      forall minute: nat | minute < 60 ensures Aligned(NextMinute(minute, interval), interval) {
        HoursAreSteady(interval, minute);
      }
    } else if interval < 60 {
      ShortIsUnsteady(interval);
    } else {
      LongIsUnsteady(interval);
    }
  }
}
