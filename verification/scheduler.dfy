/** The wait-duration scheduler: how long the supervisor loop sleeps before
    its next attempt, given the day's configured meeting ranges. */
module Scheduler {
  import opened Wrappers
  import opened Clock

  /** Why no duration can be computed. `EmptySchedule`: the fallback reads
      the first entry of an empty list and throws. `InvalidFirstStart`: the
      fallback adds a day to an invalid date, which yields NaN. */
  datatype ScheduleError = EmptySchedule | InvalidFirstStart

  /** `now` lies strictly before the range's start (`isBefore`); false for
      an invalid start. */
  predicate StartsAfter(r: TimeRange, now: int)
  {
    r.start.Valid? && now < r.start.Millis()
  }

  /** No range before index `i` starts after `now`. */
  predicate NoneUpcomingBefore(ranges: seq<TimeRange>, now: int, i: int)
    requires i <= |ranges|
  {
    forall j :: 0 <= j < i ==> !StartsAfter(ranges[j], now)
  }

  /** Range `i` is the first, in list order, that starts after `now`. */
  predicate FirstUpcomingAt(ranges: seq<TimeRange>, now: int, i: int)
  {
    0 <= i < |ranges| && StartsAfter(ranges[i], now) && NoneUpcomingBefore(ranges, now, i)
  }

  /** The first range in list order that starts after `now`, if any. */
  function FirstUpcoming(ranges: seq<TimeRange>, now: int): (k: Option<nat>)
    ensures k.Some? ==> FirstUpcomingAt(ranges, now, k.value)
    ensures k.None? ==> NoneUpcomingBefore(ranges, now, |ranges|)
    decreases |ranges|
  {
    if |ranges| == 0 then None
    else if StartsAfter(ranges[0], now) then Some(0)
    else match FirstUpcoming(ranges[1..], now)
      case None => None
      case Some(k) => Some(k + 1)
  }

  /** The milliseconds to wait from `now` (since local midnight) until the
      next meeting start: the first range in list order that starts after
      `now`, or else the first range's start tomorrow. */
  function WaitDuration(ranges: seq<TimeRange>, now: int): (r: Result<int, ScheduleError>)
    requires 0 <= now < DayMs
    ensures r.Success? ==> 0 < r.value <= DayMs
    ensures r == Failure(EmptySchedule) <==> |ranges| == 0
    ensures forall i :: FirstUpcomingAt(ranges, now, i) ==> r == Success(ranges[i].start.Millis() - now)
    ensures (|ranges| > 0 && NoneUpcomingBefore(ranges, now, |ranges|) && ranges[0].start.Valid?)
              ==> r == Success(ranges[0].start.Millis() + DayMs - now)
    ensures (r == Failure(InvalidFirstStart))
              <==> (|ranges| > 0 && NoneUpcomingBefore(ranges, now, |ranges|) && ranges[0].start.Invalid?)
  {
    match FirstUpcoming(ranges, now)
    case Some(k) =>
      var untilMeeting := ranges[k].start.Millis() - now;
      Success(if untilMeeting > 0 then untilMeeting else 0)
    case None =>
      if |ranges| == 0 then Failure(EmptySchedule)
      else if ranges[0].start.Invalid? then Failure(InvalidFirstStart)
      else Success(ranges[0].start.Millis() + DayMs - now)
  }

  /** Reads every configured range text. */
  function ParseAll(eventTimes: seq<string>): (ranges: seq<TimeRange>)
    ensures |ranges| == |eventTimes|
    ensures forall i :: 0 <= i < |eventTimes| ==> ranges[i] == ParseRange(eventTimes[i])
  {
    seq(|eventTimes|, i requires 0 <= i < |eventTimes| => ParseRange(eventTimes[i]))
  }

  /** The scheduler over the configured `"hh:mm A - hh:mm A"` texts. */
  function NextWait(eventTimes: seq<string>, now: int): (r: Result<int, ScheduleError>)
    requires 0 <= now < DayMs
    ensures r.Success? ==> 0 < r.value <= DayMs
    ensures r == Failure(EmptySchedule) <==> |eventTimes| == 0
  {
    WaitDuration(ParseAll(eventTimes), now)
  }

  /** Only start times are read: two schedules that agree on every start
      wait the same time, whatever their end times. */
  lemma EndsDoNotMatter(a: seq<TimeRange>, b: seq<TimeRange>, now: int)
    requires 0 <= now < DayMs
    requires |a| == |b|
    requires forall i :: 0 <= i < |a| ==> a[i].start == b[i].start
    ensures WaitDuration(a, now) == WaitDuration(b, now)
  {
    SameStartsSameFirst(a, b, now);
    match FirstUpcoming(a, now)
    case Some(k) =>
      assert a[k].start == b[k].start;
      WaitForFirstUpcoming(a, now, k);
      WaitForFirstUpcoming(b, now, k);
    case None =>
      if |a| > 0 {
        assert a[0].start == b[0].start;
      }
  }

  /** The search for the first upcoming range reads only start times. */
  lemma {:induction false} SameStartsSameFirst(a: seq<TimeRange>, b: seq<TimeRange>, now: int)
    requires |a| == |b|
    requires forall i :: 0 <= i < |a| ==> a[i].start == b[i].start
    ensures FirstUpcoming(a, now) == FirstUpcoming(b, now)
    decreases |a|
  {
    if |a| > 0 {
      assert a[0].start == b[0].start;
      SameStartsSameFirst(a[1..], b[1..], now);
    }
  }

  /** The wait when range `f` is the first upcoming one: the second clause
      of `WaitDuration`'s contract instantiated at `f`, kept as a lemma so
      that callers can name it. */
  lemma WaitForFirstUpcoming(ranges: seq<TimeRange>, now: int, f: nat)
    requires 0 <= now < DayMs
    requires FirstUpcomingAt(ranges, now, f)
    ensures WaitDuration(ranges, now) == Success(ranges[f].start.Millis() - now)
  {
  }

  /** A schedule in chronological order: every range valid and not
      reversed, and each range ending no later than the next one starts. */
  predicate Chronological(ranges: seq<TimeRange>)
  {
    && (forall i :: 0 <= i < |ranges| ==>
          ranges[i].start.Valid? && ranges[i].end.Valid? && ranges[i].start.minute <= ranges[i].end.minute)
    && (forall i :: 0 <= i < |ranges| - 1 ==> ranges[i].end.minute <= ranges[i + 1].start.minute)
  }

  /** In a chronological schedule an earlier range starts no later than a
      later range ends. */
  lemma {:induction false} ChronologicalOrder(ranges: seq<TimeRange>, j: nat, i: nat)
    requires Chronological(ranges)
    requires j <= i < |ranges|
    ensures ranges[j].start.minute <= ranges[i].end.minute
    decreases i - j
  {
    if j < i {
      ChronologicalOrder(ranges, j, i - 1);
      assert ranges[i - 1].end.minute <= ranges[i].start.minute;
    }
  }

  /** For a chronological schedule and a `now` after the previous range's
      end and before range `k`'s start, the wait is until range `k`. */
  lemma BetweenMeetings(ranges: seq<TimeRange>, now: int, k: nat)
    requires 0 <= now < DayMs
    requires Chronological(ranges)
    requires k < |ranges|
    requires now < ranges[k].start.Millis()
    requires k > 0 ==> ranges[k - 1].end.Millis() <= now
    ensures WaitDuration(ranges, now) == Success(ranges[k].start.Millis() - now)
  {
    forall j | 0 <= j < k
      ensures !StartsAfter(ranges[j], now)
    {
      ChronologicalOrder(ranges, j, k - 1);
    }
    assert FirstUpcomingAt(ranges, now, k);
  }

  /** Range `k` is a nearest upcoming meeting: it starts after `now` and no
      upcoming range starts earlier. */
  predicate NearestUpcoming(ranges: seq<TimeRange>, now: int, k: int)
  {
    && 0 <= k < |ranges|
    && StartsAfter(ranges[k], now)
    && forall j :: 0 <= j < |ranges| && StartsAfter(ranges[j], now) ==> ranges[k].start.minute <= ranges[j].start.minute
  }

  /** For a chronological schedule, first-in-list-order is the nearest
      upcoming meeting. */
  lemma ChronologicalWaitsForNearest(ranges: seq<TimeRange>, now: int, k: nat)
    requires 0 <= now < DayMs
    requires Chronological(ranges)
    requires NearestUpcoming(ranges, now, k)
    ensures WaitDuration(ranges, now) == Success(ranges[k].start.Millis() - now)
  {
    var first := FirstUpcoming(ranges, now);
    assert first.Some?;
    NearestStartsFirst(ranges, now, k, first.value);
    WaitForFirstUpcoming(ranges, now, first.value);
  }

  /** In a chronological schedule the first upcoming range starts with the
      nearest upcoming one. */
  lemma NearestStartsFirst(ranges: seq<TimeRange>, now: int, k: nat, f: nat)
    requires Chronological(ranges)
    requires NearestUpcoming(ranges, now, k)
    requires FirstUpcomingAt(ranges, now, f)
    ensures ranges[f].start == ranges[k].start
  {
    assert f <= k;
    if f < k {
      ChronologicalOrder(ranges, f, k - 1);
      assert ranges[k - 1].end.minute <= ranges[k].start.minute;
    }
  }

  /** Without chronological order the first upcoming entry wins even when a
      later entry starts sooner: at 8:00 with `[2:00 PM, 9:00 AM]` the wait
      is six hours, not one. */
  lemma UnsortedWaitsForFirstListed()
    ensures var ranges := [TimeRange(Valid(14 * 60), Valid(14 * 60 + 30)), TimeRange(Valid(9 * 60), Valid(9 * 60 + 30))];
      && NearestUpcoming(ranges, 8 * 60 * MinuteMs, 1)
      && WaitDuration(ranges, 8 * 60 * MinuteMs) == Success(6 * 60 * MinuteMs)
  {
    var ranges := [TimeRange(Valid(14 * 60), Valid(14 * 60 + 30)), TimeRange(Valid(9 * 60), Valid(9 * 60 + 30))];
    assert FirstUpcomingAt(ranges, 8 * 60 * MinuteMs, 0);
  }

  /** The configured day used by the scenarios below. */
  const TwoMeetings: seq<string> := ["09:00 AM - 09:30 AM", "02:00 PM - 02:30 PM"]

  lemma MorningRangeParse()
    ensures ParseRange(TwoMeetings[0]) == TimeRange(Valid(9 * 60), Valid(9 * 60 + 30))
  {
    assert FormatClock(9 * 60) == "09:00 AM";
    assert FormatClock(9 * 60 + 30) == "09:30 AM";
    assert TwoMeetings[0] == FormatClock(9 * 60) + RangeSeparator + FormatClock(9 * 60 + 30);
    ParseFormattedRange(9 * 60, 9 * 60 + 30);
  }

  lemma AfternoonRangeParse()
    ensures ParseRange(TwoMeetings[1]) == TimeRange(Valid(14 * 60), Valid(14 * 60 + 30))
  {
    assert FormatClock(14 * 60) == "02:00 PM";
    assert FormatClock(14 * 60 + 30) == "02:30 PM";
    assert TwoMeetings[1] == FormatClock(14 * 60) + RangeSeparator + FormatClock(14 * 60 + 30);
    ParseFormattedRange(14 * 60, 14 * 60 + 30);
  }

  lemma TwoMeetingsParse()
    ensures |ParseAll(TwoMeetings)| == 2
    ensures ParseAll(TwoMeetings)[0] == TimeRange(Valid(9 * 60), Valid(9 * 60 + 30))
    ensures ParseAll(TwoMeetings)[1] == TimeRange(Valid(14 * 60), Valid(14 * 60 + 30))
  {
    MorningRangeParse();
    AfternoonRangeParse();
  }

  /** The parsed form of the configured day. */
  predicate IsTwoMeetingDay(ranges: seq<TimeRange>)
  {
    && |ranges| == 2
    && ranges[0] == TimeRange(Valid(9 * 60), Valid(9 * 60 + 30))
    && ranges[1] == TimeRange(Valid(14 * 60), Valid(14 * 60 + 30))
  }

  lemma TwoMeetingDayBeforeFirst(ranges: seq<TimeRange>)
    requires IsTwoMeetingDay(ranges)
    ensures WaitDuration(ranges, 8 * 60 * MinuteMs) == Success(60 * MinuteMs)
  {
    WaitForFirstUpcoming(ranges, 8 * 60 * MinuteMs, 0);
  }

  lemma TwoMeetingDayAfterLast(ranges: seq<TimeRange>)
    requires IsTwoMeetingDay(ranges)
    ensures WaitDuration(ranges, 15 * 60 * MinuteMs) == Success(18 * 60 * MinuteMs)
  {
    assert NoneUpcomingBefore(ranges, 15 * 60 * MinuteMs, |ranges|);
  }

  /** At 8:00 AM the configured day waits one hour, for the 9:00 meeting. */
  lemma TwoMeetingsBeforeFirst()
    ensures NextWait(TwoMeetings, 8 * 60 * MinuteMs) == Success(60 * MinuteMs)
  {
    TwoMeetingsParse();
    TwoMeetingDayBeforeFirst(ParseAll(TwoMeetings));
  }

  /** At 3:00 PM, past every meeting, it waits the eighteen hours until
      9:00 AM tomorrow. */
  lemma TwoMeetingsAfterLast()
    ensures NextWait(TwoMeetings, 15 * 60 * MinuteMs) == Success(18 * 60 * MinuteMs)
  {
    TwoMeetingsParse();
    TwoMeetingDayAfterLast(ParseAll(TwoMeetings));
  }
}
