/** `appropriateFreePeriods` (src/bg/library.js): may a task be placed in this free period? */
module Usability {
  import opened Time
  import opened Entities

  /** Shortest usable period, 30 minutes. */
  const MIN_DURATION_MS: int := 30 * MS_PER_MINUTE
  /** Earliest and latest local start hour, both included. */
  const FIRST_HOUR: int := 9
  const LAST_HOUR: int := 14

  predicate IsWeekend(t: Instant, tz: int)
  {
    LocalDay(t, tz) == SUNDAY || LocalDay(t, tz) == SATURDAY
  }

  /** The three early returns of the source, in its order: too short, weekend, off hours. */
  function AppropriateFreePeriod(p: Period, tz: int): (ok: bool)
    ensures ok <==> p.end - p.start >= MIN_DURATION_MS
                    && 1 <= LocalDay(p.start, tz) <= 5
                    && FIRST_HOUR <= LocalHour(p.start, tz) <= LAST_HOUR
  {
    if p.end - p.start < MIN_DURATION_MS then false
    else if IsWeekend(p.start, tz) then false
    else if LocalHour(p.start, tz) < FIRST_HOUR || LocalHour(p.start, tz) > LAST_HOUR then false
    else true
  }

  /** A period of exactly 30 minutes passes the duration test; one millisecond less fails. */
  lemma DurationBoundary(p: Period, tz: int)
    ensures p.end - p.start == MIN_DURATION_MS ==>
              (AppropriateFreePeriod(p, tz) <==> !IsWeekend(p.start, tz) && FIRST_HOUR <= LocalHour(p.start, tz) <= LAST_HOUR)
    ensures p.end - p.start < MIN_DURATION_MS ==> !AppropriateFreePeriod(p, tz)
  {
  }

  /** Only the start of a long enough period matters: its end may fall on any day or hour. */
  lemma OnlyStartMatters(p: Period, q: Period, tz: int)
    requires p.start == q.start
    requires p.end - p.start >= MIN_DURATION_MS && q.end - q.start >= MIN_DURATION_MS
    ensures AppropriateFreePeriod(p, tz) == AppropriateFreePeriod(q, tz)
  {
  }

  /** Reads the local weekday and hour off a decomposition of the local time into whole
      days since the epoch and milliseconds into the day. */
  lemma LocalCalendarOf(t: Instant, tz: int, days: int, hour: int, rest: int)
    requires 0 <= hour < 24 && 0 <= rest < MS_PER_HOUR
    requires t + tz == days * MS_PER_DAY + hour * MS_PER_HOUR + rest
    ensures LocalDay(t, tz) == (days + EPOCH_WEEKDAY) % 7
    ensures LocalHour(t, tz) == hour
  {
    var ms := hour * MS_PER_HOUR + rest;
    assert 0 <= ms < MS_PER_DAY;
    assert LocalMillis(t, tz) / MS_PER_DAY == days;
    assert LocalMillis(t, tz) % MS_PER_DAY == ms;
  }

  // Concrete instants, UTC: 2023-11-21 is a Tuesday, day 19682 since the epoch.
  const TUE_2023_11_21: Instant := 1700524800000
  const DAY_2023_11_21: int := 19682

  function OnTuesday(hour: int, minute: int): Instant
  {
    TUE_2023_11_21 + hour * MS_PER_HOUR + minute * MS_PER_MINUTE
  }

  /** Hour 8 fails, hours 9 and 14 (up to 14:59) pass, hour 15 fails, for an hour-long
      period on Tuesday 2023-11-21 in UTC. */
  lemma HourBoundaryExamples()
    ensures !AppropriateFreePeriod(Period(OnTuesday(8, 0), OnTuesday(9, 0)), 0)
    ensures AppropriateFreePeriod(Period(OnTuesday(9, 0), OnTuesday(10, 0)), 0)
    ensures AppropriateFreePeriod(Period(OnTuesday(14, 59), OnTuesday(15, 59)), 0)
    ensures !AppropriateFreePeriod(Period(OnTuesday(15, 0), OnTuesday(16, 0)), 0)
  {
    LocalCalendarOf(OnTuesday(8, 0), 0, DAY_2023_11_21, 8, 0);
    LocalCalendarOf(OnTuesday(9, 0), 0, DAY_2023_11_21, 9, 0);
    LocalCalendarOf(OnTuesday(14, 59), 0, DAY_2023_11_21, 14, 59 * MS_PER_MINUTE);
    LocalCalendarOf(OnTuesday(15, 0), 0, DAY_2023_11_21, 15, 0);
  }

  /** Saturday 2023-11-25 at 09:00 fails; a zero-length period on the Tuesday fails on its
      duration although the day and hour would pass. */
  lemma WeekdayExamples()
    ensures !AppropriateFreePeriod(Period(OnTuesday(4 * 24 + 9, 0), OnTuesday(4 * 24 + 10, 0)), 0)
    ensures !AppropriateFreePeriod(Period(OnTuesday(10, 0), OnTuesday(10, 0)), 0)
  {
    LocalCalendarOf(OnTuesday(4 * 24 + 9, 0), 0, DAY_2023_11_21 + 4, 9, 0);
    LocalCalendarOf(OnTuesday(10, 0), 0, DAY_2023_11_21, 10, 0);
  }

  /** The zone decides: 08:00 UTC on the Tuesday fails in UTC and passes in UTC+1, where it
      is 09:00. */
  lemma OffsetExample()
    ensures !AppropriateFreePeriod(Period(OnTuesday(8, 0), OnTuesday(9, 0)), 0)
    ensures AppropriateFreePeriod(Period(OnTuesday(8, 0), OnTuesday(9, 0)), MS_PER_HOUR)
  {
    LocalCalendarOf(OnTuesday(8, 0), 0, DAY_2023_11_21, 8, 0);
    LocalCalendarOf(OnTuesday(8, 0), MS_PER_HOUR, DAY_2023_11_21, 9, 0);
  }
}
