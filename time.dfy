/** Instants and the local calendar.
    An instant is a count of milliseconds since 1970-01-01T00:00:00Z, as JavaScript's `Date`
    holds it; for instants in the years 0000 to 9999, comparing two `toISOString()` renderings
    orders them the same way as these numbers. The local calendar is that of a zone with a fixed offset `tz` (milliseconds east
    of UTC), which stands for the host zone that `getDay()` and `getHours()` consult. */
module Time {

  type Instant = int

  const MS_PER_SECOND: int := 1000
  const MS_PER_MINUTE: int := 60 * MS_PER_SECOND
  const MS_PER_HOUR: int := 60 * MS_PER_MINUTE
  const MS_PER_DAY: int := 24 * MS_PER_HOUR

  /** Day of the week 1970-01-01 fell on (a Thursday), numbered as `getDay()` numbers days. */
  const EPOCH_WEEKDAY: int := 4
  const SUNDAY: int := 0
  const SATURDAY: int := 6

  /** Milliseconds since local midnight of 1970-01-01 (floor division below, also before 1970). */
  function LocalMillis(t: Instant, tz: int): int
  {
    t + tz
  }

  /** The local date as a count of whole days since 1970-01-01 (negative before it): the
      day-long window of local time that holds the instant. */
  function LocalDate(t: Instant, tz: int): (days: int)
    ensures days * MS_PER_DAY <= LocalMillis(t, tz) < (days + 1) * MS_PER_DAY
  {
    LocalMillis(t, tz) / MS_PER_DAY
  }

  /** `new Date(t).getDay()`: 0 is Sunday, 6 is Saturday. */
  function LocalDay(t: Instant, tz: int): (d: int)
    ensures 0 <= d < 7
  {
    (LocalDate(t, tz) + EPOCH_WEEKDAY) % 7
  }

  /** The weekday of an instant is that of the local day-long window holding it, counted
      on from the epoch's Thursday. */
  lemma LocalDayOfWindow(t: Instant, tz: int, days: int)
    requires days * MS_PER_DAY <= t + tz < (days + 1) * MS_PER_DAY
    ensures LocalDay(t, tz) == (days + EPOCH_WEEKDAY) % 7
  {
    assert LocalDate(t, tz) == days;
  }

  /** A day later it is the next day of the week, and a week later the same day. */
  lemma NextDayNextWeekday(t: Instant, tz: int)
    ensures LocalDay(t + MS_PER_DAY, tz) == (LocalDay(t, tz) + 1) % 7
    ensures LocalDay(t + 7 * MS_PER_DAY, tz) == LocalDay(t, tz)
  {
    var days := LocalDate(t, tz);
    DaysLater(t, tz, days, 1);
    DaysLater(t, tz, days, 7);
    WeekdayStep(days + EPOCH_WEEKDAY);
  }

  /** `n` days after an instant of local date `days`, the local date is `days + n`. */
  lemma DaysLater(t: Instant, tz: int, days: int, n: int)
    requires days * MS_PER_DAY <= t + tz < (days + 1) * MS_PER_DAY
    ensures LocalDay(t + n * MS_PER_DAY, tz) == (days + n + EPOCH_WEEKDAY) % 7
  {
    assert (days + n) * MS_PER_DAY == days * MS_PER_DAY + n * MS_PER_DAY;
    assert (days + n + 1) * MS_PER_DAY == (days + 1) * MS_PER_DAY + n * MS_PER_DAY;
    LocalDayOfWindow(t + n * MS_PER_DAY, tz, days + n);
  }

  lemma WeekdayStep(n: int)
    ensures (n + 1) % 7 == (n % 7 + 1) % 7
    ensures (n + 7) % 7 == n % 7
  {
    var q, r := n / 7, n % 7;
    if r < 6 {
      ModOf(n + 1, q, r + 1);
    } else {
      ModOf(n + 1, q + 1, 0);
    }
    ModOf(n + 7, q + 1, r);
  }

  /** The remainder of `n` by 7 read off a decomposition of `n`. */
  lemma ModOf(n: int, q: int, r: int)
    requires n == 7 * q + r && 0 <= r < 7
    ensures n % 7 == r
  {
  }

  /** `new Date(t).getHours()`: the local hour of the day, 0 to 23. */
  function LocalHour(t: Instant, tz: int): (h: int)
    ensures 0 <= h < 24
    ensures h * MS_PER_HOUR <= LocalMillis(t, tz) % MS_PER_DAY < (h + 1) * MS_PER_HOUR
  {
    (LocalMillis(t, tz) % MS_PER_DAY) / MS_PER_HOUR
  }
}
