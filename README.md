# todo5-scheduler: the scheduling engine

A Dafny model of the engine of the todo5-scheduler browser extension (`src/bg/library.js`). The
engine places a user's open to-do items into free slots of their calendar. It has five parts:

- the gap calculator `determineFreePeriods` sorts the calendar events in place by start time. It
  then walks them with a cursor that starts at "now". It emits the gap in front of every event
  that starts after the cursor, however late that is, and finally a trailing period from the
  cursor up to a horizon 24 hours after "now";
- the usability predicate `appropriateFreePeriods` accepts a free period of at least 30 minutes
  that starts on a weekday, at a local hour from 9 to 14;
- the event builder `stubTaskEvent` renders a task placed at a start time into a calendar event.
  The event's description ends in the marker `ID_PREFIX` followed by the task's id;
- the detector `findAlreadyScheduledTaskIds` reads those ids back from event descriptions;
- the orchestrator `actOnSchedulableTasks` drops tasks that already have an event. It keeps the
  usable periods and hands the k-th usable period the k-th remaining task through a callback.

Modelling choices:

- An instant is an integer count of milliseconds since the epoch (`Time.Instant`). The source
  compares `toISOString()` renderings. For instants in the years 0000 to 9999 these order
  instants the same way as the numbers do; the model assumes instants in that range.
- The local calendar is that of a zone with a fixed offset `tz`. `getDay()` and `getHours()` are
  `Time.LocalDay` and `Time.LocalHour`, computed from the epoch (a Thursday) with floor division.
- The clock is the parameter `now`.
- The callback `func(period, task)` is modelled by the sequence of `Call`s it receives.
- The source sorts the caller's array in place, so `DetermineFreePeriods` and
  `ActOnSchedulableTasks` take an `array<Event>` with `modifies`. They are proved against the
  functions `FreePeriods` and `Schedule`, which the lemmas are about.
- `findAlreadyScheduledTaskIds` throws a `TypeError` when an event's description holds the
  marker, and no occurrence of it is followed by a character on its line. That throw is the `None` of an `Option` result, so
  no precondition is needed.

How the code behaves at its edges, which the model reproduces:

- Line 53 of `src/bg/library.js` sets the cursor to the event's end, not to the larger of the
  cursor and that end. A short event nested in a longer one moves the cursor back, and the free
  periods then include time the long event covers (`Availability.NestedEventExample`). Every
  instant of the horizon that no event covers is in some period, for any events
  (`Availability.FreePeriodsComplete`); the converse holds only for events that end in the order
  they start (`Availability.ScanCovers`).
- Only the trailing period is bounded by the 24-hour horizon. The gap in front of an event is
  emitted whole even when it lies entirely past the horizon (`Availability.GapPastHorizonExample`).
- The code returns the scheduled ids as an array in event order, and the model keeps that order.
- The 30-minute, weekday and 9-to-14 thresholds are hard-coded, and the model has them as
  constants.
- A description that holds the marker, where no occurrence of it is followed by a character
  on its line, makes the whole run throw before any callback; the model reproduces that (`Assignment.ThrowsExactly`).

## Model

| member | source | states |
|---|---|---|
| `Time.LocalDate` | src/bg/library.js:15 | the local date in whole days since 1970-01-01: the day-long window of local time that holds the instant |
| `Time.LocalDay` | src/bg/library.js:15 | `getDay()` in a fixed-offset zone: a weekday number 0..6, Sunday 0 |
| `Time.LocalDayOfWindow` | src/bg/library.js:15 | the weekday is that of the day-long local window holding the instant, counted on from Thursday 1970-01-01 |
| `Time.NextDayNextWeekday` | src/bg/library.js:15 | a day later is the next weekday (mod 7), a week later the same weekday |
| `Time.LocalHour` | src/bg/library.js:19 | `getHours()` in a fixed-offset zone: an hour 0..23 whose hour-long window of the local day holds the instant |
| `Usability.IsWeekend` | src/bg/library.js:15-18 | the local start day is Sunday (0) or Saturday (6) |
| `Usability.AppropriateFreePeriod` | src/bg/library.js:9-24 | true exactly when the period lasts at least 30 minutes (integer ms), the local start day is Monday..Friday and the local start hour is 9..14 |
| `Usability.DurationBoundary` | src/bg/library.js:11-14 | a period of exactly 30 minutes is decided by day and hour alone; anything shorter is rejected |
| `Usability.OnlyStartMatters` | src/bg/library.js:15-22 | for long enough periods only the start instant decides, not the end |
| `Usability.HourBoundaryExamples` | src/bg/library.js:19-22 | on a Tuesday, starts at 08:00 and 15:00 fail; starts at 09:00 and 14:59 pass |
| `Usability.WeekdayExamples` | src/bg/library.js:11-18 | a Saturday start fails; a zero-length Tuesday period fails on its duration |
| `Usability.OffsetExample` | src/bg/library.js:19 | the zone offset decides the hour: 08:00 UTC fails in UTC and passes in UTC+1 |
| `EventSort.InsertByStart` | src/bg/library.js:35 | one step of the reference sort: the result is one element longer; where the element lands is `InsertionPoint` |
| `EventSort.InsertionPoint` | src/bg/library.js:35 | the element goes right after the last one that starts no later than it, so ties keep their order |
| `EventSort.SortByStart` | src/bg/library.js:35 | the reference sort: same length, ordered by start |
| `EventSort.SortPermutes` | src/bg/library.js:35 | sorting keeps every event as often as the input has it (a permutation) |
| `EventSort.SortIsStable` | src/bg/library.js:35 | events with equal starts keep their input order, as `Array.prototype.sort` does |
| `EventSort.SortOfSorted` | src/bg/library.js:35 | an array already in start order is left unchanged |
| `EventSort.InsertAt` | src/bg/library.js:35 | one insertion step in place: the prefix `a[..i+1]` becomes `InsertByStart` of the old sorted prefix and `a[i]`; the rest of the array is unchanged |
| `EventSort.SortEventsByStart` | src/bg/library.js:35 | the in-place insertion sort leaves the array equal to `SortByStart` of its old contents |
| `Availability.Scan` | src/bg/library.js:41-63 | the walk from a cursor: at most one period per event plus the trailing one; what it emits is stated by the lemmas below |
| `Availability.DetermineFreePeriods` | src/bg/library.js:33-66 | sorts the caller's array in place and returns `FreePeriods` of the old contents |
| `Availability.WalkEvents` | src/bg/library.js:39-63 | the cursor loop and the trailing push return the scan of the sorted events from `now` to `now` + 24h |
| `Availability.FreePeriods` | src/bg/library.js:57-63 | with no events the result is the single period `[now, now + 24h]` |
| `Availability.ScanMembers` | src/bg/library.js:41-63 | a period is emitted iff some event starts strictly after the cursor held in front of it (cursor = previous event's end, line 53), or it is the trailing period to the horizon |
| `Availability.GapBetweenConsecutive` | src/bg/library.js:41-54 | when an event starts after the previous one ends, that gap is emitted |
| `Availability.ScanPeriodsNonEmpty` | src/bg/library.js:45-63 | every emitted period starts strictly before it ends |
| `Availability.ScanStartPoints` | src/bg/library.js:39-62 | every period starts at the initial cursor or at some event's end, the only values the cursor takes |
| `Availability.ScanStartsFrom` | src/bg/library.js:47-62 | if the initial cursor and every event's end are at least `m`, every period starts at or after `m` |
| `Availability.ScanChronological` | src/bg/library.js:41-63 | for well-formed events in start order the periods are in chronological order and disjoint |
| `Availability.FreeWhenNotBusy` | src/bg/library.js:41-63 | for any events, sorted or not, an instant from the cursor to the horizon that no event covers is in an emitted period |
| `Availability.FreePeriodsComplete` | src/bg/library.js:33-66 | for any events, every instant of the next 24 hours that no event covers is in a returned period |
| `Availability.ScanCovers` | src/bg/library.js:41-63 | when events end in the order they start, an instant in the horizon is in a period iff no event covers it |
| `Availability.DisjointEndsInOrder` | src/bg/library.js:41-54 | non-overlapping consecutive events are sorted and end in order |
| `Availability.FreePeriodsOfDisjointEvents` | src/bg/library.js:33-66 | for sorted, non-overlapping events, past ones included, the periods are chronological and cover exactly the free instants of the next 24 hours |
| `Availability.TwoMeetingsExample` | tests/library.spec.js:54-67 | meetings 09-10 and 11-12 give 10:00-11:00 as the first period |
| `Availability.NestedEventExample` | src/bg/library.js:53 | a nested event moves the cursor back, so a period overlaps the longer event |
| `Availability.GapPastHorizonExample` | src/bg/library.js:45-63 | a gap lying wholly past the 24-hour horizon is still emitted; only the trailing period is bounded by the horizon |
| `EventStub.StubTaskEvent` | src/bg/library.js:78-90 | end = start + duration minutes; summary = `SUMMARY_PREFIX` + content; description = task description, attribution line, `ID_PREFIX` + id; visibility private |
| `Strings.LineEnd` | src/bg/library.js:100 | how far the greedy `(.+)` runs: a line terminator at or after the start, or the end of the text |
| `Strings.LineEndIsFirst` | src/bg/library.js:100 | no line terminator comes before `LineEnd`, so it is the first one (the greedy `(.+)` stops there) |
| `Strings.FindFollowed` | src/bg/library.js:100 | where the leftmost match of `p(.+)` starts: the first index at or after `from` where `p` is followed by a character on its line, or none |
| `Strings.SecondPiece` | src/bg/library.js:100 | `split(p)[1]` of a text starting with `p`; its contract is `SecondPieceFacts` |
| `Strings.IndexOf` | src/bg/library.js:99 | the first occurrence at or after `from`, or none |
| `Strings.TextAfter` | src/bg/library.js:100 | `match(p(.+))[0].split(p)[1]`: the second piece of the leftmost match, or none where the match is `null`; its contract is `TextAfterSpec` |
| `Strings.TextAfterSpec` | src/bg/library.js:100 | none iff no marker is followed by a character on its line; else a single-line text without `p` that follows the leftmost marker followed by a character, and runs up to the end of the text, a line terminator or the next marker; for a marker without a line terminator in it, no marker begins inside the text, so it stops at the first such place |
| `Strings.SecondPieceFacts` | src/bg/library.js:100 | `split(p)[1]` is the text right after the leading `p`, with no `p` inside, running up to the next `p` or the end; no `p` begins inside it, so it stops at the first `p` |
| `Strings.MarkerAcrossLineExample` | src/bg/library.js:100 | with the marker `a` + line break, the text `a`, line break, `xa`, line break yields `xa` although a marker begins at its `a`: the match stops at the line end |
| `Strings.TextAfterFirstOccurrence` | src/bg/library.js:100 | a marker first occurring before a non-empty single-line id free of the marker yields exactly that id |
| `ScheduledIds.Tagged` | src/bg/library.js:99 | the filter: the event has a description that contains the marker |
| `ScheduledIds.ExtractId` | src/bg/library.js:100 | the map on one description: `TextAfter` with the marker |
| `ScheduledIds.FindAlreadyScheduledTaskIds` | src/bg/library.js:98-101 | when it does not throw, at most one id per event |
| `ScheduledIds.FindThrowsExactly` | src/bg/library.js:99-100 | throws (None) iff some event's description holds the marker, and no occurrence of it is followed by a character on its line |
| `ScheduledIds.FoundIdsInOrder` | src/bg/library.js:99-100 | the k-th id is the one read from the k-th event whose description holds the marker |
| `ScheduledIds.FoundIdsInclude` | src/bg/library.js:99-100 | every tagged event's id is in the result |
| `ScheduledIds.FoundIdsComeFromEvents` | src/bg/library.js:99-100 | every id in the result was read from some tagged event |
| `ScheduledIds.MarkerFirstAt` | src/bg/library.js:85 | in a stub description the marker does not occur before the place line 85 puts it |
| `ScheduledIds.StubIdRoundTrip` | src/bg/library.js:85-100 | reading back a stub's description yields the task id (non-empty, single-line, marker-free id; marker-free task description) |
| `ScheduledIds.StubEventIsTagged` | src/bg/library.js:85-99 | an event carrying a stub's description passes the filter of line 99 |
| `ScheduledIds.ReadBackShortId` | src/bg/library.js:99-100 | an event whose description is the marker plus a short single-line id yields `[id]` |
| `ScheduledIds.FindIdExample` | tests/library.spec.js:99-104 | `[{description: ID_PREFIX + "1234"}]` yields `["1234"]` |
| `ScheduledIds.SecondMarkerExample` | src/bg/library.js:99-100 | a first marker with only a line break after it does not throw when a later marker is followed by `5` on its line: the result is `["5"]` |
| `ScheduledIds.MarkerAtEndThrows` | src/bg/library.js:100 | a description ending right after the marker makes the call throw |
| `Seqs.Filter` | src/bg/library.js:115-118 | `filter` keeps exactly the elements that pass (as members), and no more elements than the input |
| `Seqs.FilterCounts` | src/bg/library.js:115-118 | every element that passes is kept as many times as the input has it; the others are dropped |
| `Seqs.FilterIsSubsequence` | src/bg/library.js:115 | the filtered tasks are a subsequence of the input |
| `Assignment.Unscheduled` | src/bg/library.js:115 | the tasks whose id is not among the read-back ids: each kept task is from the input with such an id, and every input task with such an id is kept |
| `Assignment.Appropriate` | src/bg/library.js:118 | the free periods that pass `appropriateFreePeriods`: each kept one is an input period that passes, and every input period that passes is kept |
| `Assignment.Pairs` | src/bg/library.js:120-125 | min(#periods, #tasks) calls; the k-th call pairs the k-th period with the k-th task |
| `Assignment.PairInOrder` | src/bg/library.js:120-125 | the `forEach` with `shift()` makes exactly the calls of `Pairs` |
| `Assignment.Schedule` | src/bg/library.js:110-127 | the calls made, or none where reading the ids throws; never more calls than tasks |
| `Assignment.ActOnSchedulableTasks` | src/bg/library.js:110-127 | sorts the caller's array in place and makes the calls of `Schedule` |
| `Assignment.ThrowsExactly` | src/bg/library.js:114 | for timed events and array inputs, the run throws iff some event's description holds the marker, and no occurrence of it is followed by a character on its line |
| `Assignment.CallsPairInOrder` | src/bg/library.js:115-125 | the number of calls is min(#usable periods, #unscheduled tasks); the k-th call pairs the k-th usable period with the k-th unscheduled task |
| `Assignment.TasksInOrder` | src/bg/library.js:115-125 | the tasks handed out form a subsequence of the input: input order kept, none used twice |
| `Assignment.CallPeriodsAreUsable` | src/bg/library.js:118-123 | every period handed out is a free period that passes `appropriateFreePeriods` |
| `Assignment.NoCallForScheduledTask` | src/bg/library.js:114-115 | no call receives a task whose id is read back from an event |
| `Assignment.NoCallForStubbedTask` | src/bg/library.js:114-123 | a task whose stub event is on the calendar is not scheduled again |
| `Assignment.NoTasksNoCalls` | tests/library.spec.js:109-116 | with no tasks no call is made |
| `Assignment.NoUsablePeriodNoCalls` | src/bg/library.js:118-125 | with no usable period no call is made |
| `Assignment.AlreadyScheduledExample` | tests/library.spec.js:118-131 | an event tagged with the only task's id gives no call |
| `Assignment.CallsOnceExample` | tests/library.spec.js:133-146 | an event tagged with another id gives exactly one call, with the period from the event's end to the horizon |

## Left out

- Logging (`console.debug`) is not modelled.
- `Assignment.ThrowsExactly` takes both inputs to be arrays. Two throws are not modelled. When
  the task fetch fails the caller passes `null` as `tasks`, and `tasks.filter` at line 115
  throws a `TypeError` before any callback. A calendar response without `items` makes
  `events.sort` throw at line 35. `seq<Task>` and `array<Event>` cannot express either case.
- `Time.Instant` is an unbounded integer, and the model assumes instants in the years 0000 to
  9999. Outside them `toISOString()` writes a signed six-digit year, such as `+010000-01-01`,
  and the string comparisons at lines 45 and 58 then disagree with the order of the numbers.
  Beyond 8.64e15 ms either side of the epoch the date is invalid and `toISOString()` throws.
- `Entities.Event` and `Assignment.ThrowsExactly`: only timed events are modelled. An all-day
  event has no `start.dateTime` or `end.dateTime`; the sort at line 35 then compares `NaN`, and
  `toISOString()` on the invalid date throws a `RangeError` at lines 42-43, so the run throws
  before line 114 whenever such an event is present.
- Parsing dates, rendering ISO strings and real time-zone rules are left out. Daylight-saving
  changes are not modelled: the local calendar has a fixed offset.
- The clock is read twice in the source, at lines 39 and 57. The model reads it once, as `now`.
- The duration check divides by `60.0` in floating point. The model compares the millisecond
  difference with 1,800,000 as integers, which gives the same answer on whole milliseconds.
- `EventStub.StubTaskEvent` adds `duration` minutes as milliseconds. `setMinutes` in a zone with
  daylight saving can differ from that across a clock change.
- `EventStub.StubTaskEvent` takes the task description as a string. JavaScript renders a missing
  description as the text "undefined", and the model does not reproduce that.
- The pattern `"todoist.id="` is a regular expression, so its `.` matches any character other
  than a line terminator. The model searches for the literal marker text. The JavaScript
  `null` dereference is modelled as `None`.
- The callback's own effects are left out. These are the network write to the calendar through
  `stubTaskEvent` and its failures. The model records the calls only.
- `src/bg/background.js` and `src/settings/settings.js` are not part of this model. They hold
  OAuth, HTTP fetches of tasks and events, the hourly trigger and stored settings.
