/** `determineFreePeriods` (src/bg/library.js): the gaps between calendar events, starting
    from "now", and a trailing period up to a horizon 24 hours after "now".

    The source walks the events in start order with a cursor that starts at "now", emits
    `{cursor, event.start}` whenever an event starts strictly after the cursor, and then SETS
    the cursor to that event's end (not to the larger of the two ends). A short event nested
    inside a longer one therefore moves the cursor backwards; `NestedEventExample` shows the
    period this produces inside a busy event. `Scan` is that walk, word for word;
    `ScanMembers` says which periods it emits, `ScanChronological` in what order, and
    `FreeWhenNotBusy` that, for any events, they cover every free instant of the horizon, and
    `ScanCovers` that, when no event is nested inside an earlier-starting one, they cover
    exactly the free part of the horizon. Only the trailing period is bounded by the
    horizon: a gap in front of an event is emitted whole, however late the event starts
    (`GapPastHorizonExample`). */
module Availability {
  import opened Time
  import opened Entities
  import opened Seqs
  import opened EventSort
  import opened Wrappers

  /** `60*60*24*1000`: the trailing period ends this long after "now". */
  const HORIZON_MS: int := MS_PER_DAY

  /** The loop of lines 41-54 from a cursor on, followed by the trailing period of lines 58-63. */
  function Scan(s: seq<Event>, cursor: Instant, horizonEnd: Instant): (r: seq<Period>)
    ensures |r| <= |s| + 1
  {
    if s == [] then
      if horizonEnd > cursor then [Period(cursor, horizonEnd)] else []
    else
      (if s[0].start > cursor then [Period(cursor, s[0].start)] else [])
      + Scan(s[1..], s[0].end, horizonEnd)
  }

  /** The value `determineFreePeriods(events)` returns when the clock reads `now`. */
  function FreePeriods(events: seq<Event>, now: Instant): (r: seq<Period>)
    ensures events == [] ==> r == [Period(now, now + HORIZON_MS)]
  {
    Scan(SortByStart(events), now, now + HORIZON_MS)
  }

  /** Sorts `events` in place, as `Array.prototype.sort` does, then walks it. */
  method DetermineFreePeriods(events: array<Event>, now: Instant) returns (periods: seq<Period>)
    modifies events
    ensures events[..] == SortByStart(old(events[..]))
    ensures periods == FreePeriods(old(events[..]), now)
  {
    SortEventsByStart(events);
    periods := WalkEvents(events, now);
  }

  /** The `for` loop over the sorted events and the trailing check after it. */
  method WalkEvents(events: array<Event>, now: Instant) returns (periods: seq<Period>)
    ensures periods == Scan(events[..], now, now + HORIZON_MS)
  {
    ghost var s := events[..];
    periods := [];
    var previousEndTime := now;
    var endTime := now + HORIZON_MS;
    var i := 0;
    assert s[0..] == s;
    while i < events.Length
      invariant 0 <= i <= events.Length
      invariant periods + Scan(s[i..], previousEndTime, endTime) == Scan(s, now, endTime)
    {
      var event := events[i];
      ghost var gap := if event.start > previousEndTime then [Period(previousEndTime, event.start)] else [];
      ghost var rest := Scan(s[i + 1..], event.end, endTime);
      ghost var before := periods;
      ScanStep(s, i, previousEndTime, endTime);
      assert before + (gap + rest) == Scan(s, now, endTime);
      if event.start > previousEndTime {
        periods := periods + [Period(previousEndTime, event.start)];
      }
      assert periods == before + gap;
      ConcatAssoc(before, gap, rest);
      previousEndTime := event.end;
      i := i + 1;
    }
    assert s[i..] == [];
    if endTime > previousEndTime {
      periods := periods + [Period(previousEndTime, endTime)];
    }
  }

  /** One turn of the loop: the gap in front of event `i`, if any, then the rest of the walk
      from that event's end. */
  lemma ScanStep(s: seq<Event>, i: nat, cursor: Instant, horizonEnd: Instant)
    requires i < |s|
    ensures Scan(s[i..], cursor, horizonEnd)
            == (if s[i].start > cursor then [Period(cursor, s[i].start)] else [])
               + Scan(s[i + 1..], s[i].end, horizonEnd)
  {
    assert s[i..][0] == s[i] && s[i..][1..] == s[i + 1..];
  }

  // ---------------------------------------------------------------------------------------
  // Which periods are emitted

  /** The cursor when the walk reaches event `i`: the start cursor for the first event, and
      the end of the event just before otherwise (line 53 is a plain assignment). */
  function CursorBefore(s: seq<Event>, cursor: Instant, i: nat): Instant
    requires i <= |s|
  {
    if i == 0 then cursor else s[i - 1].end
  }

  /** `p` is the gap in front of event `i`, or the trailing period. */
  predicate EmittedAt(s: seq<Event>, cursor: Instant, horizonEnd: Instant, p: Period, i: nat)
    requires i <= |s|
  {
    if i < |s| then
      s[i].start > CursorBefore(s, cursor, i) && p == Period(CursorBefore(s, cursor, i), s[i].start)
    else
      horizonEnd > CursorBefore(s, cursor, i) && p == Period(CursorBefore(s, cursor, i), horizonEnd)
  }

  /** A period is emitted exactly when some event starts strictly after the cursor that the
      walk holds in front of it (the period runs from that cursor to the event's start), or
      it is the trailing period from the last cursor to the horizon. */
  lemma {:induction false} ScanMembers(s: seq<Event>, cursor: Instant, horizonEnd: Instant, p: Period)
    ensures p in Scan(s, cursor, horizonEnd) <==>
              exists i :: 0 <= i <= |s| && EmittedAt(s, cursor, horizonEnd, p, i)
  {
    if s != [] {
      var rest := s[1..];
      ScanMembers(rest, s[0].end, horizonEnd, p);
      var r := Scan(s, cursor, horizonEnd);
      var head := if s[0].start > cursor then [Period(cursor, s[0].start)] else [];
      assert r == head + Scan(rest, s[0].end, horizonEnd);
      forall i | 1 <= i <= |s|
        ensures EmittedAt(s, cursor, horizonEnd, p, i) == EmittedAt(rest, s[0].end, horizonEnd, p, i - 1)
      {
        assert CursorBefore(s, cursor, i) == CursorBefore(rest, s[0].end, i - 1);
      }
      if p in r {
        if p in head {
          assert EmittedAt(s, cursor, horizonEnd, p, 0);
        } else {
          var i :| 0 <= i <= |rest| && EmittedAt(rest, s[0].end, horizonEnd, p, i);
          assert EmittedAt(s, cursor, horizonEnd, p, i + 1);
        }
      } else {
        forall i | 0 <= i <= |s| ensures !EmittedAt(s, cursor, horizonEnd, p, i) {
          if i > 0 {
            assert !EmittedAt(rest, s[0].end, horizonEnd, p, i - 1);
          }
        }
      }
    } else if p in Scan(s, cursor, horizonEnd) {
      assert EmittedAt(s, cursor, horizonEnd, p, 0);
    }
  }

  /** The gap between two consecutive events is emitted whenever the later one starts after
      the earlier one ends, whatever the other events are. */
  lemma GapBetweenConsecutive(s: seq<Event>, cursor: Instant, horizonEnd: Instant, i: nat)
    requires i + 1 < |s| && s[i].end < s[i + 1].start
    ensures Period(s[i].end, s[i + 1].start) in Scan(s, cursor, horizonEnd)
  {
    assert EmittedAt(s, cursor, horizonEnd, Period(s[i].end, s[i + 1].start), i + 1);
    ScanMembers(s, cursor, horizonEnd, Period(s[i].end, s[i + 1].start));
  }

  /** No emitted period is empty or reversed: both pushes are guarded by a strict `>`. */
  lemma {:induction false} ScanPeriodsNonEmpty(s: seq<Event>, cursor: Instant, horizonEnd: Instant)
    ensures forall k :: 0 <= k < |Scan(s, cursor, horizonEnd)| ==>
              Scan(s, cursor, horizonEnd)[k].start < Scan(s, cursor, horizonEnd)[k].end
  {
    if s != [] {
      ScanPeriodsNonEmpty(s[1..], s[0].end, horizonEnd);
    }
  }

  // ---------------------------------------------------------------------------------------
  // Order and coverage

  predicate WellFormed(s: seq<Event>)
  {
    forall i :: 0 <= i < |s| ==> s[i].start <= s[i].end
  }

  /** Each period ends no later than the next one starts. */
  predicate Chronological(ps: seq<Period>)
  {
    forall i, j :: 0 <= i < j < |ps| ==> ps[i].end <= ps[j].start
  }

  /** `t` is the start cursor or the end of one of the events. */
  predicate CursorOrEnd(s: seq<Event>, cursor: Instant, t: Instant)
  {
    t == cursor || exists i :: 0 <= i < |s| && t == s[i].end
  }

  /** Every emitted period starts at the start cursor or at the end of an event: the cursor
      only ever takes those values (lines 39 and 53). */
  lemma {:induction false} ScanStartPoints(s: seq<Event>, cursor: Instant, horizonEnd: Instant)
    ensures forall k :: 0 <= k < |Scan(s, cursor, horizonEnd)| ==>
              CursorOrEnd(s, cursor, Scan(s, cursor, horizonEnd)[k].start)
  {
    if s != [] {
      var head := if s[0].start > cursor then [Period(cursor, s[0].start)] else [];
      var tail := Scan(s[1..], s[0].end, horizonEnd);
      var r := Scan(s, cursor, horizonEnd);
      ScanStartPoints(s[1..], s[0].end, horizonEnd);
      assert r == head + tail;
      forall k | 0 <= k < |r| ensures CursorOrEnd(s, cursor, r[k].start) {
        if k >= |head| {
          assert r[k] == tail[k - |head|];
          if r[k].start != s[0].end {
            var i :| 0 <= i < |s| - 1 && r[k].start == s[1..][i].end;
            assert s[1..][i] == s[i + 1];
          }
        }
      }
    }
  }

  /** If the start cursor and every event's end are at least `m`, so is every period's
      start. */
  lemma {:induction false} ScanStartsFrom(s: seq<Event>, cursor: Instant, horizonEnd: Instant, m: Instant)
    requires m <= cursor
    requires forall i :: 0 <= i < |s| ==> m <= s[i].end
    ensures forall k :: 0 <= k < |Scan(s, cursor, horizonEnd)| ==> m <= Scan(s, cursor, horizonEnd)[k].start
  {
    if s != [] {
      ScanStartsFrom(s[1..], s[0].end, horizonEnd, m);
    }
  }

  /** For well-formed events in start order the periods come out in chronological order and
      do not overlap, even when the cursor moves backwards. */
  lemma {:induction false} ScanChronological(s: seq<Event>, cursor: Instant, horizonEnd: Instant)
    requires SortedByStart(s) && WellFormed(s)
    ensures Chronological(Scan(s, cursor, horizonEnd))
  {
    if s != [] {
      var rest := s[1..];
      var tail := Scan(rest, s[0].end, horizonEnd);
      ScanChronological(rest, s[0].end, horizonEnd);
      assert forall i :: 0 <= i < |rest| ==> s[0].start <= rest[i].end by {
        forall i | 0 <= i < |rest| ensures s[0].start <= rest[i].end {
          assert rest[i] == s[i + 1];
        }
      }
      ScanStartsFrom(rest, s[0].end, horizonEnd, s[0].start);
      if s[0].start > cursor {
        PrependChronological(Period(cursor, s[0].start), tail);
      }
    }
  }

  /** A period that ends no later than every period of a chronological sequence starts may
      be put in front of it. */
  lemma PrependChronological(p: Period, ps: seq<Period>)
    requires Chronological(ps)
    requires forall k :: 0 <= k < |ps| ==> p.end <= ps[k].start
    ensures Chronological([p] + ps)
  {
    forall i, j | 0 <= i < j < |ps| + 1 ensures ([p] + ps)[i].end <= ([p] + ps)[j].start {
      assert ([p] + ps)[j] == ps[j - 1];
      if i > 0 {
        assert ([p] + ps)[i] == ps[i - 1];
      }
    }
  }

  /** Ends are in the order of the starts: no event ends before an event that started
      earlier (in particular none is nested inside an earlier event). */
  predicate EndsInOrder(s: seq<Event>)
  {
    forall i, j :: 0 <= i < j < |s| ==> s[i].end <= s[j].end
  }

  predicate Busy(s: seq<Event>, t: Instant)
  {
    exists i :: 0 <= i < |s| && InEvent(t, s[i])
  }

  predicate Free(ps: seq<Period>, t: Instant)
  {
    exists k :: 0 <= k < |ps| && InPeriod(t, ps[k])
  }

  lemma BusyCons(s: seq<Event>, t: Instant)
    requires s != []
    ensures Busy(s, t) <==> InEvent(t, s[0]) || Busy(s[1..], t)
  {
    if Busy(s, t) && !InEvent(t, s[0]) {
      var i :| 0 <= i < |s| && InEvent(t, s[i]);
      assert InEvent(t, s[1..][i - 1]);
    }
    if Busy(s[1..], t) {
      var i :| 0 <= i < |s| - 1 && InEvent(t, s[1..][i]);
      assert InEvent(t, s[i + 1]);
    }
  }

  lemma FreeConcat(a: seq<Period>, b: seq<Period>, t: Instant)
    ensures Free(a + b, t) <==> Free(a, t) || Free(b, t)
  {
    if Free(a + b, t) {
      var k :| 0 <= k < |a + b| && InPeriod(t, (a + b)[k]);
      if k >= |a| {
        assert InPeriod(t, b[k - |a|]);
      }
    }
    if Free(b, t) {
      var k :| 0 <= k < |b| && InPeriod(t, b[k]);
      assert InPeriod(t, (a + b)[|a| + k]);
    }
    if Free(a, t) {
      var k :| 0 <= k < |a| && InPeriod(t, a[k]);
      assert InPeriod(t, (a + b)[k]);
    }
  }

  /** From the start cursor to the horizon, an instant lies in an emitted period exactly
      when no event covers it, provided the events are in start order, well formed and end
      in the order they start. Events may end before the cursor. */
  lemma {:induction false} ScanCovers(s: seq<Event>, cursor: Instant, horizonEnd: Instant, t: Instant)
    requires SortedByStart(s) && WellFormed(s) && EndsInOrder(s)
    requires cursor <= t < horizonEnd
    ensures Free(Scan(s, cursor, horizonEnd), t) <==> !Busy(s, t)
  {
    var r := Scan(s, cursor, horizonEnd);
    if s == [] {
      assert InPeriod(t, r[0]);
    } else {
      var e, rest := s[0], s[1..];
      var head := if e.start > cursor then [Period(cursor, e.start)] else [];
      var tail := Scan(rest, e.end, horizonEnd);
      assert r == head + tail;
      FreeConcat(head, tail, t);
      BusyCons(s, t);
      assert Free(head, t) <==> cursor <= t < e.start by {
        if Free(head, t) {
          var k :| 0 <= k < |head| && InPeriod(t, head[k]);
        }
        if cursor <= t < e.start {
          assert InPeriod(t, head[0]);
        }
      }
      if t < e.end {
        ScanStartsFrom(rest, e.end, horizonEnd, e.end);
        assert !Free(tail, t);
        if t < e.start {
          forall i | 0 <= i < |rest| ensures !InEvent(t, rest[i]) {
            assert rest[i] == s[i + 1];
          }
          assert !Busy(rest, t);
        }
      } else {
        ScanCovers(rest, e.end, horizonEnd, t);
      }
    }
  }

  /** Half of coverage holds for any events, sorted or not, nested or reversed: an instant
      from the start cursor to the horizon that no event covers lies in an emitted period.
      Moving the cursor back at line 53 can only add periods, never lose a free instant. */
  lemma {:induction false} FreeWhenNotBusy(s: seq<Event>, cursor: Instant, horizonEnd: Instant, t: Instant)
    requires cursor <= t < horizonEnd
    requires !Busy(s, t)
    ensures Free(Scan(s, cursor, horizonEnd), t)
  {
    var r := Scan(s, cursor, horizonEnd);
    if s == [] {
      assert InPeriod(t, r[0]);
    } else {
      var e, rest := s[0], s[1..];
      var head := if e.start > cursor then [Period(cursor, e.start)] else [];
      var tail := Scan(rest, e.end, horizonEnd);
      assert r == head + tail;
      FreeConcat(head, tail, t);
      BusyCons(s, t);
      if t < e.start {
        assert InPeriod(t, head[0]);
      } else {
        FreeWhenNotBusy(rest, e.end, horizonEnd, t);
      }
    }
  }

  /** Events with the same members cover the same instants. */
  lemma BusyOfReordering(a: seq<Event>, b: seq<Event>, t: Instant)
    requires multiset(a) == multiset(b)
    ensures Busy(a, t) <==> Busy(b, t)
  {
    if Busy(a, t) {
      var i :| 0 <= i < |a| && InEvent(t, a[i]);
      SameMembers(a, b, a[i]);
      var j :| 0 <= j < |b| && b[j] == a[i];
    }
    if Busy(b, t) {
      var j :| 0 <= j < |b| && InEvent(t, b[j]);
      SameMembers(a, b, b[j]);
      var i :| 0 <= i < |a| && a[i] == b[j];
    }
  }

  /** Every instant of the next 24 hours that no event covers is in one of the periods that
      `determineFreePeriods` returns, whatever events the calendar holds. */
  lemma FreePeriodsComplete(events: seq<Event>, now: Instant, t: Instant)
    requires now <= t < now + HORIZON_MS
    requires !Busy(events, t)
    ensures Free(FreePeriods(events, now), t)
  {
    var sorted := SortByStart(events);
    SortPermutes(events);
    BusyOfReordering(sorted, events, t);
    FreeWhenNotBusy(sorted, now, now + HORIZON_MS, t);
  }

  /** Events that do not overlap, taken in start order, end in the order they start. */
  lemma DisjointEndsInOrder(s: seq<Event>)
    requires WellFormed(s)
    requires forall i :: 0 <= i < |s| - 1 ==> s[i].end <= s[i + 1].start
    ensures SortedByStart(s) && EndsInOrder(s)
  {
    assert forall i, j :: 0 <= i < j < |s| ==> s[i].end <= s[j].start by {
      forall i, j | 0 <= i < j < |s| ensures s[i].end <= s[j].start {
        var k := i;
        while k < j - 1
          invariant i <= k <= j - 1
          invariant s[i].end <= s[k + 1].start
        {
          k := k + 1;
        }
      }
    }
  }

  /** For events that are in start order and do not overlap, the periods are chronological
      and cover exactly the instants of the next 24 hours that no event covers, whether the
      events lie before or after `now`. */
  lemma FreePeriodsOfDisjointEvents(events: seq<Event>, now: Instant, t: Instant)
    requires WellFormed(events)
    requires forall i :: 0 <= i < |events| - 1 ==> events[i].end <= events[i + 1].start
    requires now <= t < now + HORIZON_MS
    ensures Chronological(FreePeriods(events, now))
    ensures Free(FreePeriods(events, now), t) <==> !Busy(events, t)
  {
    var h := now + HORIZON_MS;
    DisjointEndsInOrder(events);
    SortOfSorted(events);
    var r := Scan(events, now, h);
    assert FreePeriods(events, now) == r;
    assert Chronological(r) by {
      ScanChronological(events, now, h);
    }
    assert Free(r, t) <==> !Busy(events, t) by {
      ScanCovers(events, now, h, t);
    }
  }

  // ---------------------------------------------------------------------------------------
  // Examples

  // 2023-10-20 (a Friday), UTC.
  const AT_0900: Instant := 1697792400000
  const AT_1000: Instant := AT_0900 + MS_PER_HOUR
  const AT_1030: Instant := AT_1000 + 30 * MS_PER_MINUTE
  const AT_1100: Instant := AT_1000 + MS_PER_HOUR
  const AT_1200: Instant := AT_1100 + MS_PER_HOUR

  function TwoMeetings(): seq<Event>
  {
    [Event(AT_0900, AT_1000, None), Event(AT_1100, AT_1200, None)]
  }

  /** Meetings 09:00-10:00 and 11:00-12:00: from any "now" not before 09:00 the first period
      is 10:00-11:00 (later "now"s included, since the cursor is reset to 10:00); with "now"
      at 09:30 the periods are 10:00-11:00 and 12:00 to the horizon. */
  lemma TwoMeetingsExample(now: Instant)
    requires now >= AT_0900
    ensures |FreePeriods(TwoMeetings(), now)| >= 1
    ensures FreePeriods(TwoMeetings(), now)[0] == Period(AT_1000, AT_1100)
    ensures now == AT_0900 + 30 * MS_PER_MINUTE ==>
              FreePeriods(TwoMeetings(), now) == [Period(AT_1000, AT_1100), Period(AT_1200, now + HORIZON_MS)]
  {
    var s := TwoMeetings();
    SortOfSorted(s);
    var h := now + HORIZON_MS;
    var trailing := Scan([], AT_1200, h);
    assert s[1..][1..] == [];
    assert Scan(s[1..], AT_1000, h) == [Period(AT_1000, AT_1100)] + trailing;
    assert Scan(s, now, h) == Scan(s[1..], AT_1000, h);
    assert FreePeriods(s, now) == [Period(AT_1000, AT_1100)] + trailing;
  }

  /** A meeting 10:00-10:30 inside one of 09:00-12:00: the cursor goes back to 10:30, and the
      trailing period so emitted contains 11:00, which the long meeting covers. */
  lemma NestedEventExample()
    ensures FreePeriods([Event(AT_0900, AT_1200, None), Event(AT_1000, AT_1030, None)], AT_0900 - MS_PER_HOUR)
            == [Period(AT_0900 - MS_PER_HOUR, AT_0900), Period(AT_1030, AT_0900 - MS_PER_HOUR + HORIZON_MS)]
    ensures InPeriod(AT_1100, Period(AT_1030, AT_0900 - MS_PER_HOUR + HORIZON_MS))
            && InEvent(AT_1100, Event(AT_0900, AT_1200, None))
  {
    var s := [Event(AT_0900, AT_1200, None), Event(AT_1000, AT_1030, None)];
    SortOfSorted(s);
    var now := AT_0900 - MS_PER_HOUR;
    var h := now + HORIZON_MS;
    assert Scan(s[1..], AT_1200, h) == Scan([], AT_1030, h);
    assert Scan(s, now, h) == [Period(now, AT_0900)] + Scan(s[1..], AT_1200, h);
  }

  /** Events at 25:00-26:00 and 30:00-31:00 after "now": the gap 26:00-30:00 in front of the
      second event is emitted whole, though it lies entirely past the 24-hour horizon;
      only the trailing period is bounded by the horizon, and here none is emitted. */
  lemma GapPastHorizonExample()
    ensures FreePeriods([Event(25 * MS_PER_HOUR, 26 * MS_PER_HOUR, None), Event(30 * MS_PER_HOUR, 31 * MS_PER_HOUR, None)], 0)
            == [Period(0, 25 * MS_PER_HOUR), Period(26 * MS_PER_HOUR, 30 * MS_PER_HOUR)]
    ensures HORIZON_MS < 26 * MS_PER_HOUR
  {
    var s := [Event(25 * MS_PER_HOUR, 26 * MS_PER_HOUR, None), Event(30 * MS_PER_HOUR, 31 * MS_PER_HOUR, None)];
    SortOfSorted(s);
    var h := HORIZON_MS;
    assert s[1..][1..] == [];
    assert Scan(s[1..], 26 * MS_PER_HOUR, h) == [Period(26 * MS_PER_HOUR, 30 * MS_PER_HOUR)] + Scan([], 31 * MS_PER_HOUR, h);
    assert Scan(s, 0, h) == [Period(0, 25 * MS_PER_HOUR)] + Scan(s[1..], 26 * MS_PER_HOUR, h);
  }
}
