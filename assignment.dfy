/** `actOnSchedulableTasks` (src/bg/library.js): computes the free periods, drops the tasks
    that already have an event, keeps the usable periods and hands each usable period, in
    order, the next task still waiting. The callback `func(period, task)` is modelled by the
    sequence of calls it receives. */
module Assignment {
  import opened Wrappers
  import opened Seqs
  import opened Time
  import opened Entities
  import opened Usability
  import opened EventSort
  import opened Availability
  import opened ScheduledIds
  import opened EventStub
  import opened Strings

  /** One invocation `func(period, task)`. */
  datatype Call = Call(period: Period, task: Task)

  function Min(a: int, b: int): int
  {
    if a <= b then a else b
  }

  /** Line 115: the tasks whose id is not among the already scheduled ones, in order. */
  function Unscheduled(tasks: seq<Task>, ids: seq<string>): (r: seq<Task>)
    ensures forall k :: 0 <= k < |r| ==> r[k] in tasks && r[k].id !in ids
    ensures forall k :: 0 <= k < |tasks| && tasks[k].id !in ids ==> tasks[k] in r
  {
    Filter(tasks, (t: Task) => t.id !in ids)
  }

  /** Line 118: the free periods that pass `appropriateFreePeriods`, in order. */
  function Appropriate(periods: seq<Period>, tz: int): (r: seq<Period>)
    ensures forall k :: 0 <= k < |r| ==> r[k] in periods && AppropriateFreePeriod(r[k], tz)
    ensures forall k :: 0 <= k < |periods| && AppropriateFreePeriod(periods[k], tz) ==> periods[k] in r
  {
    Filter(periods, (p: Period) => AppropriateFreePeriod(p, tz))
  }

  /** Lines 120-125: each period in turn takes the first task still waiting, if any. */
  function Pairs(periods: seq<Period>, tasks: seq<Task>): (calls: seq<Call>)
    ensures |calls| == Min(|periods|, |tasks|)
    ensures forall k :: 0 <= k < |calls| ==> calls[k] == Call(periods[k], tasks[k])
  {
    if periods == [] then []
    else if tasks == [] then Pairs(periods[1..], tasks)
    else [Call(periods[0], tasks[0])] + Pairs(periods[1..], tasks[1..])
  }

  /** The `forEach` of lines 120-125 with `unscheduledTasks.shift()`. */
  method PairInOrder(appropriatePeriods: seq<Period>, unscheduledTasks: seq<Task>) returns (calls: seq<Call>)
    ensures calls == Pairs(appropriatePeriods, unscheduledTasks)
  {
    calls := [];
    var remaining := unscheduledTasks;
    var i := 0;
    while i < |appropriatePeriods|
      invariant 0 <= i <= |appropriatePeriods|
      invariant |calls| == Min(i, |unscheduledTasks|)
      invariant remaining == unscheduledTasks[|calls|..]
      invariant forall k :: 0 <= k < |calls| ==> calls[k] == Call(appropriatePeriods[k], unscheduledTasks[k])
    {
      var period := appropriatePeriods[i];
      if remaining != [] {
        var nextTask := remaining[0];
        remaining := remaining[1..];
        calls := calls + [Call(period, nextTask)];
      }
      i := i + 1;
    }
  }

  /** What `actOnSchedulableTasks(events, tasks, func)` does when the clock reads `now` in
      a zone `tz` milliseconds ahead of UTC: the calls made to `func`, or `None` where
      extracting an id throws before any call. The ids are read from the events after
      line 112 has sorted them. */
  function Schedule(events: seq<Event>, tasks: seq<Task>, now: Instant, tz: int): (r: Option<seq<Call>>)
    ensures r.Some? ==> |r.value| <= |tasks|
  {
    match FindAlreadyScheduledTaskIds(SortByStart(events))
    case None => None
    case Some(ids) => Some(Pairs(Appropriate(FreePeriods(events, now), tz), Unscheduled(tasks, ids)))
  }

  /** Sorts the caller's array (as line 112 does through `determineFreePeriods`), then
      makes the calls. */
  method ActOnSchedulableTasks(events: array<Event>, tasks: seq<Task>, now: Instant, tz: int)
    returns (outcome: Option<seq<Call>>)
    modifies events
    ensures events[..] == SortByStart(old(events[..]))
    ensures outcome == Schedule(old(events[..]), tasks, now, tz)
  {
    var freePeriods := DetermineFreePeriods(events, now);
    var alreadyScheduledTaskIds := FindAlreadyScheduledTaskIds(events[..]);
    if alreadyScheduledTaskIds.None? {
      return None;
    }
    var unscheduledTasks := Unscheduled(tasks, alreadyScheduledTaskIds.value);
    var appropriatePeriods := Appropriate(freePeriods, tz);
    var calls := PairInOrder(appropriatePeriods, unscheduledTasks);
    return Some(calls);
  }

  /** The calls made, or none when the call throws. */
  function CallsMade(outcome: Option<seq<Call>>): seq<Call>
  {
    if outcome.Some? then outcome.value else []
  }

  /** Some event of `a` throws exactly when some event of a reordering of `a` does. */
  lemma SomeThrowsReordered(a: seq<Event>, b: seq<Event>)
    requires multiset(a) == multiset(b)
    ensures (exists i :: 0 <= i < |a| && Throws(a[i])) <==> (exists j :: 0 <= j < |b| && Throws(b[j]))
  {
    if exists i :: 0 <= i < |a| && Throws(a[i]) {
      var i :| 0 <= i < |a| && Throws(a[i]);
      SameMembers(a, b, a[i]);
      var j :| 0 <= j < |b| && b[j] == a[i];
    }
    if exists j :: 0 <= j < |b| && Throws(b[j]) {
      var j :| 0 <= j < |b| && Throws(b[j]);
      SameMembers(a, b, b[j]);
      var i :| 0 <= i < |a| && a[i] == b[j];
    }
  }

  /** The call throws exactly when some event's description holds the marker, and no
      occurrence of it is followed by a character on its line; sorting first does not
      change that. */
  lemma ThrowsExactly(events: seq<Event>, tasks: seq<Task>, now: Instant, tz: int)
    ensures Schedule(events, tasks, now, tz).None? <==> exists i :: 0 <= i < |events| && Throws(events[i])
  {
    var sorted := SortByStart(events);
    FindThrowsExactly(sorted);
    SortPermutes(events);
    SomeThrowsReordered(events, sorted);
  }

  /** Either every waiting task gets a period or every usable period gets a task: the
      number of calls is the smaller of the two counts, and the k-th call pairs the k-th
      usable period with the k-th waiting task. */
  lemma CallsPairInOrder(events: seq<Event>, tasks: seq<Task>, now: Instant, tz: int)
    requires Schedule(events, tasks, now, tz).Some?
    ensures var calls := Schedule(events, tasks, now, tz).value;
            var ids := FindAlreadyScheduledTaskIds(SortByStart(events)).value;
            var periods, waiting := Appropriate(FreePeriods(events, now), tz), Unscheduled(tasks, ids);
            |calls| == Min(|periods|, |waiting|) &&
            forall k :: 0 <= k < |calls| ==> calls[k].period == periods[k] && calls[k].task == waiting[k]
  {
  }

  /** The tasks handed out are taken from `tasks` in their order, none twice. */
  lemma {:induction false} TasksInOrder(events: seq<Event>, tasks: seq<Task>, now: Instant, tz: int)
    requires Schedule(events, tasks, now, tz).Some?
    ensures var calls := Schedule(events, tasks, now, tz).value;
            IsSubsequence(seq(|calls|, k requires 0 <= k < |calls| => calls[k].task), tasks)
  {
    var calls := Schedule(events, tasks, now, tz).value;
    var ids := FindAlreadyScheduledTaskIds(SortByStart(events)).value;
    var waiting := Unscheduled(tasks, ids);
    FilterIsSubsequence(tasks, (t: Task) => t.id !in ids);
    SubsequencePrefix(waiting, tasks, |calls|);
    assert seq(|calls|, k requires 0 <= k < |calls| => calls[k].task) == waiting[..|calls|];
  }

  /** Every period handed out is one of the free periods and passes `appropriateFreePeriods`. */
  lemma CallPeriodsAreUsable(events: seq<Event>, tasks: seq<Task>, now: Instant, tz: int, k: nat)
    requires Schedule(events, tasks, now, tz).Some? && k < |Schedule(events, tasks, now, tz).value|
    ensures var p := Schedule(events, tasks, now, tz).value[k].period;
            p in FreePeriods(events, now) && AppropriateFreePeriod(p, tz)
  {
  }

  /** No double booking: a task whose id is read back from some event's description gets no
      call. */
  lemma NoCallForScheduledTask(events: seq<Event>, tasks: seq<Task>, now: Instant, tz: int, i: nat, k: nat)
    requires i < |events| && Tagged(events[i])
    requires Schedule(events, tasks, now, tz).Some? && k < |Schedule(events, tasks, now, tz).value|
    ensures ExtractId(events[i].description.value) != Some(Schedule(events, tasks, now, tz).value[k].task.id)
  {
    var sorted := SortByStart(events);
    var ids := FindAlreadyScheduledTaskIds(sorted).value;
    SortPermutes(events);
    SameMembers(events, sorted, events[i]);
    var j :| 0 <= j < |sorted| && sorted[j] == events[i];
    FoundIdsInclude(sorted, j);
    var task := Unscheduled(tasks, ids)[k];
    assert task.id !in ids;
  }

  /** A task whose event `stubTaskEvent` already wrote is not scheduled again, whenever its
      id round-trips through the description. */
  lemma NoCallForStubbedTask(events: seq<Event>, tasks: seq<Task>, now: Instant, tz: int,
                             i: nat, startTime: Instant, duration: int, task: Task, k: nat)
    requires RoundTrippableId(task.id) && !Contains(task.description, ID_PREFIX)
    requires i < |events| && events[i].description == Some(StubTaskEvent(startTime, duration, task).description)
    requires Schedule(events, tasks, now, tz).Some? && k < |Schedule(events, tasks, now, tz).value|
    ensures Schedule(events, tasks, now, tz).value[k].task.id != task.id
  {
    StubEventIsTagged(startTime, duration, task, events[i]);
    StubIdRoundTrip(startTime, duration, task);
    NoCallForScheduledTask(events, tasks, now, tz, i, k);
  }

  /** Without tasks no call is made (tests/library.spec.js, "Calls 0 funcs without tasks"). */
  lemma NoTasksNoCalls(events: seq<Event>, now: Instant, tz: int)
    ensures CallsMade(Schedule(events, [], now, tz)) == []
  {
  }

  /** Without usable periods no call is made, whatever the tasks. */
  lemma NoUsablePeriodNoCalls(events: seq<Event>, tasks: seq<Task>, now: Instant, tz: int)
    requires forall k :: 0 <= k < |FreePeriods(events, now)| ==> !AppropriateFreePeriod(FreePeriods(events, now)[k], tz)
    ensures CallsMade(Schedule(events, tasks, now, tz)) == []
  {
  }

  // The tests of tests/library.spec.js, lines 118-146: an event on Monday 2023-10-23
  // 09:00-10:00 (zone offset 0), read when the clock is past it.

  const MON_0900: Instant := 1698051600000
  const MON_1000: Instant := MON_0900 + MS_PER_HOUR

  function TaggedMeeting(id: string): Event
  {
    Event(MON_0900, MON_1000, Some(ID_PREFIX + id))
  }

  /** "Calls 0 funcs if already scheduled": the only task's id is on the event. */
  lemma AlreadyScheduledExample(now: Instant, tz: int)
    ensures Schedule([TaggedMeeting("12345")], [Task("12345", "", "")], now, tz) == Some([])
  {
    SortOfSorted([TaggedMeeting("12345")]);
    ReadBackShortId(TaggedMeeting("12345"), "12345");
    assert Unscheduled([Task("12345", "", "")], ["12345"]) == [];
  }

  /** "Calls func once": the event carries another task's id; the one usable period runs
      from the end of the event (where the cursor is left) to the horizon. */
  lemma CallsOnceExample(now: Instant)
    requires now >= MON_1000
    ensures Schedule([TaggedMeeting("123456")], [Task("654321", "", "")], now, 0)
            == Some([Call(Period(MON_1000, now + HORIZON_MS), Task("654321", "", ""))])
  {
    var task := Task("654321", "", "");
    var p := Period(MON_1000, now + HORIZON_MS);
    OneMeetingFreePeriods(now);
    MondayPeriodUsable(now);
    OneMeetingIds();
    assert Unscheduled([task], ["123456"]) == [task];
    assert Pairs([p], [task]) == [Call(p, task)];
  }

  /** After the meeting, the cursor is left at its end and the trailing period follows. */
  lemma OneMeetingFreePeriods(now: Instant)
    requires now >= MON_1000
    ensures FreePeriods([TaggedMeeting("123456")], now) == [Period(MON_1000, now + HORIZON_MS)]
  {
    var events := [TaggedMeeting("123456")];
    SortOfSorted(events);
    assert events[1..] == [];
    assert Scan(events, now, now + HORIZON_MS) == Scan([], MON_1000, now + HORIZON_MS);
  }

  lemma MondayPeriodUsable(now: Instant)
    requires now >= MON_1000
    ensures Appropriate([Period(MON_1000, now + HORIZON_MS)], 0) == [Period(MON_1000, now + HORIZON_MS)]
  {
    LocalCalendarOf(MON_1000, 0, 19653, 10, 0);
    assert AppropriateFreePeriod(Period(MON_1000, now + HORIZON_MS), 0);
  }

  lemma OneMeetingIds()
    ensures FindAlreadyScheduledTaskIds(SortByStart([TaggedMeeting("123456")])) == Some(["123456"])
  {
    SortOfSorted([TaggedMeeting("123456")]);
    ReadBackShortId(TaggedMeeting("123456"), "123456");
  }
}
