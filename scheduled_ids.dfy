/** `findAlreadyScheduledTaskIds` (src/bg/library.js): the ids of the tasks that already
    have an event, read back from the marker that `stubTaskEvent` writes.

    An event counts when it has a description that contains `ID_PREFIX` (line 99). Its id
    is then found as line 100 finds it: the leftmost match of `ID_PREFIX(.+)` (the marker
    followed by the rest of its line, at least one character), split on `ID_PREFIX`, second
    piece. When the marker occurs but is nowhere followed by a character on its line, the
    match is `null` and indexing it throws a `TypeError`; `None` stands for that throw. */
module ScheduledIds {
  import opened Wrappers
  import opened Seqs
  import opened Strings
  import opened Entities
  import opened EventStub
  import opened Time

  /** The event passes the filter of line 99. */
  predicate Tagged(e: Event)
  {
    e.description.Some? && Contains(e.description.value, ID_PREFIX)
  }

  /** The map step of line 100 on one description; `None` where it throws. */
  function ExtractId(description: string): Option<string>
  {
    TextAfter(description, ID_PREFIX)
  }

  /** Lines 99-100: the ids of the tagged events, in event order, or `None` if extracting
      any of them throws. */
  function FindAlreadyScheduledTaskIds(events: seq<Event>): (r: Option<seq<string>>)
    ensures r.Some? ==> |r.value| <= |events|
  {
    if events == [] then Some([])
    else
      var rest := FindAlreadyScheduledTaskIds(events[1..]);
      if !Tagged(events[0]) then rest
      else match ExtractId(events[0].description.value)
        case None => None
        case Some(id) => if rest.None? then None else Some([id] + rest.value)
  }

  /** The event is tagged, but no occurrence of the marker is followed by a character on
      its line. */
  predicate Throws(e: Event)
  {
    Tagged(e) && ExtractId(e.description.value).None?
  }

  /** The call throws exactly when some event's description holds the marker, and no
      occurrence of it is followed by a character on its line. */
  lemma {:induction false} FindThrowsExactly(events: seq<Event>)
    ensures FindAlreadyScheduledTaskIds(events).None? <==> exists i :: 0 <= i < |events| && Throws(events[i])
  {
    if events != [] {
      var rest := events[1..];
      FindThrowsExactly(rest);
      assert forall i :: 1 <= i < |events| ==> events[i] == rest[i - 1];
      if exists i :: 0 <= i < |rest| && Throws(rest[i]) {
        var i :| 0 <= i < |rest| && Throws(rest[i]);
        assert Throws(events[i + 1]);
      }
    }
  }

  /** `ids[k]` is the id read from the description of `tagged[k]`, for every `k`. */
  predicate ReadBackFrom(ids: seq<string>, tagged: seq<Event>)
  {
    |ids| == |tagged| &&
    forall k :: 0 <= k < |ids| ==>
      tagged[k].description.Some? && ExtractId(tagged[k].description.value) == Some(ids[k])
  }

  lemma ReadBackCons(id: string, e: Event, ids: seq<string>, tagged: seq<Event>)
    requires e.description.Some? && ExtractId(e.description.value) == Some(id)
    requires ReadBackFrom(ids, tagged)
    ensures ReadBackFrom([id] + ids, [e] + tagged)
  {
    var es, vs := [e] + tagged, [id] + ids;
    forall k | 0 <= k < |vs|
      ensures es[k].description.Some? && ExtractId(es[k].description.value) == Some(vs[k])
    {
      if k > 0 {
        assert es[k] == tagged[k - 1] && vs[k] == ids[k - 1];
      }
    }
  }

  /** The ids come out in the order of the tagged events, one per tagged event: the k-th id
      is the one read from the k-th event whose description holds the marker. */
  lemma {:induction false} FoundIdsInOrder(events: seq<Event>)
    requires FindAlreadyScheduledTaskIds(events).Some?
    ensures ReadBackFrom(FindAlreadyScheduledTaskIds(events).value, Filter(events, Tagged))
  {
    if events != [] {
      var rest := events[1..];
      FoundIdsInOrder(rest);
      var restIds, restTagged := FindAlreadyScheduledTaskIds(rest).value, Filter(rest, Tagged);
      if Tagged(events[0]) {
        var id := ExtractId(events[0].description.value).value;
        assert FindAlreadyScheduledTaskIds(events).value == [id] + restIds;
        assert Filter(events, Tagged) == [events[0]] + restTagged;
        ReadBackCons(id, events[0], restIds, restTagged);
      } else {
        assert FindAlreadyScheduledTaskIds(events) == FindAlreadyScheduledTaskIds(rest);
        assert Filter(events, Tagged) == restTagged;
      }
    }
  }

  /** Every id recovered from a tagged event is in the result. */
  lemma {:induction false} FoundIdsInclude(events: seq<Event>, i: nat)
    requires i < |events| && Tagged(events[i])
    requires FindAlreadyScheduledTaskIds(events).Some?
    ensures ExtractId(events[i].description.value).Some?
    ensures ExtractId(events[i].description.value).value in FindAlreadyScheduledTaskIds(events).value
  {
    if i > 0 {
      assert events[1..][i - 1] == events[i];
      FoundIdsInclude(events[1..], i - 1);
    }
  }

  /** Every id in the result was recovered from some tagged event. */
  lemma {:induction false} FoundIdsComeFromEvents(events: seq<Event>, id: string)
    requires FindAlreadyScheduledTaskIds(events).Some?
    requires id in FindAlreadyScheduledTaskIds(events).value
    ensures exists i :: 0 <= i < |events| && Tagged(events[i]) && ExtractId(events[i].description.value) == Some(id)
  {
    var rest := events[1..];
    if !(Tagged(events[0]) && ExtractId(events[0].description.value) == Some(id)) {
      FoundIdsComeFromEvents(rest, id);
      var i :| 0 <= i < |rest| && Tagged(rest[i]) && ExtractId(rest[i].description.value) == Some(id);
      assert rest[i] == events[i + 1];
    }
  }

  /** Ids that round-trip through a stub description: non-empty, on one line, free of the
      marker. */
  predicate RoundTrippableId(id: string)
  {
    id != [] && SingleLine(id) && !Contains(id, ID_PREFIX)
  }

  /** The marker occurs in a stub's description at the position where `stubTaskEvent` put
      it and nowhere before, provided the task's own description does not contain it. */
  lemma MarkerFirstAt(d: string, id: string)
    requires !Contains(d, ID_PREFIX)
    ensures forall j: nat :: j < |d| + |ATTRIBUTION| ==> !OccursAt(d + ATTRIBUTION + ID_PREFIX + id, ID_PREFIX, j)
  {
    var desc := d + ATTRIBUTION + ID_PREFIX + id;
    var n := |d| + |ATTRIBUTION|;
    assert ID_PREFIX[10] == '=';
    assert forall k :: 0 <= k < 10 ==> ID_PREFIX[k] != '=';
    assert forall k :: 0 <= k < |ATTRIBUTION| ==> ATTRIBUTION[k] != '=';
    forall j: nat | j < n ensures !OccursAt(desc, ID_PREFIX, j) {
      if j + 10 < |d| {
        assert desc[j..j + 11] == d[j..j + 11];
        assert !OccursAt(d, ID_PREFIX, j);
      } else if j + 10 < n {
        assert desc[j + 10] == ATTRIBUTION[j + 10 - |d|] != '=';
      } else {
        assert desc[j + 10] == ID_PREFIX[j + 10 - n] != '=';
      }
    }
  }

  /** Round trip: the id read back from a stub's description is the task's id, whenever the
      id is non-empty, on one line and free of the marker, and the task's description does
      not contain the marker. */
  lemma StubIdRoundTrip(startTime: Instant, duration: int, task: Task)
    requires RoundTrippableId(task.id)
    requires !Contains(task.description, ID_PREFIX)
    ensures ExtractId(StubTaskEvent(startTime, duration, task).description) == Some(task.id)
  {
    var d, id := task.description, task.id;
    var desc := StubTaskEvent(startTime, duration, task).description;
    assert desc == d + ATTRIBUTION + ID_PREFIX + id;
    MarkerFirstAt(d, id);
    assert desc[|d| + |ATTRIBUTION|..] == ID_PREFIX + id;
    TextAfterFirstOccurrence(desc, ID_PREFIX, |d| + |ATTRIBUTION|, id);
  }

  /** A stub's event counts as already scheduled for its task. */
  lemma StubEventIsTagged(startTime: Instant, duration: int, task: Task, e: Event)
    requires e.description == Some(StubTaskEvent(startTime, duration, task).description)
    ensures Tagged(e)
  {
    var d := StubTaskEvent(startTime, duration, task).description;
    ContainsAt(d, ID_PREFIX, |d| - |task.id| - |ID_PREFIX|);
  }

  // The unit test of lines 98-105 of tests/library.spec.js, and the throwing case.

  /** An id shorter than the marker, alone after it, is read back whole. */
  lemma ReadBackShortId(e: Event, id: string)
    requires e.description == Some(ID_PREFIX + id)
    requires 0 < |id| < |ID_PREFIX| && SingleLine(id)
    ensures FindAlreadyScheduledTaskIds([e]) == Some([id])
  {
    var desc := ID_PREFIX + id;
    ContainsAt(desc, ID_PREFIX, 0);
    assert !Contains(id, ID_PREFIX) by {
      assert IndexOf(id, ID_PREFIX, 0) == None;
    }
    assert desc[0..] == desc;
    TextAfterFirstOccurrence(desc, ID_PREFIX, 0, id);
    assert Tagged(e) && ExtractId(desc) == Some(id);
    assert [e][1..] == [];
    assert FindAlreadyScheduledTaskIds([e][1..]) == Some([]);
    assert [id] + [] == [id];
  }

  /** A first marker with nothing after it on its line does not throw when a later one is
      followed by an id: the match starts at the second marker. */
  lemma SecondMarkerExample()
    ensures FindAlreadyScheduledTaskIds([Event(0, 0, Some(ID_PREFIX + "\n" + ID_PREFIX + "5"))]) == Some(["5"])
  {
    var p := ID_PREFIX;
    var desc := p + "\n" + p + "5";
    var e := Event(0, 0, Some(desc));
    var n := |p|;
    var q := n + 1;
    ContainsAt(desc, p, 0);
    assert desc[q..] == p + "5";
    SplitSuffix(desc, p, q, "5");
    assert desc[q + n] == '5';
    assert FollowedAt(desc, p, q);
    assert desc[n] == '\n';
    assert SingleLine(p);
    forall j: nat | j < q ensures !FollowedAt(desc, p, j) {
      if 0 < j && j + n <= |desc| {
        assert desc[j..j + n][n - j] == desc[n];
        assert desc[j..j + n][n - j] != p[n - j];
      }
    }
    LeftmostFollowedAt(desc, p, q);
    LineEndAtEnd(desc, q + n);
    TextAfterToEnd(desc, p, q);
    assert !Contains("5", p) by {
      assert IndexOf("5", p, 0) == None;
    }
    SecondPieceOfMarkerAndId(p, "5");
    assert Tagged(e) && ExtractId(desc) == Some("5");
    assert [e][1..] == [];
    assert FindAlreadyScheduledTaskIds([e][1..]) == Some([]);
    assert FindAlreadyScheduledTaskIds([e]) == Some(["5"] + []);
    assert ["5"] + [] == ["5"];
  }

  lemma FindIdExample()
    ensures FindAlreadyScheduledTaskIds([Event(0, 0, Some(ID_PREFIX + "1234"))]) == Some(["1234"])
  {
    ReadBackShortId(Event(0, 0, Some(ID_PREFIX + "1234")), "1234");
  }

  /** A description that ends right after the marker makes the call throw. */
  lemma MarkerAtEndThrows()
    ensures FindAlreadyScheduledTaskIds([Event(0, 0, Some("notes " + ID_PREFIX))]) == None
  {
    var desc := "notes " + ID_PREFIX;
    ContainsAt(desc, ID_PREFIX, 6);
    assert forall i :: !FollowedAt(desc, ID_PREFIX, i);
  }
}
