/** `events.sort((a, b) => start(a) - start(b))` in `determineFreePeriods`
    (src/bg/library.js): an in-place, stable sort of the caller's array by start instant.
    The functional `SortByStart` is its specification; the method sorts by insertion. */
module EventSort {
  import opened Time
  import opened Entities
  import opened Seqs

  predicate SortedByStart(s: seq<Event>)
  {
    forall i, j :: 0 <= i < j < |s| ==> s[i].start <= s[j].start
  }

  /** Places `e` after every element that does not start later than it (so after equal
      starts: this is what makes the sort stable). */
  function InsertByStart(s: seq<Event>, e: Event): (r: seq<Event>)
    ensures |r| == |s| + 1
  {
    if s == [] || s[|s| - 1].start <= e.start then s + [e]
    else
      var init := s[..|s| - 1];
      assert s == init + [s[|s| - 1]];
      InsertByStart(init, e) + [s[|s| - 1]]
  }

  function SortByStart(s: seq<Event>): (r: seq<Event>)
    ensures |r| == |s|
    ensures SortedByStart(r)
  {
    if s == [] then []
    else
      assert s == s[..|s| - 1] + [s[|s| - 1]];
      InsertKeepsOrder(SortByStart(s[..|s| - 1]), s[|s| - 1]);
      InsertByStart(SortByStart(s[..|s| - 1]), s[|s| - 1])
  }

  lemma {:induction false} InsertMembers(s: seq<Event>, e: Event)
    ensures forall x :: x in InsertByStart(s, e) <==> x == e || x in s
  {
    if s != [] && s[|s| - 1].start > e.start {
      var init, last := s[..|s| - 1], s[|s| - 1];
      assert s == init + [last];
      InsertMembers(init, e);
    }
  }

  lemma {:induction false} InsertKeepsOrder(s: seq<Event>, e: Event)
    requires SortedByStart(s)
    ensures SortedByStart(InsertByStart(s, e))
  {
    if s != [] && s[|s| - 1].start > e.start {
      var init, last := s[..|s| - 1], s[|s| - 1];
      assert SortedByStart(init);
      InsertKeepsOrder(init, e);
      InsertMembers(init, e);
      var r := InsertByStart(init, e);
      forall i | 0 <= i < |r| ensures r[i].start <= last.start {
        if r[i] != e {
          assert r[i] in init;
          var k :| 0 <= k < |init| && init[k] == r[i];
          assert s[k] == init[k];
        }
      }
    }
  }

  lemma {:induction false} InsertPermutes(s: seq<Event>, e: Event)
    ensures multiset(InsertByStart(s, e)) == multiset(s) + multiset{e}
  {
    if s != [] && s[|s| - 1].start > e.start {
      var init, last := s[..|s| - 1], s[|s| - 1];
      assert s == init + [last];
      InsertPermutes(init, e);
    }
  }

  /** The sorted sequence holds the same events, each as often as the input does. */
  lemma {:induction false} SortPermutes(s: seq<Event>)
    ensures multiset(SortByStart(s)) == multiset(s)
  {
    if s != [] {
      var init, last := s[..|s| - 1], s[|s| - 1];
      assert s == init + [last];
      SortPermutes(init);
      InsertPermutes(SortByStart(init), last);
    }
  }

  function StartsAt(k: Instant): Event -> bool
  {
    (e: Event) => e.start == k
  }

  lemma {:induction false} InsertKeepsTies(s: seq<Event>, e: Event, k: Instant)
    ensures Filter(InsertByStart(s, e), StartsAt(k)) == Filter(s, StartsAt(k)) + Filter([e], StartsAt(k))
  {
    if s == [] || s[|s| - 1].start <= e.start {
      FilterConcat(s, [e], StartsAt(k));
    } else {
      var init, last := s[..|s| - 1], s[|s| - 1];
      assert s == init + [last];
      InsertKeepsTies(init, e, k);
      FilterConcat(InsertByStart(init, e), [last], StartsAt(k));
      FilterConcat(init, [last], StartsAt(k));
      // `last` starts strictly after `e`, so at most one of them starts at `k`.
      assert Filter([e], StartsAt(k)) == [] || Filter([last], StartsAt(k)) == [];
    }
  }

  /** Stability: the events that start at the same instant keep their input order. */
  lemma {:induction false} SortIsStable(s: seq<Event>, k: Instant)
    ensures Filter(SortByStart(s), StartsAt(k)) == Filter(s, StartsAt(k))
  {
    if s != [] {
      var init, last := s[..|s| - 1], s[|s| - 1];
      assert s == init + [last];
      SortIsStable(init, k);
      InsertKeepsTies(SortByStart(init), last, k);
      FilterConcat(init, [last], StartsAt(k));
    }
  }

  /** An array that is already in order is left as it is. */
  lemma {:induction false} SortOfSorted(s: seq<Event>)
    requires SortedByStart(s)
    ensures SortByStart(s) == s
  {
    if s != [] {
      var init, last := s[..|s| - 1], s[|s| - 1];
      assert SortedByStart(init) by {
        forall i, j | 0 <= i < j < |init| ensures init[i].start <= init[j].start {
          assert init[i] == s[i] && init[j] == s[j];
        }
      }
      SortOfSorted(init);
      assert init == [] || init[|init| - 1].start <= last.start;
      assert InsertByStart(init, last) == init + [last];
      assert s == init + [last];
    }
  }

  /** `InsertByStart` puts `e` right after the last element that starts no later than it. */
  lemma {:induction false} InsertionPoint(s: seq<Event>, j: nat, e: Event)
    requires j <= |s|
    requires j == 0 || s[j - 1].start <= e.start
    requires forall k :: j <= k < |s| ==> s[k].start > e.start
    ensures InsertByStart(s, e) == s[..j] + [e] + s[j..]
  {
    if j < |s| {
      var init, last := s[..|s| - 1], s[|s| - 1];
      InsertionPoint(init, j, e);
      assert init[..j] == s[..j];
      assert init[j..] + [last] == s[j..];
    } else {
      assert s[..j] == s && s[j..] == [];
    }
  }

  /** One step of insertion sort: moves `a[i]` left past the events of the sorted prefix
      `a[..i]` that start strictly later. */
  method InsertAt(a: array<Event>, i: nat)
    requires i < a.Length
    modifies a
    ensures a[..i + 1] == InsertByStart(old(a[..i]), old(a[i]))
    ensures a[i + 1..] == old(a[i + 1..])
  {
    var x := a[i];
    ghost var sorted := a[..i];
    var j := i;
    while j > 0 && a[j - 1].start > x.start
      invariant 0 <= j <= i
      invariant forall k :: 0 <= k < j ==> a[k] == sorted[k]
      invariant forall k :: j < k <= i ==> a[k] == sorted[k - 1]
      invariant forall k :: i < k < a.Length ==> a[k] == old(a[k])
      invariant forall k :: j <= k < i ==> sorted[k].start > x.start
    {
      a[j] := a[j - 1];
      j := j - 1;
    }
    a[j] := x;
    InsertionPoint(sorted, j, x);
    assert a[..i + 1] == sorted[..j] + [x] + sorted[j..];
  }

  /** Sorting one more element of the input inserts it into the sorted prefix. */
  lemma SortPrefixStep(input: seq<Event>, i: nat)
    requires i < |input|
    ensures SortByStart(input[..i + 1]) == InsertByStart(SortByStart(input[..i]), input[i])
  {
    var prefix := input[..i + 1];
    assert prefix[..i] == input[..i] && prefix[i] == input[i];
  }

  /** Sorts `a` in place by start, stably. */
  method SortEventsByStart(a: array<Event>)
    modifies a
    ensures a[..] == SortByStart(old(a[..]))
  {
    ghost var input := a[..];
    var i := 0;
    assert a[0..] == input[0..];
    while i < a.Length
      invariant 0 <= i <= a.Length
      invariant a[..i] == SortByStart(input[..i])
      invariant a[i..] == input[i..]
    {
      SortPrefixStep(input, i);
      assert a[i] == a[i..][0] == input[i..][0] == input[i];
      assert a[i + 1..] == a[i..][1..] == input[i..][1..] == input[i + 1..];
      InsertAt(a, i);
      i := i + 1;
    }
    assert input[..a.Length] == input;
  }
}
