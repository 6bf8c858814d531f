/** The string searches the scheduler performs: `String.prototype.match` with a literal
    pattern, the regular expression `p(.+)` and `split(p)`, each as a first-occurrence search. */
module Strings {
  import opened Wrappers

  /** `p` occurs in `s` at index `i`. */
  predicate OccursAt(s: string, p: string, i: nat)
  {
    i + |p| <= |s| && s[i..i + |p|] == p
  }

  /** The first index at or after `from` where `p` occurs. */
  function IndexOf(s: string, p: string, from: nat): (r: Option<nat>)
    ensures r.Some? ==> from <= r.value && OccursAt(s, p, r.value)
    ensures forall j :: from <= j && (r.None? || j < r.value) ==> !OccursAt(s, p, j)
    decreases |s| - from
  {
    if from + |p| > |s| then None
    else if OccursAt(s, p, from) then Some(from)
    else IndexOf(s, p, from + 1)
  }

  predicate Contains(s: string, p: string)
  {
    IndexOf(s, p, 0).Some?
  }

  lemma ContainsAt(s: string, p: string, i: nat)
    requires OccursAt(s, p, i)
    ensures Contains(s, p)
  {
  }

  /** What a regular-expression `.` does not match: the four ECMAScript line terminators. */
  predicate IsLineTerminator(c: char)
  {
    c == '\n' || c == '\r' || c == '\U{2028}' || c == '\U{2029}'
  }

  predicate SingleLine(s: string)
  {
    forall k :: 0 <= k < |s| ==> !IsLineTerminator(s[k])
  }

  /** The end of the line that index `from` is on: the first line terminator at or after
      `from`, or the end of `s`. `LineEndIsFirst` says that no terminator comes before it. */
  function LineEnd(s: string, from: nat): (k: nat)
    requires from <= |s|
    ensures from <= k <= |s|
    ensures k < |s| ==> IsLineTerminator(s[k])
    decreases |s| - from
  {
    if from == |s| || IsLineTerminator(s[from]) then from else LineEnd(s, from + 1)
  }

  /** No line terminator lies between `from` and the end of its line. */
  lemma {:induction false} LineEndIsFirst(s: string, from: nat)
    requires from <= |s|
    ensures forall j :: from <= j < LineEnd(s, from) ==> !IsLineTerminator(s[j])
    decreases |s| - from
  {
    if from < |s| && !IsLineTerminator(s[from]) {
      LineEndIsFirst(s, from + 1);
    }
  }

  /** `p` occurs at `i` and is followed by a character that `.` matches: the pattern
      `p(.+)` can match from `i`. */
  predicate FollowedAt(s: string, p: string, i: nat)
  {
    OccursAt(s, p, i) && i + |p| < |s| && !IsLineTerminator(s[i + |p|])
  }

  /** Where the leftmost match of `p(.+)` at or after `from` begins. */
  function FindFollowed(s: string, p: string, from: nat): (r: Option<nat>)
    ensures r.Some? ==> from <= r.value && FollowedAt(s, p, r.value)
    ensures forall j :: from <= j && (r.None? || j < r.value) ==> !FollowedAt(s, p, j)
    decreases |s| - from
  {
    if from + |p| >= |s| then None
    else if FollowedAt(s, p, from) then Some(from)
    else FindFollowed(s, p, from + 1)
  }

  /** `m.split(p)[1]` for a string `m` that starts with `p`: the text between that first `p`
      and the next occurrence of `p`, or the end of `m`. (Splitting on the empty string cuts
      between characters instead; the scheduler's separator is never empty.) */
  function SecondPiece(m: string, p: string): (piece: string)
    requires p != [] && |p| <= |m|
  {
    match IndexOf(m, p, |p|)
    case None => m[|p|..]
    case Some(k) => m[|p|..k]
  }

  /** What `s.match(`${p}(.+)`)[0].split(p)[1]` evaluates to: the leftmost match of `p`
      followed by the rest of its line (at least one character), split on `p`, second piece.
      `None` where there is no match, so that indexing the `null` result throws.
      `TextAfterSpec` states what it returns. */
  function TextAfter(s: string, p: string): Option<string>
    requires p != []
  {
    match FindFollowed(s, p, 0)
    case None => None
    case Some(i) => Some(PieceOfLine(s, p, i))
  }

  /** The match that begins at `i` (the marker and the rest of its line), split on `p`,
      second piece. */
  function PieceOfLine(s: string, p: string, i: nat): string
    requires p != [] && FollowedAt(s, p, i)
  {
    SecondPiece(s[i..LineEnd(s, i + |p|)], p)
  }

  /** Where the text taken after a marker may stop: at the end of `s`, at a line
      terminator, or where the next marker begins. */
  predicate PieceEnd(s: string, p: string, e: nat)
  {
    e == |s| || (e < |s| && IsLineTerminator(s[e])) || OccursAt(s, p, e)
  }

  /** `v` is what follows the leftmost marker that is followed by a character: that marker
      is at `i`, `v` stands right after it and stops at a place `PieceEnd` allows. For a
      marker without a line terminator in it, that place is the first one: no marker begins
      inside `v`. (A marker that spans a line break may begin inside `v` and run past the
      end of the line, where the match has already stopped.) */
  predicate ReadAt(s: string, p: string, v: string, i: nat)
  {
    FollowedAt(s, p, i) && (forall j: nat :: j < i ==> !FollowedAt(s, p, j))
    && OccursAt(s, p + v, i) && PieceEnd(s, p, i + |p| + |v|)
    && (SingleLine(p) ==> forall j :: i + |p| <= j < i + |p| + |v| ==> !OccursAt(s, p, j))
  }

  /** The text after the marker is missing exactly when no marker is followed by a
      character on its line. Otherwise it is a line without the marker in it that stands
      right after the leftmost marker followed by a character, and it runs up to the end
      of `s`, the end of that line or the next marker, whichever comes first. */
  lemma TextAfterSpec(s: string, p: string)
    requires p != []
    ensures TextAfter(s, p).None? <==> forall i: nat :: !FollowedAt(s, p, i)
    ensures TextAfter(s, p).Some? ==> SingleLine(TextAfter(s, p).value) && !Contains(TextAfter(s, p).value, p)
    ensures TextAfter(s, p).Some? ==> exists i: nat :: ReadAt(s, p, TextAfter(s, p).value, i)
  {
    match FindFollowed(s, p, 0)
    case None =>
    case Some(i) =>
      PieceOfLineSingleLine(s, p, i);
      PieceOfLineReadAt(s, p, i);
  }

  /** The piece of the leftmost match is read at the place that match begins. */
  lemma PieceOfLineReadAt(s: string, p: string, i: nat)
    requires p != [] && FindFollowed(s, p, 0) == Some(i)
    ensures ReadAt(s, p, PieceOfLine(s, p, i), i)
  {
    PieceOfLineFollowsMarker(s, p, i);
    PieceOfLineEnds(s, p, i);
    if SingleLine(p) {
      PieceOfLineFirstStop(s, p, i);
    }
  }

  /** No marker without a line terminator in it begins inside the piece: it would lie
      within the marker's line, where `split` would have cut the piece there. */
  lemma PieceOfLineFirstStop(s: string, p: string, i: nat)
    requires p != [] && FollowedAt(s, p, i) && SingleLine(p)
    ensures forall j :: i + |p| <= j < i + |p| + |PieceOfLine(s, p, i)| ==> !OccursAt(s, p, j)
  {
    var n := |p|;
    var e := LineEnd(s, i + n);
    var m := s[i..e];
    var v := PieceOfLine(s, p, i);
    assert v == SecondPiece(m, p);
    SecondPieceFacts(m, p);
    forall j | i + n <= j < i + n + |v| ensures !OccursAt(s, p, j) {
      if OccursAt(s, p, j) {
        assert j + n <= e by {
          forall k | j <= k < j + n ensures !IsLineTerminator(s[k]) {
            assert s[k] == s[j..j + n][k - j] == p[k - j];
          }
        }
        OccurrenceInSlice(s, p, i, e, j);
      }
    }
  }

  /** The piece stops at the end of the marker's line or at the next marker. */
  lemma PieceOfLineEnds(s: string, p: string, i: nat)
    requires p != [] && FollowedAt(s, p, i)
    ensures PieceEnd(s, p, i + |p| + |PieceOfLine(s, p, i)|)
  {
    var e := LineEnd(s, i + |p|);
    assert e < |s| ==> IsLineTerminator(s[e]);
    SecondPieceStops(s, p, i, e);
  }

  /** The second piece of the text from a marker at `i` up to `e` stops at `e` or where
      the next marker begins. */
  lemma SecondPieceStops(s: string, p: string, i: nat, e: nat)
    requires p != [] && i + |p| <= e <= |s| && OccursAt(s, p, i)
    ensures var stop := i + |p| + |SecondPiece(s[i..e], p)|;
            stop == e || OccursAt(s, p, stop)
  {
    var n := |p|;
    var m := s[i..e];
    SecondPieceFacts(m, p);
    var v := SecondPiece(m, p);
    if n + |v| < |m| {
      SliceOccurrence(s, p, i, e, n + |v|);
    }
  }

  /** The piece lies on the marker's line, so it holds no line terminator. */
  lemma PieceOfLineSingleLine(s: string, p: string, i: nat)
    requires p != [] && FollowedAt(s, p, i)
    ensures SingleLine(PieceOfLine(s, p, i)) && !Contains(PieceOfLine(s, p, i), p)
  {
    var n := |p|;
    var e := LineEnd(s, i + n);
    var m := s[i..e];
    var id := PieceOfLine(s, p, i);
    assert id == SecondPiece(m, p);
    assert !Contains(id, p) && n + |id| <= |m| && m[n..n + |id|] == id by {
      SecondPieceHoldsNoMarker(m, p);
    }
    assert SingleLine(id) by {
      LineEndIsFirst(s, i + n);
      forall k | 0 <= k < |id| ensures !IsLineTerminator(id[k]) {
        assert id[k] == m[n + k] == s[i + n + k];
      }
    }
  }

  /** The marker followed by the piece occurs where the match begins. */
  lemma PieceOfLineFollowsMarker(s: string, p: string, i: nat)
    requires p != [] && FollowedAt(s, p, i)
    ensures OccursAt(s, p + PieceOfLine(s, p, i), i)
  {
    var e := LineEnd(s, i + |p|);
    var v := PieceOfLine(s, p, i);
    assert OccursAt(s, p + v, i) by {
      assert v == SecondPiece(s[i..e], p);
      MarkerThenPiece(s, p, i, e, v);
    }
  }

  /** A text that starts with `p` at `i` and runs to `e` holds `p` and its second piece
      there, one after the other. */
  lemma MarkerThenPiece(s: string, p: string, i: nat, e: nat, v: string)
    requires p != [] && i + |p| <= e <= |s| && OccursAt(s, p, i)
    requires v == SecondPiece(s[i..e], p)
    ensures OccursAt(s, p + v, i)
  {
    var n := |p|;
    var m := s[i..e];
    SecondPieceAt(m, p);
    var id := SecondPiece(m, p);
    var stop := n + |id|;
    SliceOfSlice(s, i, e, n, stop);
    assert s[i + n..i + stop] == id;
    assert s[i..i + stop] == s[i..i + n] + s[i + n..i + stop];
  }

  lemma SliceOfSlice(s: string, a: nat, b: nat, c: nat, d: nat)
    requires a <= b <= |s| && c <= d <= b - a
    ensures s[a..b][c..d] == s[a + c..a + d]
  {
    forall k | 0 <= k < d - c ensures s[a..b][c..d][k] == s[a + c..a + d][k] {
      assert s[a..b][c + k] == s[a + c + k];
    }
  }

  /** The second piece lies right after the leading `p`. */
  lemma SecondPieceAt(m: string, p: string)
    requires p != [] && |p| <= |m|
    ensures |p| + |SecondPiece(m, p)| <= |m| && m[|p|..|p| + |SecondPiece(m, p)|] == SecondPiece(m, p)
  {
  }

  /** The second piece lies right after the leading `p`, holds no `p` of its own and runs
      up to the next `p` or, if there is none, to the end of `m`: no `p` begins inside it,
      even one that runs past its end. */
  lemma SecondPieceFacts(m: string, p: string)
    requires p != [] && |p| <= |m|
    ensures var piece := SecondPiece(m, p);
            |p| + |piece| <= |m| && m[|p|..|p| + |piece|] == piece && !Contains(piece, p)
    ensures var piece := SecondPiece(m, p);
            |p| + |piece| == |m| || OccursAt(m, p, |p| + |piece|)
    ensures var piece := SecondPiece(m, p);
            forall j :: |p| <= j < |p| + |piece| ==> !OccursAt(m, p, j)
  {
    SecondPieceHoldsNoMarker(m, p);
  }

  /** The second piece lies right after the leading `p` and holds no `p` of its own. */
  lemma SecondPieceHoldsNoMarker(m: string, p: string)
    requires p != [] && |p| <= |m|
    ensures var piece := SecondPiece(m, p);
            |p| + |piece| <= |m| && m[|p|..|p| + |piece|] == piece && !Contains(piece, p)
  {
    var n := |p|;
    var later := IndexOf(m, p, n);
    var stop := if later.Some? then later.value else |m|;
    var piece := m[n..stop];
    assert piece == SecondPiece(m, p);
    forall j: nat ensures !OccursAt(piece, p, j) {
      if OccursAt(piece, p, j) {
        SliceOccurrence(m, p, n, stop, j);
      }
    }
  }

  /** An occurrence inside a slice is an occurrence in the whole string. */
  lemma SliceOccurrence(s: string, p: string, a: nat, b: nat, j: nat)
    requires a <= b <= |s| && OccursAt(s[a..b], p, j)
    ensures OccursAt(s, p, a + j) && a + j + |p| <= b
  {
    forall k | 0 <= k < |p| ensures s[a + j + k] == p[k] {
      assert s[a..b][j..j + |p|][k] == s[a..b][j + k];
    }
  }

  /** An occurrence that lies inside a slice is an occurrence in the slice. */
  lemma OccurrenceInSlice(s: string, p: string, a: nat, b: nat, j: nat)
    requires a <= j && j + |p| <= b <= |s| && OccursAt(s, p, j)
    ensures OccursAt(s[a..b], p, j - a)
  {
    forall k | 0 <= k < |p| ensures s[a..b][j - a + k] == p[k] {
      assert s[j..j + |p|][k] == s[j + k];
    }
  }

  /** The leftmost match of `p(.+)` begins at `q` when `p` is followed there and occurs
      nowhere before. */
  lemma FirstFollowedAt(s: string, p: string, q: nat)
    requires FollowedAt(s, p, q)
    requires forall j: nat :: j < q ==> !OccursAt(s, p, j)
    ensures FindFollowed(s, p, 0) == Some(q)
  {
    var r := FindFollowed(s, p, 0);
    assert r.Some? && r.value >= q;
    assert OccursAt(s, p, r.value);
  }

  /** The leftmost match of `p(.+)` begins at `q` when `p` is followed there and nowhere
      before. */
  lemma LeftmostFollowedAt(s: string, p: string, q: nat)
    requires FollowedAt(s, p, q)
    requires forall j: nat :: j < q ==> !FollowedAt(s, p, j)
    ensures FindFollowed(s, p, 0) == Some(q)
  {
    var r := FindFollowed(s, p, 0);
    assert r.Some? && r.value >= q;
  }

  /** The line that starts at `from` runs to the end of `s` when the rest holds no line
      terminator. */
  lemma {:induction false} LineEndAtEnd(s: string, from: nat)
    requires from <= |s|
    requires forall j :: from <= j < |s| ==> !IsLineTerminator(s[j])
    ensures LineEnd(s, from) == |s|
    decreases |s| - from
  {
    if from < |s| {
      LineEndAtEnd(s, from + 1);
    }
  }

  /** `split(p)[1]` of `p + id`, where `id` holds no `p`, is `id`. */
  lemma SecondPieceOfMarkerAndId(p: string, id: string)
    requires p != [] && !Contains(id, p)
    ensures SecondPiece(p + id, p) == id
  {
    var m := p + id;
    var n := |p|;
    assert m[n..|m|] == id;
    forall j: nat | n <= j ensures !OccursAt(m, p, j) {
      if OccursAt(m, p, j) {
        OccurrenceInSlice(m, p, n, |m|, j);
      }
    }
    assert IndexOf(m, p, n).None?;
  }

  /** A suffix `p + id` of `s` starting at `q` splits into `p` at `q` and `id` after it. */
  lemma SplitSuffix(s: string, p: string, q: nat, id: string)
    requires q <= |s| && s[q..] == p + id
    ensures q + |p| <= |s| && OccursAt(s, p, q) && s[q + |p|..] == id
  {
    assert s[q..q + |p|] == (p + id)[..|p|] == p;
    assert s[q + |p|..] == (p + id)[|p|..] == id;
  }

  /** A line that is all of the rest of `s` ends at the end of `s`. */
  lemma LineEndOfSuffix(s: string, from: nat, id: string)
    requires from <= |s| && s[from..] == id && SingleLine(id)
    ensures LineEnd(s, from) == |s|
  {
    assert forall j :: from <= j < |s| ==> s[j] == id[j - from];
    LineEndAtEnd(s, from);
  }

  /** When `p` first occurs at `q` and is followed by `id` up to the end of `s`, and `id` is
      a non-empty line without `p` in it, the text after the marker is exactly `id`. */
  lemma TextAfterFirstOccurrence(s: string, p: string, q: nat, id: string)
    requires q <= |s| && s[q..] == p + id
    requires forall j: nat :: j < q ==> !OccursAt(s, p, j)
    requires id != [] && SingleLine(id) && !Contains(id, p)
    ensures p != [] && TextAfter(s, p) == Some(id)
  {
    assert OccursAt(id, [], 0);
    assert p != [];
    var n := |p|;
    SplitSuffix(s, p, q, id);
    assert s[q + n] == s[q + n..][0] == id[0];
    assert FollowedAt(s, p, q);
    FirstFollowedAt(s, p, q);
    LineEndOfSuffix(s, q + n, id);
    TextAfterToEnd(s, p, q);
    SecondPieceOfMarkerAndId(p, id);
  }

  /** When the leftmost match begins at `q` and its line runs to the end of `s`, the text
      after the marker is the second piece of all of `s` from `q` on. */
  lemma TextAfterToEnd(s: string, p: string, q: nat)
    requires p != [] && FindFollowed(s, p, 0) == Some(q) && LineEnd(s, q + |p|) == |s|
    ensures TextAfter(s, p) == Some(SecondPiece(s[q..], p))
  {
    TextAfterIsPiece(s, p, q);
    PieceOfWholeLine(s, p, q);
  }

  lemma TextAfterIsPiece(s: string, p: string, q: nat)
    requires p != [] && FindFollowed(s, p, 0) == Some(q)
    ensures TextAfter(s, p) == Some(PieceOfLine(s, p, q))
  {
  }

  lemma PieceOfWholeLine(s: string, p: string, q: nat)
    requires p != [] && FollowedAt(s, p, q) && LineEnd(s, q + |p|) == |s|
    ensures PieceOfLine(s, p, q) == SecondPiece(s[q..], p)
  {
    var e := LineEnd(s, q + |p|);
    var m := s[q..e];
    assert PieceOfLine(s, p, q) == SecondPiece(m, p);
    assert m == s[q..];
  }

  /** Why `ReadAt` asks for a marker without a line terminator before it says that no
      marker begins inside the piece: with the marker "a\n", the text "a\nxa\n" gives "xa",
      since the match stops at the second line break, though a marker begins at its "a". */
  lemma MarkerAcrossLineExample()
    ensures TextAfter("a\nxa\n", "a\n") == Some("xa")
    ensures OccursAt("a\nxa\n", "a\n", 3)
  {
    var s, p := "a\nxa\n", "a\n";
    assert FollowedAt(s, p, 0);
    assert FindFollowed(s, p, 0) == Some(0);
    assert LineEnd(s, 2) == 4 by {
      assert LineEnd(s, 3) == 4;
    }
    var m := s[0..4];
    assert m == "a\nxa";
    assert IndexOf(m, p, 3) == None;
    assert IndexOf(m, p, 2) == None;
    assert SecondPiece(m, p) == "xa";
  }
}
