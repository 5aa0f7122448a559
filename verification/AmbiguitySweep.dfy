/**
 The sweep over executable lines that marks functions sharing a line
 (crates/analysis-crap/src/lib.rs, `mark_ambiguous_segments` and `peer_ambiguous_functions`).
 */
module AmbiguitySweep {
  import opened FiniteSets
  import opened Wrappers
  import opened Sorting
  import opened OwnedSegments

  datatype Segment = Segment(start: Line, end: Line, owner: nat)

  ghost predicate Holds(s: Segment, line: int) {
    s.start <= line <= s.end
  }

  /** Segments are nonempty, and two segments of one owner share no line. */
  ghost predicate DisjointPerOwner(segments: seq<Segment>) {
    && (forall s :: s in segments ==> s.start <= s.end)
    && forall s, t, line :: s in segments && t in segments && s.owner == t.owner && Holds(s, line) && Holds(t, line) ==> s == t
  }

  /** The owners of `line`. */
  ghost function OwnersOf(segments: seq<Segment>, line: int): set<nat> {
    set s | s in segments && Holds(s, line) :: s.owner
  }

  /** An executable line belongs to `i` and to some other function. */
  ghost predicate SharesLine(lines: seq<Line>, segments: seq<Segment>, i: nat) {
    exists line, j :: line in lines && i in OwnersOf(segments, line) && j in OwnersOf(segments, line) && j != i
  }

  predicate StartLeq(a: Segment, b: Segment) {
    LexLeq([a.start, a.end, a.owner], [b.start, b.end, b.owner])
  }

  predicate EndLeq(a: Segment, b: Segment) {
    LexLeq([a.end, a.start, a.owner], [b.end, b.start, b.owner])
  }

  lemma SegmentOrders()
    ensures TotalPreorder(StartLeq) && TotalPreorder(EndLeq)
  {
    KeyOrder((s: Segment) => [s.start, s.end, s.owner], StartLeq);
    KeyOrder((s: Segment) => [s.end, s.start, s.owner], EndLeq);
  }

  // ----- cursors -----

  /** The first `n` segments are those that start at or before `line`. */
  ghost predicate StartedUpTo(segments: seq<Segment>, n: nat, line: int) {
    && n <= |segments|
    && (forall i :: 0 <= i < n ==> segments[i].start <= line)
    && forall i :: n <= i < |segments| ==> segments[i].start > line
  }

  /** The first `n` endings are those before `line`. */
  ghost predicate EndedBefore(endings: seq<Segment>, n: nat, line: int) {
    && n <= |endings|
    && (forall i :: 0 <= i < n ==> endings[i].end < line)
    && forall i :: n <= i < |endings| ==> endings[i].end >= line
  }

  ghost function EndedFrom(endings: seq<Segment>, from: nat, to: nat): set<nat>
    requires from <= to <= |endings|
  {
    set i | from <= i < to :: endings[i].owner
  }

  method ExpireSegments(line: Line, endings: seq<Segment>, nextEnd: nat, active: set<nat>, unmarked: set<nat>)
    returns (nextEnd': nat, active': set<nat>, unmarked': set<nat>)
    requires SortedBy(endings, EndLeq) && nextEnd <= |endings|
    requires forall i :: 0 <= i < nextEnd ==> endings[i].end < line
    ensures nextEnd <= nextEnd' && EndedBefore(endings, nextEnd', line)
    ensures active' == active - EndedFrom(endings, nextEnd, nextEnd')
    ensures unmarked' == unmarked - EndedFrom(endings, nextEnd, nextEnd')
  {
    nextEnd', active', unmarked' := nextEnd, active, unmarked;
    while nextEnd' < |endings| && endings[nextEnd'].end < line
      invariant nextEnd <= nextEnd' <= |endings|
      invariant forall i :: 0 <= i < nextEnd' ==> endings[i].end < line
      invariant active' == active - EndedFrom(endings, nextEnd, nextEnd')
      invariant unmarked' == unmarked - EndedFrom(endings, nextEnd, nextEnd')
    {
      var index := endings[nextEnd'].owner;
      assert EndedFrom(endings, nextEnd, nextEnd' + 1) == EndedFrom(endings, nextEnd, nextEnd') + {index};
      active' := active' - {index};
      unmarked' := unmarked' - {index};
      nextEnd' := nextEnd' + 1;
    }
    forall i | nextEnd' <= i < |endings|
      ensures endings[i].end >= line
    {
      assert i > nextEnd' ==> EndLeq(endings[nextEnd'], endings[i]);
    }
  }

  /** Owners of the segments from position `lo` to `hi` that reach `line`. */
  ghost function StartedFrom(segments: seq<Segment>, lo: nat, hi: nat, line: int): set<nat>
    requires lo <= hi <= |segments|
    decreases hi
  {
    if lo == hi then
      {}
    else
      StartedFrom(segments, lo, hi - 1, line) + if segments[hi - 1].end >= line then {segments[hi - 1].owner} else {}
  }

  lemma {:induction false} StartedMembers(segments: seq<Segment>, lo: nat, hi: nat, line: int)
    requires lo <= hi <= |segments|
    ensures forall i :: i in StartedFrom(segments, lo, hi, line) <==>
      exists k :: lo <= k < hi && segments[k].end >= line && segments[k].owner == i
    decreases hi
  {
    if lo != hi {
      StartedMembers(segments, lo, hi - 1, line);
    }
  }

  method ActivateSegments(line: Line, segments: seq<Segment>, nextStart: nat, ambiguous: set<nat>,
                          active: set<nat>, unmarked: set<nat>)
    returns (nextStart': nat, active': set<nat>, unmarked': set<nat>)
    requires SortedBy(segments, StartLeq) && nextStart <= |segments|
    requires forall i :: 0 <= i < nextStart ==> segments[i].start <= line
    ensures nextStart <= nextStart' && StartedUpTo(segments, nextStart', line)
    ensures active' == active + StartedFrom(segments, nextStart, nextStart', line)
    ensures unmarked' == unmarked + (StartedFrom(segments, nextStart, nextStart', line) - ambiguous)
  {
    nextStart', active', unmarked' := nextStart, active, unmarked;
    while nextStart' < |segments| && segments[nextStart'].start <= line
      invariant nextStart <= nextStart' <= |segments|
      invariant forall i :: 0 <= i < nextStart' ==> segments[i].start <= line
      invariant active' == active + StartedFrom(segments, nextStart, nextStart', line)
      invariant unmarked' == unmarked + (StartedFrom(segments, nextStart, nextStart', line) - ambiguous)
    {
      var Segment(_, end, index) := segments[nextStart'];
      if end >= line {
        active' := active' + {index};
        if index !in ambiguous {
          unmarked' := unmarked' + {index};
        }
      }
      nextStart' := nextStart' + 1;
    }
    forall i | nextStart' <= i < |segments|
      ensures segments[i].start > line
    {
      assert i > nextStart' ==> StartLeq(segments[nextStart'], segments[i]);
    }
  }

  /**
   Moving from executable line `p` to `line` turns the owners of `p` into the owners of `line`.
   An owner may expire through one segment only if none of its segments reaches `line`.
   */
  lemma ActiveStep(segments: seq<Segment>, endings: seq<Segment>, p: int, line: int,
                   ns: nat, ns': nat, ne: nat, ne': nat)
    requires DisjointPerOwner(segments) && multiset(endings) == multiset(segments)
    requires p < line && ns <= ns' && ne <= ne'
    requires StartedUpTo(segments, ns, p) && StartedUpTo(segments, ns', line)
    requires EndedBefore(endings, ne, p) && EndedBefore(endings, ne', line)
    ensures OwnersOf(segments, p) - EndedFrom(endings, ne, ne') + StartedFrom(segments, ns, ns', line)
         == OwnersOf(segments, line)
  {
    var expired, started := EndedFrom(endings, ne, ne'), StartedFrom(segments, ns, ns', line);
    StartedMembers(segments, ns, ns', line);
    forall i | i in OwnersOf(segments, line)
      ensures i in OwnersOf(segments, p) - expired + started
    {
      OwnerStays(segments, endings, p, line, ns, ns', ne, ne', i);
    }
    forall i | i in OwnersOf(segments, p) && i !in expired
      ensures i in OwnersOf(segments, line)
    {
      UnexpiredStays(segments, endings, p, line, ne, ne', i);
    }
    forall i | i in started
      ensures i in OwnersOf(segments, line)
    {
      var k :| ns <= k < ns' && segments[k].end >= line && segments[k].owner == i;
      assert segments[k] in segments && Holds(segments[k], line);
    }
  }

  lemma OwnerStays(segments: seq<Segment>, endings: seq<Segment>, p: int, line: int,
                   ns: nat, ns': nat, ne: nat, ne': nat, i: nat)
    requires DisjointPerOwner(segments) && multiset(endings) == multiset(segments)
    requires p < line && ns <= ns' && ne <= ne'
    requires StartedUpTo(segments, ns, p) && StartedUpTo(segments, ns', line)
    requires EndedBefore(endings, ne, p) && EndedBefore(endings, ne', line)
    requires i in OwnersOf(segments, line)
    ensures i in StartedFrom(segments, ns, ns', line)
         || (i in OwnersOf(segments, p) && i !in EndedFrom(endings, ne, ne'))
  {
    var s :| s in segments && Holds(s, line) && s.owner == i;
    var k :| 0 <= k < |segments| && segments[k] == s;
    StartedMembers(segments, ns, ns', line);
    if s.start <= p {
      assert Holds(s, p);
      forall e | ne <= e < ne'
        ensures endings[e].owner != i
      {
        var t := endings[e];
        assert t in multiset(endings) && t in segments;
        assert Holds(t, t.end) && Holds(s, t.end);
      }
    } else {
      assert ns <= k < ns';
    }
  }

  lemma UnexpiredStays(segments: seq<Segment>, endings: seq<Segment>, p: int, line: int, ne: nat, ne': nat, i: nat)
    requires multiset(endings) == multiset(segments) && p < line && ne <= ne'
    requires EndedBefore(endings, ne, p) && EndedBefore(endings, ne', line)
    requires i in OwnersOf(segments, p) && i !in EndedFrom(endings, ne, ne')
    ensures i in OwnersOf(segments, line)
  {
    var s :| s in segments && Holds(s, p) && s.owner == i;
    assert s in multiset(segments) && s in endings;
    var e :| 0 <= e < |endings| && endings[e] == s;
    assert e >= ne;
    forall x | ne <= x < ne'
      ensures endings[x].owner in EndedFrom(endings, ne, ne')
    {
    }
    assert e >= ne';
    assert Holds(s, line);
  }

  /** The functions marked once the first `n` lines are swept. */
  ghost predicate MarkedUpTo(lines: seq<Line>, n: nat, segments: seq<Segment>, ambiguous: set<nat>)
    requires n <= |lines|
  {
    forall i: nat :: i in ambiguous <==> SharesLine(lines[..n], segments, i)
  }

  lemma MarkStep(lines: seq<Line>, n: nat, segments: seq<Segment>, ambiguous: set<nat>)
    requires n < |lines| && MarkedUpTo(lines, n, segments, ambiguous)
    ensures var active := OwnersOf(segments, lines[n]);
            MarkedUpTo(lines, n + 1, segments, if |active| > 1 then ambiguous + active else ambiguous)
  {
    var active := OwnersOf(segments, lines[n]);
    assert lines[..n + 1] == lines[..n] + [lines[n]];
    forall i: nat
      ensures SharesLine(lines[..n + 1], segments, i) <==>
        SharesLine(lines[..n], segments, i) || (|active| > 1 && i in active)
    {
      if SharesLine(lines[..n], segments, i) {
        var line, j :| line in lines[..n] && i in OwnersOf(segments, line) && j in OwnersOf(segments, line) && j != i;
        assert line in lines[..n + 1];
      }
      if |active| > 1 && i in active {
        OtherElement(active, i);
        var j :| j in active && j != i;
        assert lines[n] in lines[..n + 1];
      }
      if i in active && exists j :: j in active && j != i {
        var j :| j in active && j != i;
        assert |{i, j}| == 2 && {i, j} <= active;
        SubsetSize({i, j}, active);
      }
    }
  }

  lemma OtherElement(s: set<nat>, i: nat)
    requires |s| > 1 && i in s
    ensures exists j :: j in s && j != i
  {
    assert |s - {i}| == |s| - 1;
    var j :| j in s - {i};
  }

  /** A function is marked exactly when one of its lines is also a line of another function. */
  method MarkAmbiguousSegments(lines: seq<Line>, segments: seq<Segment>) returns (ambiguous: set<nat>)
    requires forall i, j :: 0 <= i < j < |lines| ==> lines[i] < lines[j]
    requires SortedBy(segments, StartLeq) && DisjointPerOwner(segments)
    ensures forall i: nat :: i in ambiguous <==> SharesLine(lines, segments, i)
  {
    var endings := Sort(segments, EndLeq);
    SegmentOrders();
    SortCorrect(segments, EndLeq);
    ambiguous := {};
    var active, unmarked, nextStart, nextEnd := {}, {}, 0, 0;
    SweepStart(lines, segments, endings);
    for n := 0 to |lines|
      invariant SweepState(lines, n, segments, endings, nextStart, nextEnd, active, unmarked, ambiguous)
    {
      nextStart, nextEnd, active, unmarked, ambiguous :=
        SweepLine(lines, n, segments, endings, nextStart, nextEnd, active, unmarked, ambiguous);
    }
    SweepEnd(lines, segments, endings, nextStart, nextEnd, active, unmarked, ambiguous);
  }

  /** One executable line: expire, activate, and mark the active functions when there are several. */
  method SweepLine(lines: seq<Line>, n: nat, segments: seq<Segment>, endings: seq<Segment>,
                   start: nat, end: nat, activeBefore: set<nat>, unmarkedBefore: set<nat>, ambiguousBefore: set<nat>)
    returns (nextStart: nat, nextEnd: nat, active: set<nat>, unmarked: set<nat>, ambiguous: set<nat>)
    requires n < |lines| && forall i, j :: 0 <= i < j < |lines| ==> lines[i] < lines[j]
    requires SortedBy(segments, StartLeq) && DisjointPerOwner(segments)
    requires SortedBy(endings, EndLeq) && multiset(endings) == multiset(segments)
    requires SweepState(lines, n, segments, endings, start, end, activeBefore, unmarkedBefore, ambiguousBefore)
    ensures SweepState(lines, n + 1, segments, endings, nextStart, nextEnd, active, unmarked, ambiguous)
  {
    ambiguous := ambiguousBefore;
    CursorsBehind(lines, n, segments, endings, start, end, activeBefore, unmarkedBefore, ambiguous);
    nextEnd, active, unmarked := ExpireSegments(lines[n], endings, end, activeBefore, unmarkedBefore);
    nextStart, active, unmarked := ActivateSegments(lines[n], segments, start, ambiguous, active, unmarked);
    SweepStep(lines, n, segments, endings, start, end, activeBefore, unmarkedBefore, active, unmarked, ambiguous,
              nextStart, nextEnd);
    if |active| > 1 && unmarked != {} {
      ambiguous := ambiguous + unmarked;
      unmarked := {};
    }
  }

  /** Before the next line is swept both cursors are behind it. */
  lemma CursorsBehind(lines: seq<Line>, n: nat, segments: seq<Segment>, endings: seq<Segment>,
                      start: nat, end: nat, active: set<nat>, unmarked: set<nat>, ambiguous: set<nat>)
    requires n < |lines| && forall i, j :: 0 <= i < j < |lines| ==> lines[i] < lines[j]
    requires SweepState(lines, n, segments, endings, start, end, active, unmarked, ambiguous)
    ensures start <= |segments| && forall i :: 0 <= i < start ==> segments[i].start <= lines[n]
    ensures end <= |endings| && forall i :: 0 <= i < end ==> endings[i].end < lines[n]
  {
  }

  ghost function LineBefore(lines: seq<Line>, n: nat): int
    requires n <= |lines|
  {
    if n == 0 then -1 else lines[n - 1]
  }

  /** The loop state after `n` lines: the active set is the owner set of the last line. */
  ghost predicate SweepState(lines: seq<Line>, n: nat, segments: seq<Segment>, endings: seq<Segment>,
                             nextStart: nat, nextEnd: nat, active: set<nat>, unmarked: set<nat>, ambiguous: set<nat>)
    requires n <= |lines|
  {
    var p := LineBefore(lines, n);
    && StartedUpTo(segments, nextStart, p) && EndedBefore(endings, nextEnd, p)
    && active == OwnersOf(segments, p) && unmarked == active - ambiguous
    && MarkedUpTo(lines, n, segments, ambiguous)
  }

  lemma SweepStart(lines: seq<Line>, segments: seq<Segment>, endings: seq<Segment>)
    ensures SweepState(lines, 0, segments, endings, 0, 0, {}, {}, {})
  {
  }

  lemma SweepEnd(lines: seq<Line>, segments: seq<Segment>, endings: seq<Segment>,
                 nextStart: nat, nextEnd: nat, active: set<nat>, unmarked: set<nat>, ambiguous: set<nat>)
    requires SweepState(lines, |lines|, segments, endings, nextStart, nextEnd, active, unmarked, ambiguous)
    ensures forall i: nat :: i in ambiguous <==> SharesLine(lines, segments, i)
  {
    assert lines[..|lines|] == lines;
  }

  lemma SweepStep(lines: seq<Line>, n: nat, segments: seq<Segment>, endings: seq<Segment>, ns: nat, ne: nat,
                  before: set<nat>, unmarkedBefore: set<nat>, active: set<nat>, unmarked: set<nat>,
                  ambiguous: set<nat>, ns': nat, ne': nat)
    requires n < |lines| && forall i, j :: 0 <= i < j < |lines| ==> lines[i] < lines[j]
    requires DisjointPerOwner(segments) && multiset(endings) == multiset(segments)
    requires SweepState(lines, n, segments, endings, ns, ne, before, unmarkedBefore, ambiguous)
    requires ns <= ns' && ne <= ne' && StartedUpTo(segments, ns', lines[n]) && EndedBefore(endings, ne', lines[n])
    requires active == before - EndedFrom(endings, ne, ne') + StartedFrom(segments, ns, ns', lines[n])
    requires unmarked == unmarkedBefore - EndedFrom(endings, ne, ne') + (StartedFrom(segments, ns, ns', lines[n]) - ambiguous)
    ensures var mark := |active| > 1 && unmarked != {};
            SweepState(lines, n + 1, segments, endings, ns', ne', active,
                       if mark then {} else unmarked, if mark then ambiguous + unmarked else ambiguous)
  {
    var p := LineBefore(lines, n);
    ActiveStep(segments, endings, p, lines[n], ns, ns', ne, ne');
    MarkStep(lines, n, segments, ambiguous);
    UnmarkedKept(before, EndedFrom(endings, ne, ne'), StartedFrom(segments, ns, ns', lines[n]), ambiguous);
    MarkedKept(active, ambiguous);
  }

  lemma UnmarkedKept(before: set<nat>, expired: set<nat>, started: set<nat>, ambiguous: set<nat>)
    ensures (before - ambiguous) - expired + (started - ambiguous) == (before - expired + started) - ambiguous
  {
  }

  lemma MarkedKept(active: set<nat>, ambiguous: set<nat>)
    ensures ambiguous + (active - ambiguous) == ambiguous + active
    ensures active - (ambiguous + active) == {}
    ensures active - ambiguous == {} ==> ambiguous + active == ambiguous
  {
  }
}
