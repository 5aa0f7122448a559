/**
 The lines a function owns: its range without the interiors of its excluded ranges
 (crates/analysis-crap/src/lib.rs, `coverage_owned_segments` and `owned_line_counts`).
 */
module OwnedSegments {
  import opened Basics
  import opened Wrappers
  import opened Sorting

  type Line = x: int | 0 <= x <= U32_MAX

  datatype Range = Range(start: Line, end: Line)

  datatype FunctionRecord = FunctionRecord(
    file: string, startLine: Line, endLine: Line, excluded: seq<Range>,
    complexity: nat, coverage: Option<real>, crap: Option<real>)

  type LineCoverage = map<Line, nat>

  function SaturatingAdd1(x: Line): Line { if x == U32_MAX then x else x + 1 }
  function SaturatingSub1(x: Line): Line { if x == 0 then x else x - 1 }

  predicate ValidRange(f: FunctionRecord) {
    f.startLine != 0 && f.startLine <= f.endLine
  }

  /** The reference: a line in range, strictly inside no excluded range. */
  ghost predicate Owns(f: FunctionRecord, line: int) {
    && ValidRange(f) && f.startLine <= line <= f.endLine
    && forall r :: r in f.excluded ==> !(r.start < line < r.end)
  }

  ghost predicate InRanges(ranges: seq<Range>, line: int) {
    exists r :: r in ranges && r.start <= line <= r.end
  }

  /** Nonempty ranges in ascending order with at least one line between neighbours. */
  ghost predicate Separated(ranges: seq<Range>) {
    && (forall r :: r in ranges ==> r.start <= r.end)
    && forall i, j :: 0 <= i < j < |ranges| ==> ranges[i].end + 1 < ranges[j].start
  }

  ghost predicate IsOwned(f: FunctionRecord, segments: seq<Range>) {
    Separated(segments) && forall line :: InRanges(segments, line) <==> Owns(f, line)
  }

  // ----- excluded interiors -----

  function Min(a: Line, b: Line): Line { if a < b then a else b }

  function Interior(f: FunctionRecord, r: Range): Option<Range> {
    var start := Max(SaturatingAdd1(r.start), f.startLine);
    var end := Min(SaturatingSub1(r.end), f.endLine);
    if start <= end then Some(Range(start, end)) else None
  }

  function Interiors(f: FunctionRecord, excluded: seq<Range>): seq<Range> {
    if excluded == [] then
      []
    else
      var rest := Interiors(f, excluded[1..]);
      match Interior(f, excluded[0])
      case Some(r) => [r] + rest
      case None => rest
  }

  /** Clamped and saturated interiors hold exactly the lines strictly inside an excluded range. */
  lemma {:induction false} InteriorsLines(f: FunctionRecord, excluded: seq<Range>, line: int)
    requires ValidRange(f) && f.startLine <= line <= f.endLine
    ensures InRanges(Interiors(f, excluded), line) <==> exists r :: r in excluded && r.start < line < r.end
  {
    if excluded != [] {
      InteriorsLines(f, excluded[1..], line);
      var rest := Interiors(f, excluded[1..]);
      assert excluded == [excluded[0]] + excluded[1..];
      match Interior(f, excluded[0])
      case Some(r) => {
        RangesCons(r, rest, line);
      }
      case None =>
    }
  }

  lemma RangesCons(r: Range, rest: seq<Range>, line: int)
    ensures InRanges([r] + rest, line) <==> InRanges(rest, line) || r.start <= line <= r.end
  {
    if InRanges(rest, line) {
      var q :| q in rest && q.start <= line <= q.end;
      assert q in [r] + rest;
    }
    assert r in [r] + rest;
  }

  lemma RangesAppend(ranges: seq<Range>, r: Range, line: int)
    ensures InRanges(ranges + [r], line) <==> InRanges(ranges, line) || r.start <= line <= r.end
  {
    if InRanges(ranges, line) {
      var q :| q in ranges && q.start <= line <= q.end;
      assert q in ranges + [r];
    }
    assert r in ranges + [r];
  }

  lemma RangesBelow(ranges: seq<Range>, bound: int, line: int)
    requires forall r :: r in ranges ==> r.end < bound
    ensures InRanges(ranges, line) ==> line < bound
  {
  }

  lemma PrefixBelow(ranges: seq<Range>, k: nat, bound: int, line: int)
    requires k <= |ranges| && forall i :: 0 <= i < k ==> ranges[i].end < bound
    ensures InRanges(ranges[..k], line) ==> line < bound
  {
  }

  /** Interiors lie in the function's range and below the largest line number. */
  lemma {:induction false} InteriorsBounded(f: FunctionRecord, excluded: seq<Range>)
    ensures forall r :: r in Interiors(f, excluded) ==>
      f.startLine <= r.start <= r.end <= f.endLine && r.end < U32_MAX
  {
    if excluded != [] {
      InteriorsBounded(f, excluded[1..]);
    }
  }

  predicate RangeLeq(a: Range, b: Range) {
    LexLeq([a.start, a.end], [b.start, b.end])
  }

  lemma RangeOrder()
    ensures TotalPreorder(RangeLeq)
  {
    KeyOrder((r: Range) => [r.start, r.end], RangeLeq);
  }

  // ----- the complement -----

  /** Below the cursor, the segments hold exactly the lines outside the first `k` interiors. */
  ghost predicate ComplementBelow(f: FunctionRecord, interiors: seq<Range>, k: nat, cursor: int, segments: seq<Range>)
    requires k <= |interiors|
  {
    && f.startLine <= cursor
    && (forall line :: InRanges(segments, line) <==>
          f.startLine <= line < cursor && line <= f.endLine && !InRanges(interiors[..k], line))
    && (forall i :: 0 <= i < k ==> interiors[i].end < cursor)
    && (forall s, j :: s in segments && k <= j < |interiors| ==> s.end < interiors[j].start)
    && Separated(segments) && (forall s :: s in segments ==> s.end + 1 < cursor)
  }

  lemma SkipInterior(f: FunctionRecord, interiors: seq<Range>, k: nat, cursor: int, segments: seq<Range>)
    requires k < |interiors| && ComplementBelow(f, interiors, k, cursor, segments)
    requires interiors[k].end < cursor && f.startLine <= interiors[k].start && interiors[k].end <= f.endLine
    ensures ComplementBelow(f, interiors, k + 1, cursor, segments)
  {
    assert interiors[..k + 1] == interiors[..k] + [interiors[k]];
    forall line
      ensures InRanges(segments, line) <==>
        f.startLine <= line < cursor && line <= f.endLine && !InRanges(interiors[..k + 1], line)
    {
      RangesAppend(interiors[..k], interiors[k], line);
      RangesBelow(segments, interiors[k].start, line);
    }
  }

  lemma PassInterior(f: FunctionRecord, interiors: seq<Range>, k: nat, cursor: Line, segments: seq<Range>)
    requires k < |interiors| && ComplementBelow(f, interiors, k, cursor, segments)
    requires SortedBy(interiors, RangeLeq)
    requires cursor <= interiors[k].end
    requires f.startLine <= interiors[k].start <= interiors[k].end <= f.endLine
    requires 0 <= cursor && interiors[k].end < U32_MAX
    ensures ComplementBelow(f, interiors, k + 1, CursorAfter(cursor, interiors[k]),
                            SegmentsAfter(cursor, interiors[k], segments))
  {
    var next := interiors[k];
    var segments' := if cursor < next.start then segments + [Range(cursor, next.start - 1)] else segments;
    assert interiors[..k + 1] == interiors[..k] + [next];
    forall line
      ensures InRanges(segments', line) <==>
        f.startLine <= line < next.end + 1 && line <= f.endLine && !InRanges(interiors[..k + 1], line)
    {
      RangesAppend(interiors[..k], next, line);
      if cursor < next.start {
        RangesAppend(segments, Range(cursor, next.start - 1), line);
      }
      RangesBelow(segments, next.start, line);
      PrefixBelow(interiors, k, cursor, line);
    }
    forall j | k + 1 <= j < |interiors|
      ensures next.start <= interiors[j].start
    {
      assert RangeLeq(interiors[k], interiors[j]);
    }
  }

  ghost function CursorAfter(cursor: Line, interior: Range): Line {
    if interior.end < cursor then cursor else Max(cursor, SaturatingAdd1(interior.end))
  }

  ghost function SegmentsAfter(cursor: Line, interior: Range, segments: seq<Range>): seq<Range> {
    if cursor < interior.start && cursor <= interior.end then segments + [Range(cursor, interior.start - 1)] else segments
  }

  /** Separated ranges holding exactly the function's lines outside the interiors. */
  ghost predicate Complements(f: FunctionRecord, interiors: seq<Range>, segments: seq<Range>) {
    && Separated(segments)
    && forall line :: InRanges(segments, line) <==> f.startLine <= line <= f.endLine && !InRanges(interiors, line)
  }

  lemma NothingBelowStart(f: FunctionRecord, interiors: seq<Range>)
    requires forall r :: r in interiors ==> f.startLine <= r.start
    ensures ComplementBelow(f, interiors, 0, f.startLine, [])
  {
  }

  /** The loop over the interiors as a recursion. */
  ghost function Scan(f: FunctionRecord, interiors: seq<Range>, k: nat, cursor: Line, segments: seq<Range>): seq<Range>
    requires k <= |interiors|
    decreases |interiors| - k
  {
    if k < |interiors| && cursor <= f.endLine then
      Scan(f, interiors, k + 1, CursorAfter(cursor, interiors[k]), SegmentsAfter(cursor, interiors[k], segments))
    else if cursor <= f.endLine then
      segments + [Range(cursor, f.endLine)]
    else
      segments
  }

  /** One round of the loop over the sorted interiors. */
  lemma InteriorStep(f: FunctionRecord, interiors: seq<Range>, k: nat, cursor: Line, segments: seq<Range>)
    requires k < |interiors| && ComplementBelow(f, interiors, k, cursor, segments) && SortedBy(interiors, RangeLeq)
    requires forall r :: r in interiors ==> f.startLine <= r.start <= r.end <= f.endLine && r.end < U32_MAX
    ensures ComplementBelow(f, interiors, k + 1, CursorAfter(cursor, interiors[k]),
                            SegmentsAfter(cursor, interiors[k], segments))
  {
    assert interiors[k] in interiors;
    if interiors[k].end < cursor {
      SkipInterior(f, interiors, k, cursor, segments);
    } else {
      PassInterior(f, interiors, k, cursor, segments);
    }
  }

  lemma {:induction false} ScanComplements(f: FunctionRecord, interiors: seq<Range>, k: nat, cursor: Line, segments: seq<Range>)
    requires k <= |interiors| && ComplementBelow(f, interiors, k, cursor, segments) && SortedBy(interiors, RangeLeq)
    requires forall r :: r in interiors ==> f.startLine <= r.start <= r.end <= f.endLine && r.end < U32_MAX
    ensures Complements(f, interiors, Scan(f, interiors, k, cursor, segments))
    decreases |interiors| - k
  {
    if k < |interiors| && cursor <= f.endLine {
      var next, more := CursorAfter(cursor, interiors[k]), SegmentsAfter(cursor, interiors[k], segments);
      InteriorStep(f, interiors, k, cursor, segments);
      assert Scan(f, interiors, k, cursor, segments) == Scan(f, interiors, k + 1, next, more);
      ScanComplements(f, interiors, k + 1, next, more);
    } else if cursor <= f.endLine {
      AppendRemaining(f, interiors, cursor, segments);
    } else {
      StopEarly(f, interiors, k, cursor, segments);
    }
  }

  method SegmentsOutsideExclusions(f: FunctionRecord, interiors: seq<Range>) returns (segments: seq<Range>)
    requires ValidRange(f) && SortedBy(interiors, RangeLeq)
    requires forall r :: r in interiors ==> f.startLine <= r.start <= r.end <= f.endLine && r.end < U32_MAX
    ensures Complements(f, interiors, segments)
  {
    segments := ScanExclusions(f, interiors);
    NothingBelowStart(f, interiors);
    ScanComplements(f, interiors, 0, f.startLine, []);
  }

  method ScanExclusions(f: FunctionRecord, interiors: seq<Range>) returns (segments: seq<Range>)
    requires forall r :: r in interiors ==> f.startLine <= r.start
    ensures segments == Scan(f, interiors, 0, f.startLine, [])
  {
    segments := [];
    var cursor: Line := f.startLine;
    var k := 0;
    while k < |interiors| && cursor <= f.endLine
      invariant k <= |interiors|
      invariant Scan(f, interiors, k, cursor, segments) == Scan(f, interiors, 0, f.startLine, [])
    {
      var Range(start, end) := interiors[k];
      k := k + 1;
      if end < cursor {
        continue;
      }
      if cursor < start {
        segments := segments + [Range(cursor, start - 1)];
      }
      cursor := Max(cursor, SaturatingAdd1(end));
    }
    if cursor <= f.endLine {
      segments := segments + [Range(cursor, f.endLine)];
    }
  }

  /** Interiors not reached once the cursor has passed the end of the function change nothing. */
  lemma StopEarly(f: FunctionRecord, interiors: seq<Range>, k: nat, cursor: int, segments: seq<Range>)
    requires k <= |interiors| && ComplementBelow(f, interiors, k, cursor, segments) && cursor > f.endLine
    ensures Complements(f, interiors, segments)
  {
    forall line
      ensures InRanges(segments, line) <==> f.startLine <= line <= f.endLine && !InRanges(interiors, line)
    {
      if InRanges(interiors[..k], line) {
        var r :| r in interiors[..k] && r.start <= line <= r.end;
        assert r in interiors;
      }
      if InRanges(interiors, line) {
        var r :| r in interiors && r.start <= line <= r.end;
        var j :| 0 <= j < |interiors| && interiors[j] == r;
        if j < k {
          assert interiors[..k][j] == r;
        } else {
          RangesBelow(segments, interiors[j].start, line);
        }
      }
    }
  }

  lemma AppendRemaining(f: FunctionRecord, interiors: seq<Range>, cursor: Line, segments: seq<Range>)
    requires ComplementBelow(f, interiors, |interiors|, cursor, segments) && cursor <= f.endLine
    ensures Complements(f, interiors, segments + [Range(cursor, f.endLine)])
  {
    assert interiors[..|interiors|] == interiors;
    forall line
      ensures InRanges(segments + [Range(cursor, f.endLine)], line) <==>
        f.startLine <= line <= f.endLine && !InRanges(interiors, line)
    {
      RangesAppend(segments, Range(cursor, f.endLine), line);
      if InRanges(interiors, line) {
        var r :| r in interiors && r.start <= line <= r.end;
        var i :| 0 <= i < |interiors| && interiors[i] == r;
        assert line < cursor;
      }
    }
  }

  /** The owned segments are separated and hold exactly the owned lines; nothing wraps at the u32 extremes. */
  method CoverageOwnedSegments(f: FunctionRecord) returns (segments: seq<Range>)
    ensures IsOwned(f, segments)
  {
    if !ValidRange(f) {
      return [];
    }
    var found := Interiors(f, f.excluded);
    var interiors := Sort(found, RangeLeq);
    RangeOrder();
    SortCorrect(found, RangeLeq);
    InteriorsBounded(f, f.excluded);
    segments := SegmentsOutsideExclusions(f, interiors);
    forall line
      ensures InRanges(segments, line) <==> Owns(f, line)
    {
      if f.startLine <= line <= f.endLine {
        InteriorsLines(f, f.excluded, line);
        assert InRanges(interiors, line) <==> InRanges(found, line);
      }
    }
  }

  // ----- counting owned executable lines -----

  ghost function OwnedLines(f: FunctionRecord, lines: LineCoverage): set<Line> {
    set line | line in lines && Owns(f, line)
  }

  ghost function CoveredLines(f: FunctionRecord, lines: LineCoverage): set<Line> {
    set line | line in lines && Owns(f, line) && lines[line] > 0
  }

  ghost function OwnedAmong(f: FunctionRecord, keys: seq<Line>): set<Line> {
    set line | line in keys && Owns(f, line)
  }

  ghost function CoveredAmong(f: FunctionRecord, lines: LineCoverage, keys: seq<Line>): set<Line> {
    set line | line in keys && line in lines && Owns(f, line) && lines[line] > 0
  }

  lemma AmongStep(f: FunctionRecord, lines: LineCoverage, keys: seq<Line>, line: Line)
    requires line in lines && line !in keys
    ensures |OwnedAmong(f, keys + [line])| == |OwnedAmong(f, keys)| + if Owns(f, line) then 1 else 0
    ensures |CoveredAmong(f, lines, keys + [line])|
         == |CoveredAmong(f, lines, keys)| + if Owns(f, line) && lines[line] > 0 then 1 else 0
  {
    assert OwnedAmong(f, keys + [line]) == OwnedAmong(f, keys) + if Owns(f, line) then {line} else {};
    assert CoveredAmong(f, lines, keys + [line])
        == CoveredAmong(f, lines, keys) + if Owns(f, line) && lines[line] > 0 then {line} else {};
  }

  predicate Excluded(f: FunctionRecord, line: Line) {
    exists r :: r in f.excluded && r.start < line < r.end
  }

  /** The keys of the ordered map, ascending. */
  method SortedLines(lines: LineCoverage) returns (keys: seq<Line>)
    ensures forall line :: line in keys <==> line in lines
    ensures forall i, j :: 0 <= i < j < |keys| ==> keys[i] < keys[j]
  {
    var pending := lines.Keys;
    keys := [];
    while pending != {}
      invariant pending <= lines.Keys
      invariant forall line :: line in lines <==> line in keys || line in pending
      invariant forall line, p :: line in keys && p in pending ==> line < p
      invariant forall i, j :: 0 <= i < j < |keys| ==> keys[i] < keys[j]
      decreases pending
    {
      var least := Least(pending);
      forall i | 0 <= i < |keys|
        ensures keys[i] < least
      {
        assert keys[i] in keys;
      }
      pending := pending - {least};
      keys := keys + [least];
    }
  }

  method Least(s: set<Line>) returns (least: Line)
    requires s != {}
    ensures least in s && forall x :: x in s ==> least <= x
  {
    var rest := s;
    least :| least in s;
    while rest != {}
      invariant rest <= s && least in s && forall x :: x in s - rest ==> least <= x
      decreases rest
    {
      var x :| x in rest;
      assert s - (rest - {x}) == (s - rest) + {x};
      if x < least {
        least := x;
      }
      rest := rest - {x};
    }
    assert s - rest == s;
  }

  /** The fold counts exactly the executable lines of the owned segments, and the covered ones among them. */
  method OwnedLineCounts(f: FunctionRecord, lines: LineCoverage) returns (covered: nat, executable: nat)
    requires ValidRange(f)
    ensures executable == |OwnedLines(f, lines)| && covered == |CoveredLines(f, lines)|
  {
    var keys := SortedLines(lines);
    covered, executable := 0, 0;
    for i := 0 to |keys|
      invariant executable == |OwnedAmong(f, keys[..i])| && covered == |CoveredAmong(f, lines, keys[..i])|
    {
      var line := keys[i];
      assert keys[..i + 1] == keys[..i] + [line];
      AmongStep(f, lines, keys[..i], line);
      if f.startLine <= line <= f.endLine && !Excluded(f, line) {
        covered := covered + if lines[line] > 0 then 1 else 0;
        executable := executable + 1;
      }
    }
    assert keys[..|keys|] == keys;
    assert OwnedAmong(f, keys) == OwnedLines(f, lines) && CoveredAmong(f, lines, keys) == CoveredLines(f, lines);
  }
}
