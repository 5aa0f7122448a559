/**
 Mapping executable-line coverage onto functions
 (crates/analysis-crap/src/lib.rs, `peer_ambiguous_functions` and `CoverageMapper`).
 The line map a source file resolves to, and the percentages assigned from region data, are inputs.
 */
module CoverageMapping {
  import opened FiniteSets
  import opened Wrappers
  import opened Sorting
  import opened OwnedSegments
  import opened AmbiguitySweep

  type Functions = seq<FunctionRecord>

  // ----- segments of one file -----

  method CoverageSegments(functions: Functions, indices: seq<nat>) returns (segments: seq<Segment>)
    requires forall k :: 0 <= k < |indices| ==> indices[k] < |functions|
    requires forall a, b :: 0 <= a < b < |indices| ==> indices[a] < indices[b]
    ensures DisjointPerOwner(segments)
    ensures forall i: nat, line :: i in OwnersOf(segments, line) <==> i in indices && Owns(functions[i], line)
  {
    segments := [];
    for k := 0 to |indices|
      invariant DisjointPerOwner(segments)
      invariant forall s :: s in segments ==> s.owner in indices[..k]
      invariant forall i: nat, line :: i in OwnersOf(segments, line) <==> i in indices[..k] && Owns(functions[i], line)
    {
      var ranges := CoverageOwnedSegments(functions[indices[k]]);
      assert indices[..k + 1] == indices[..k] + [indices[k]];
      AddOwnerSegments(segments, ranges, indices[k], functions[indices[k]]);
      segments := segments + Owned(ranges, indices[k]);
    }
    assert indices[..|indices|] == indices;
  }

  function Owned(ranges: seq<Range>, owner: nat): seq<Segment> {
    seq(|ranges|, i requires 0 <= i < |ranges| => Segment(ranges[i].start, ranges[i].end, owner))
  }

  lemma AddOwnerSegments(segments: seq<Segment>, ranges: seq<Range>, owner: nat, f: FunctionRecord)
    requires DisjointPerOwner(segments) && IsOwned(f, ranges)
    requires forall s :: s in segments ==> s.owner != owner
    ensures DisjointPerOwner(segments + Owned(ranges, owner))
    ensures forall i: nat, line :: i in OwnersOf(segments + Owned(ranges, owner), line) <==>
      i in OwnersOf(segments, line) || (i == owner && Owns(f, line))
  {
    var own := Owned(ranges, owner);
    var all := segments + own;
    OwnedDisjoint(ranges, owner);
    forall s | s in all
      ensures s in segments || s in own
    {
    }
    forall i: nat, line
      ensures i in OwnersOf(all, line) <==> i in OwnersOf(segments, line) || (i == owner && Owns(f, line))
    {
      if i in OwnersOf(segments, line) {
        var s :| s in segments && Holds(s, line) && s.owner == i;
        assert s in all;
      }
      if Owns(f, line) {
        assert InRanges(ranges, line);
        var r :| r in ranges && r.start <= line <= r.end;
        var k :| 0 <= k < |ranges| && ranges[k] == r;
        assert own[k] in all && Holds(own[k], line);
      }
      if i in OwnersOf(all, line) && i !in OwnersOf(segments, line) {
        var s :| s in all && Holds(s, line) && s.owner == i;
        var k :| 0 <= k < |own| && own[k] == s;
        assert ranges[k] in ranges;
      }
    }
  }

  lemma OwnedDisjoint(ranges: seq<Range>, owner: nat)
    requires Separated(ranges)
    ensures DisjointPerOwner(Owned(ranges, owner))
    ensures forall s :: s in Owned(ranges, owner) ==> s.owner == owner
  {
    var own := Owned(ranges, owner);
    forall s | s in own
      ensures s.start <= s.end && s.owner == owner
    {
      var k :| 0 <= k < |own| && own[k] == s;
      assert ranges[k] in ranges;
    }
    forall s, t, line | s in own && t in own && Holds(s, line) && Holds(t, line)
      ensures s == t
    {
      var a :| 0 <= a < |own| && own[a] == s;
      var b :| 0 <= b < |own| && own[b] == t;
      assert ranges[a].start <= line <= ranges[a].end && ranges[b].start <= line <= ranges[b].end;
      assert a == b;
    }
  }

  // ----- functions that share a line with another one -----

  /** Some executable line is owned by `i` and by another function of its file. */
  ghost predicate PeerAmbiguous(functions: Functions, resolved: map<string, LineCoverage>, i: nat) {
    && i < |functions| && functions[i].file in resolved
    && exists j: nat, line :: j < |functions| && j != i && functions[j].file == functions[i].file
         && line in resolved[functions[i].file] && Owns(functions[i], line) && Owns(functions[j], line)
  }

  ghost predicate ListsFile(functions: Functions, file: string, n: nat, indices: seq<nat>)
    requires n <= |functions|
  {
    && (forall i: nat :: i in indices <==> i < n && functions[i].file == file)
    && forall a, b :: 0 <= a < b < |indices| ==> indices[a] < indices[b]
  }

  method FunctionIndicesByFile(functions: Functions) returns (byFile: map<string, seq<nat>>)
    ensures forall file :: file in byFile ==> ListsFile(functions, file, |functions|, byFile[file])
    ensures forall i :: 0 <= i < |functions| ==> functions[i].file in byFile
  {
    byFile := map[];
    for n := 0 to |functions|
      invariant forall file :: file in byFile ==> ListsFile(functions, file, n, byFile[file])
      invariant forall i :: 0 <= i < n ==> functions[i].file in byFile
    {
      var file := functions[n].file;
      var known := if file in byFile then byFile[file] else [];
      forall k | 0 <= k < |known|
        ensures known[k] < n
      {
        assert known[k] in known;
      }
      byFile := byFile[file := known + [n]];
    }
  }

  /** `i` shares a line of `lines` with another function of `indices`. */
  ghost predicate SharesWithin(functions: Functions, indices: seq<nat>, lines: LineCoverage, i: nat)
    requires forall k :: 0 <= k < |indices| ==> indices[k] < |functions|
  {
    && i in indices
    && exists line, j :: line in lines && j in indices && j != i && Owns(functions[i], line) && Owns(functions[j], line)
  }

  method AmbiguousFunctionsForFile(functions: Functions, indices: seq<nat>, lines: LineCoverage) returns (ambiguous: set<nat>)
    requires forall k :: 0 <= k < |indices| ==> indices[k] < |functions|
    requires forall a, b :: 0 <= a < b < |indices| ==> indices[a] < indices[b]
    ensures forall i: nat :: i in ambiguous <==> SharesWithin(functions, indices, lines, i)
  {
    var found := CoverageSegments(functions, indices);
    var segments := Sort(found, StartLeq);
    SegmentOrders();
    SortCorrect(found, StartLeq);
    SamePerOwner(found, segments);
    var keys := SortedLines(lines);
    ambiguous := MarkAmbiguousSegments(keys, segments);
    forall i: nat
      ensures SharesLine(keys, segments, i) <==> SharesWithin(functions, indices, lines, i)
    {
      SharesLineWithin(functions, indices, lines, keys, segments, i);
    }
  }

  lemma SamePerOwner(a: seq<Segment>, b: seq<Segment>)
    requires DisjointPerOwner(a) && forall s :: s in a <==> s in b
    ensures DisjointPerOwner(b) && forall line :: OwnersOf(a, line) == OwnersOf(b, line)
  {
  }

  lemma SharesLineWithin(functions: Functions, indices: seq<nat>, lines: LineCoverage, keys: seq<Line>,
                         segments: seq<Segment>, i: nat)
    requires forall k :: 0 <= k < |indices| ==> indices[k] < |functions|
    requires forall line :: line in keys <==> line in lines
    requires forall o: nat, line :: o in OwnersOf(segments, line) <==> o in indices && Owns(functions[o], line)
    ensures SharesLine(keys, segments, i) <==> SharesWithin(functions, indices, lines, i)
  {
    if SharesLine(keys, segments, i) {
      var line, j :| line in keys && i in OwnersOf(segments, line) && j in OwnersOf(segments, line) && j != i;
      assert i in indices && j in indices;
      assert line in lines && Owns(functions[i], line) && Owns(functions[j], line);
    }
    if SharesWithin(functions, indices, lines, i) {
      var line, j :| line in lines && j in indices && j != i && Owns(functions[i], line) && Owns(functions[j], line);
      assert line in keys && i in OwnersOf(segments, line) && j in OwnersOf(segments, line);
    }
  }

  /** The index-and-sweep computation equals the all-pairs definition. */
  method PeerAmbiguousFunctions(functions: Functions, resolved: map<string, LineCoverage>) returns (ambiguous: set<nat>)
    ensures forall i: nat :: i in ambiguous <==> PeerAmbiguous(functions, resolved, i)
  {
    var byFile := FunctionIndicesByFile(functions);
    var pending := byFile.Keys;
    ambiguous := {};
    while pending != {}
      invariant pending <= byFile.Keys
      invariant forall i: nat :: i in ambiguous <==>
        PeerAmbiguous(functions, resolved, i) && functions[i].file !in pending
      decreases pending
    {
      var file :| file in pending;
      pending := pending - {file};
      if file in resolved {
        var indices := byFile[file];
        forall k | 0 <= k < |indices|
          ensures indices[k] < |functions|
        {
          assert indices[k] in indices;
        }
        var more := AmbiguousFunctionsForFile(functions, indices, resolved[file]);
        ambiguous := ambiguous + more;
      }
    }
  }

  // ----- classification of every function -----

  /** What a loaded report says about the functions, with source files already resolved. */
  datatype Report = Report(
    resolved: map<string, LineCoverage>,
    functionCoverage: bool,
    regional: map<nat, real>,
    reported: set<string>)

  datatype Outcome = Unmatched | EmptyRange | Ambiguous | Regional(percent: real) | Zero | ByLines(percent: real)

  function CrapScore(complexity: nat, percent: real): real {
    var c := complexity as real;
    var uncovered := 1.0 - percent / 100.0;
    c * c * (uncovered * uncovered * uncovered) + c
  }

  predicate BoundaryExecutable(f: FunctionRecord, lines: LineCoverage) {
    exists r :: r in f.excluded &&
      ((f.startLine <= r.start <= f.endLine && r.start in lines) || (f.startLine <= r.end <= f.endLine && r.end in lines))
  }

  function Percent(covered: nat, executable: nat): real
    requires executable > 0
  {
    100.0 * (covered as real) / (executable as real)
  }

  ghost function LinePercent(f: FunctionRecord, lines: LineCoverage): Outcome {
    var executable := |OwnedLines(f, lines)|;
    if executable == 0 then EmptyRange else ByLines(Percent(|CoveredLines(f, lines)|, executable))
  }

  /** The outcome of function `i`, with sharing decided by the all-pairs definition. */
  ghost function Classify(report: Report, unreportedAsZero: bool, functions: Functions, i: nat): Outcome
    requires i < |functions|
  {
    var f := functions[i];
    if f.file !in report.resolved then
      if report.functionCoverage && unreportedAsZero then Zero else Unmatched
    else if report.functionCoverage && i in report.regional then
      Regional(report.regional[i])
    else if report.functionCoverage && f.file in report.reported then
      if unreportedAsZero then Zero else EmptyRange
    else if !ValidRange(f) then
      EmptyRange
    else if BoundaryExecutable(f, report.resolved[f.file]) || PeerAmbiguous(functions, report.resolved, i) then
      Ambiguous
    else
      LinePercent(f, report.resolved[f.file])
  }

  function Scored(f: FunctionRecord, outcome: Outcome): FunctionRecord {
    match outcome
    case Regional(p) => f.(coverage := Some(p), crap := Some(CrapScore(f.complexity, p)))
    case ByLines(p) => f.(coverage := Some(p), crap := Some(CrapScore(f.complexity, p)))
    case Zero => f.(coverage := Some(0.0), crap := Some(CrapScore(f.complexity, 0.0)))
    case _ => f.(coverage := None, crap := None)
  }

  datatype Counters = Counters(matched: nat, unmatched: nat, empty: nat, ambiguous: nat)

  function Count(c: Counters, outcome: Outcome): Counters {
    match outcome
    case Unmatched => c.(unmatched := c.unmatched + 1)
    case EmptyRange => c.(empty := c.empty + 1)
    case Ambiguous => c.(ambiguous := c.ambiguous + 1)
    case _ => c.(matched := c.matched + 1)
  }

  ghost function Tally(report: Report, unreportedAsZero: bool, functions: Functions, n: nat): Counters
    requires n <= |functions|
  {
    if n == 0 then
      Counters(0, 0, 0, 0)
    else
      Count(Tally(report, unreportedAsZero, functions, n - 1), Classify(report, unreportedAsZero, functions, n - 1))
  }

  // ----- what the outcomes mean for a record, without the formulas of the program -----

  /** An end of an excluded range inside the function is an executable line. */
  ghost predicate BoundaryHit(f: FunctionRecord, lines: LineCoverage) {
    exists r, line :: r in f.excluded && line in [r.start, r.end] && f.startLine <= line <= f.endLine && line in lines
  }

  /** The score of a record with `percent` coverage: complexity and its square scaled by the cube of what is uncovered. */
  ghost predicate ScoreFits(complexity: nat, percent: real, score: real) {
    var c, missing := complexity as real, 100.0 - percent;
    (score - c) * 1000000.0 == c * c * (missing * missing * missing)
  }

  /** The record got exactly this coverage, and a score that fits it. */
  ghost predicate Covers(after: FunctionRecord, percent: real) {
    after.coverage == Some(percent) && after.crap.Some? && ScoreFits(after.complexity, percent, after.crap.value)
  }

  /** Neither coverage nor score. */
  ghost predicate Uncovered(after: FunctionRecord) {
    after.coverage == None && after.crap == None
  }

  /** Of `all` lines `hit` are covered: coverage and score, as equations. */
  ghost predicate ShareFits(complexity: nat, all: nat, hit: nat, percent: real, score: real) {
    var c, n, unhit := complexity as real, all as real, (all - hit) as real;
    percent * n == 100.0 * hit as real && (score - c) * (n * n * n) == c * c * (unhit * unhit * unhit)
  }

  /** Coverage and score by the owned executable lines. */
  ghost predicate CoversLines(f: FunctionRecord, lines: LineCoverage, after: FunctionRecord) {
    var owned, hit := OwnedLines(f, lines), CoveredLines(f, lines);
    && (forall line :: line in owned <==> line in lines && Owns(f, line))
    && (forall line :: line in hit <==> line in owned && lines[line] > 0)
    && after.coverage.Some? && after.crap.Some?
    && ShareFits(after.complexity, |owned|, |hit|, after.coverage.value, after.crap.value)
    && (after.coverage.value == 100.0 <==> forall line :: line in owned ==> lines[line] > 0)
    && (after.coverage.value == 0.0 <==> forall line :: line in owned ==> lines[line] == 0)
  }

  /** What happened to function `i`, case by case. */
  ghost predicate Mapped(report: Report, unreportedAsZero: bool, functions: Functions, i: nat, after: FunctionRecord)
    requires i < |functions|
  {
    var f := functions[i];
    && after.(coverage := f.coverage, crap := f.crap) == f
    && if f.file !in report.resolved then
         (if report.functionCoverage && unreportedAsZero then Covers(after, 0.0) else Uncovered(after))
       else if report.functionCoverage && i in report.regional then
         Covers(after, report.regional[i])
       else if report.functionCoverage && f.file in report.reported then
         (if unreportedAsZero then Covers(after, 0.0) else Uncovered(after))
       else
         var lines := report.resolved[f.file];
         if (ValidRange(f) && !BoundaryHit(f, lines) && !PeerAmbiguous(functions, report.resolved, i)
             && exists line :: line in lines && Owns(f, line))
         then CoversLines(f, lines, after)
         else Uncovered(after)
  }

  lemma ScoreIsFit(complexity: nat, percent: real)
    ensures ScoreFits(complexity, percent, CrapScore(complexity, percent))
  {
    var c, u, missing := complexity as real, 1.0 - percent / 100.0, 100.0 - percent;
    assert missing == 100.0 * u;
    CubeScaled(u, 100.0);
    assert (c * c * (u * u * u)) * 1000000.0 == c * c * ((u * u * u) * 1000000.0);
  }

  /** The cube of a product is the product of the cubes. */
  lemma CubeScaled(x: real, y: real)
    ensures (x * y) * (x * y) * (x * y) == (x * x * x) * (y * y * y)
  {
    var p := x * y;
    assert p * p == (x * x) * (y * y);
    assert (x * x) * (y * y) * p == ((x * x) * x) * ((y * y) * y);
  }

  lemma PercentMeans(covered: nat, executable: nat)
    requires covered <= executable && executable > 0
    ensures var e := executable as real;
            && Percent(covered, executable) * e == 100.0 * covered as real
            && (1.0 - Percent(covered, executable) / 100.0) * e == (executable - covered) as real
  {
    var e, p := executable as real, Percent(covered, executable);
    assert p * e == 100.0 * covered as real;
    assert (1.0 - p / 100.0) * e == e - p * e / 100.0;
  }

  lemma ScoreByLines(complexity: nat, covered: nat, executable: nat)
    requires covered <= executable && executable > 0
    ensures var c, e, m := complexity as real, executable as real, (executable - covered) as real;
            (CrapScore(complexity, Percent(covered, executable)) - c) * (e * e * e) == c * c * (m * m * m)
  {
    var c, e := complexity as real, executable as real;
    var u := 1.0 - Percent(covered, executable) / 100.0;
    PercentMeans(covered, executable);
    CubeScaled(u, e);
    Regrouped(c * c, u * u * u, e * e * e);
  }

  lemma Regrouped(x: real, y: real, z: real)
    ensures (x * y) * z == x * (y * z)
  {
  }

  lemma PercentExtremes(covered: nat, executable: nat)
    requires covered <= executable && executable > 0
    ensures Percent(covered, executable) == 100.0 <==> covered == executable
    ensures Percent(covered, executable) == 0.0 <==> covered == 0
  {
    PercentMeans(covered, executable);
  }

  lemma CountsMean(complexity: nat, owned: set<Line>, hit: set<Line>)
    requires hit <= owned && owned != {}
    ensures |owned| > 0
    ensures var p := Percent(|hit|, |owned|);
            && ShareFits(complexity, |owned|, |hit|, p, CrapScore(complexity, p))
            && (p == 100.0 <==> forall line :: line in owned ==> line in hit)
            && (p == 0.0 <==> forall line :: line in owned ==> line !in hit)
  {
    SubsetSize(hit, owned);
    PercentMeans(|hit|, |owned|);
    PercentExtremes(|hit|, |owned|);
    ScoreByLines(complexity, |hit|, |owned|);
    AllOrNone(owned, hit);
  }

  lemma LinesCovered(f: FunctionRecord, lines: LineCoverage)
    requires |OwnedLines(f, lines)| > 0
    ensures CoversLines(f, lines, Scored(f, LinePercent(f, lines)))
  {
    CountsMean(f.complexity, OwnedLines(f, lines), CoveredLines(f, lines));
  }

  lemma AllOrNone<T>(all: set<T>, some: set<T>)
    requires some <= all
    ensures |some| == |all| <==> forall x :: x in all ==> x in some
    ensures |some| == 0 <==> forall x :: x in all ==> x !in some
  {
    assert |all - some| == |all| - |some|;
    assert |all - some| == 0 ==> all - some == {};
  }

  /** The classification and the formulas of the program mean what happened to the record. */
  lemma ScoredMeans(report: Report, unreportedAsZero: bool, functions: Functions, i: nat)
    requires i < |functions|
    ensures Mapped(report, unreportedAsZero, functions, i,
                   Scored(functions[i], Classify(report, unreportedAsZero, functions, i)))
  {
    var f := functions[i];
    ScoreIsFit(f.complexity, 0.0);
    if i in report.regional {
      ScoreIsFit(f.complexity, report.regional[i]);
    }
    if f.file in report.resolved {
      var lines := report.resolved[f.file];
      BoundaryMeans(f, lines);
      OwnsSome(f, lines);
      if |OwnedLines(f, lines)| > 0 {
        LinesCovered(f, lines);
      }
    }
  }

  lemma BoundaryMeans(f: FunctionRecord, lines: LineCoverage)
    ensures BoundaryExecutable(f, lines) <==> BoundaryHit(f, lines)
  {
  }

  lemma OwnsSome(f: FunctionRecord, lines: LineCoverage)
    ensures |OwnedLines(f, lines)| > 0 <==> exists line :: line in lines && Owns(f, line)
  {
    if line :| line in lines && Owns(f, line) {
      assert line in OwnedLines(f, lines);
    }
    if OwnedLines(f, lines) != {} {
      var line :| line in OwnedLines(f, lines);
    }
  }

  class CoverageMapper {
    const report: Report
    const unreportedAsZero: bool
    const peers: set<nat>
    const total: nat
    var matched: nat
    var unmatched: nat
    var empty: nat
    var ambiguous: nat

    ghost function Application(): Counters
      reads this
    {
      Counters(matched, unmatched, empty, ambiguous)
    }

    constructor (functions: Functions, report: Report, unreportedAsZero: bool)
      ensures this.report == report && this.unreportedAsZero == unreportedAsZero && total == |functions|
      ensures forall i: nat :: i in peers <==> PeerAmbiguous(functions, report.resolved, i)
      ensures Application() == Counters(0, 0, 0, 0)
    {
      var found := PeerAmbiguousFunctions(functions, report.resolved);
      this.report := report;
      this.unreportedAsZero := unreportedAsZero;
      peers := found;
      total := |functions|;
      matched, unmatched, empty, ambiguous := 0, 0, 0, 0;
    }

    method ApplyFunction(index: nat, f: FunctionRecord, ghost functions: Functions) returns (f': FunctionRecord)
      requires index < |functions| && f == functions[index]
      requires forall i: nat :: i in peers <==> PeerAmbiguous(functions, report.resolved, i)
      modifies this`matched, this`unmatched, this`empty, this`ambiguous
      ensures f' == Scored(f, Classify(report, unreportedAsZero, functions, index))
      ensures Mapped(report, unreportedAsZero, functions, index, f')
      ensures Application() == Count(old(Application()), Classify(report, unreportedAsZero, functions, index))
    {
      ScoredMeans(report, unreportedAsZero, functions, index);
      f' := f.(coverage := None, crap := None);
      if f.file !in report.resolved {
        if report.functionCoverage && unreportedAsZero {
          f' := ApplyPercent(f', 0.0);
        } else {
          unmatched := unmatched + 1;
        }
        return;
      }
      var lines := report.resolved[f.file];
      if report.functionCoverage && index in report.regional {
        f' := ApplyPercent(f', report.regional[index]);
        return;
      }
      if report.functionCoverage && f.file in report.reported {
        if unreportedAsZero {
          f' := ApplyPercent(f', 0.0);
        } else {
          empty := empty + 1;
        }
        return;
      }
      if f.startLine == 0 || f.endLine < f.startLine {
        empty := empty + 1;
        return;
      }
      if BoundaryExecutable(f, lines) || index in peers {
        ambiguous := ambiguous + 1;
        return;
      }
      var covered, executable := OwnedLineCounts(f, lines);
      if executable == 0 {
        empty := empty + 1;
        return;
      }
      f' := ApplyPercent(f', Percent(covered, executable));
    }

    method ApplyPercent(f: FunctionRecord, percent: real) returns (f': FunctionRecord)
      modifies this`matched
      ensures f' == f.(coverage := Some(percent), crap := Some(CrapScore(f.complexity, percent)))
      ensures matched == old(matched) + 1
    {
      f' := f.(coverage := Some(percent), crap := Some(CrapScore(f.complexity, percent)));
      matched := matched + 1;
    }

    /** Every record gets the outcome of the all-pairs classification, and the counters tally the outcomes. */
    method ApplyAll(functions: array<FunctionRecord>)
      requires total == functions.Length && Application() == Counters(0, 0, 0, 0)
      requires forall i: nat :: i in peers <==> PeerAmbiguous(functions[..], report.resolved, i)
      modifies this, functions
      ensures forall i :: 0 <= i < functions.Length ==>
        functions[i] == Scored(old(functions[i]), Classify(report, unreportedAsZero, old(functions[..]), i))
      ensures forall i :: 0 <= i < functions.Length ==>
        Mapped(report, unreportedAsZero, old(functions[..]), i, functions[i])
      ensures Application() == Tally(report, unreportedAsZero, old(functions[..]), functions.Length)
    {
      ghost var start := functions[..];
      for n := 0 to functions.Length
        invariant Application() == Tally(report, unreportedAsZero, start, n)
        invariant forall i :: 0 <= i < n ==>
          functions[i] == Scored(start[i], Classify(report, unreportedAsZero, start, i))
        invariant forall i :: 0 <= i < n ==> Mapped(report, unreportedAsZero, start, i, functions[i])
        invariant forall i :: n <= i < functions.Length ==> functions[i] == start[i]
      {
        functions[n] := ApplyFunction(n, functions[n], start);
      }
    }
  }

  // ----- consequences -----

  ghost function ScoredCount(report: Report, unreportedAsZero: bool, functions: Functions, n: nat): nat
    requires n <= |functions|
  {
    if n == 0 then
      0
    else
      ScoredCount(report, unreportedAsZero, functions, n - 1)
      + if Scored(functions[n - 1], Classify(report, unreportedAsZero, functions, n - 1)).coverage.Some? then 1 else 0
  }

  /** No function is counted twice or lost, and the matched ones are exactly those that get a score. */
  lemma {:induction false} CountersConserve(report: Report, unreportedAsZero: bool, functions: Functions, n: nat)
    requires n <= |functions|
    ensures var c := Tally(report, unreportedAsZero, functions, n);
            && c.matched + c.unmatched + c.empty + c.ambiguous == n
            && c.matched == ScoredCount(report, unreportedAsZero, functions, n)
  {
    if n > 0 {
      CountersConserve(report, unreportedAsZero, functions, n - 1);
    }
  }

  /** A line that counts towards one function's line percentage counts towards no other function's. */
  lemma LineCountedOnce(report: Report, unreportedAsZero: bool, functions: Functions, i: nat, j: nat)
    requires i < |functions| && j < |functions| && i != j && functions[i].file == functions[j].file
    requires Classify(report, unreportedAsZero, functions, i).ByLines?
    requires Classify(report, unreportedAsZero, functions, j).ByLines?
    ensures OwnedLines(functions[i], report.resolved[functions[i].file]) !!
            OwnedLines(functions[j], report.resolved[functions[i].file])
  {
    var lines := report.resolved[functions[i].file];
    forall line | line in lines && Owns(functions[i], line)
      ensures !Owns(functions[j], line)
    {
      if Owns(functions[j], line) {
        assert PeerAmbiguous(functions, report.resolved, i);
      }
    }
  }

  ghost predicate LineMapped(report: Report, unreportedAsZero: bool, functions: Functions, file: string, i: nat)
    requires i < |functions|
  {
    functions[i].file == file && Classify(report, unreportedAsZero, functions, i).ByLines?
  }

  /** The lines counted for the first `n` functions that are mapped by lines of `file`. */
  ghost function CountedLines(report: Report, unreportedAsZero: bool, functions: Functions, file: string, n: nat): set<Line>
    requires n <= |functions| && file in report.resolved
  {
    if n == 0 then
      {}
    else
      CountedLines(report, unreportedAsZero, functions, file, n - 1)
      + if LineMapped(report, unreportedAsZero, functions, file, n - 1)
        then OwnedLines(functions[n - 1], report.resolved[file]) else {}
  }

  /** The sum of their executable counts. */
  ghost function CountedTotal(report: Report, unreportedAsZero: bool, functions: Functions, file: string, n: nat): nat
    requires n <= |functions| && file in report.resolved
  {
    if n == 0 then
      0
    else
      CountedTotal(report, unreportedAsZero, functions, file, n - 1)
      + if LineMapped(report, unreportedAsZero, functions, file, n - 1)
        then |OwnedLines(functions[n - 1], report.resolved[file])| else 0
  }

  lemma {:induction false} CountedLinesDisjoint(report: Report, unreportedAsZero: bool, functions: Functions, file: string,
                                                n: nat, i: nat)
    requires n <= i < |functions| && file in report.resolved
    requires LineMapped(report, unreportedAsZero, functions, file, i)
    ensures CountedLines(report, unreportedAsZero, functions, file, n) !! OwnedLines(functions[i], report.resolved[file])
  {
    if n > 0 {
      CountedLinesDisjoint(report, unreportedAsZero, functions, file, n - 1, i);
      if LineMapped(report, unreportedAsZero, functions, file, n - 1) {
        LineCountedOnce(report, unreportedAsZero, functions, n - 1, i);
      }
    }
  }

  lemma {:induction false} CountedTotalIsLines(report: Report, unreportedAsZero: bool, functions: Functions, file: string, n: nat)
    requires n <= |functions| && file in report.resolved
    ensures (CountedTotal(report, unreportedAsZero, functions, file, n)
          == |CountedLines(report, unreportedAsZero, functions, file, n)|)
    ensures CountedLines(report, unreportedAsZero, functions, file, n) <= report.resolved[file].Keys
  {
    if n > 0 {
      var lines := report.resolved[file];
      var mapped := LineMapped(report, unreportedAsZero, functions, file, n - 1);
      CountedTotalIsLines(report, unreportedAsZero, functions, file, n - 1);
      if mapped {
        CountedLinesDisjoint(report, unreportedAsZero, functions, file, n - 1, n - 1);
        OwnedKeys(functions[n - 1], lines);
      }
      AddDisjoint(CountedLines(report, unreportedAsZero, functions, file, n - 1), OwnedLines(functions[n - 1], lines),
                  lines.Keys, mapped);
    }
  }

  lemma AddDisjoint<T>(before: set<T>, own: set<T>, all: set<T>, add: bool)
    requires before <= all && (add ==> before !! own && own <= all)
    ensures |before + (if add then own else {})| == |before| + (if add then |own| else 0)
    ensures before + (if add then own else {}) <= all
  {
    assert before + {} == before;
  }

  /** The executable counts of all line-mapped functions of a file never add up to more than its executable lines. */
  lemma CountsWithinFile(report: Report, unreportedAsZero: bool, functions: Functions, file: string, n: nat)
    requires n <= |functions| && file in report.resolved
    ensures var lines := CountedLines(report, unreportedAsZero, functions, file, n);
            && CountedTotal(report, unreportedAsZero, functions, file, n) == |lines| <= |report.resolved[file]|
            && lines <= report.resolved[file].Keys
  {
    CountedTotalIsLines(report, unreportedAsZero, functions, file, n);
    SubsetSize(CountedLines(report, unreportedAsZero, functions, file, n), report.resolved[file].Keys);
    assert |report.resolved[file]| == |report.resolved[file].Keys|;
  }

  lemma OwnedKeys(f: FunctionRecord, lines: LineCoverage)
    ensures OwnedLines(f, lines) <= lines.Keys
  {
  }

  /** Line percentages lie between 0 and 100, and the score between the complexity and its square plus itself. */
  lemma LinePercentBounds(f: FunctionRecord, lines: LineCoverage)
    requires LinePercent(f, lines).ByLines?
    ensures var p := LinePercent(f, lines).percent;
            var c := f.complexity as real;
            0.0 <= p <= 100.0 && c <= CrapScore(f.complexity, p) <= c * c + c
  {
    var owned, covered := OwnedLines(f, lines), CoveredLines(f, lines);
    assert covered <= owned;
    SubsetSize(covered, owned);
    RatioBounds(|covered|, |owned|);
    ScoreBounds(f.complexity, Percent(|covered|, |owned|));
  }

  lemma RatioBounds(covered: nat, executable: nat)
    requires covered <= executable && executable > 0
    ensures 0.0 <= Percent(covered, executable) <= 100.0
  {
    var e, p := executable as real, Percent(covered, executable);
    assert p * e == 100.0 * covered as real;
    SignOfProduct(p, e);
    assert (100.0 - p) * e == 100.0 * e - p * e;
    SignOfProduct(100.0 - p, e);
  }

  lemma SignOfProduct(x: real, positive: real)
    requires positive > 0.0 && x * positive >= 0.0
    ensures x >= 0.0
  {
  }

  lemma ScoreBounds(complexity: nat, percent: real)
    requires 0.0 <= percent <= 100.0
    ensures var c := complexity as real; c <= CrapScore(complexity, percent) <= c * c + c
  {
    var u := 1.0 - percent / 100.0;
    var c := complexity as real;
    assert 0.0 <= u <= 1.0;
    Shrinks(u, u);
    Shrinks(u * u, u);
    Shrinks(c * c, u * u * u);
  }

  /** More coverage never raises the score. */
  lemma ScoreMonotone(complexity: nat, percent: real, more: real)
    requires 0.0 <= percent <= more <= 100.0
    ensures CrapScore(complexity, more) <= CrapScore(complexity, percent)
  {
    var u, v := 1.0 - percent / 100.0, 1.0 - more / 100.0;
    var c := complexity as real;
    assert 0.0 <= v <= u;
    Scaled(v, u, v);
    Scaled(v, u, u);
    assert v * v <= u * u;
    Scaled(v * v, u * u, v);
    Scaled(v, u, u * u);
    assert v * v * v <= u * u * u;
    Scaled(v * v * v, u * u * u, c * c);
  }

  lemma Scaled(x: real, y: real, factor: real)
    requires x <= y && 0.0 <= factor
    ensures x * factor <= y * factor && factor * x <= factor * y
  {
    assert 0.0 <= (y - x) * factor;
    assert (y - x) * factor == y * factor - x * factor;
  }

  lemma Shrinks(x: real, factor: real)
    requires 0.0 <= x && 0.0 <= factor <= 1.0
    ensures 0.0 <= x * factor <= x
  {
    assert 0.0 <= x * factor && 0.0 <= x * (1.0 - factor);
    assert x * (1.0 - factor) == x - x * factor;
  }
}
