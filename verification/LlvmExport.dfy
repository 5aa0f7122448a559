/**
 Expansion of an `llvm-cov export` document into executable lines (crates/analysis-crap/src/coverage.rs).
 A preflight pass counts the work; only then are regions expanded line by line. JSON values are taken as decoded:
 `None` stands for an element of the wrong shape, which is counted but not read.
 */
module LlvmExport {
  import opened CoverageBudget
  import opened CoverageReports
  import opened Basics
  import opened Wrappers

  const MAX_REGION_LINES: nat := 100_000
  const MAX_EXPANDED_LINES: nat := 2_000_000

  datatype RawRegion = RawRegion(
    length: nat, start: Option<nat>, startColumn: Option<nat>, end: Option<nat>, endColumn: Option<nat>,
    hits: Option<nat>, fileIndex: Option<nat>, kind: Option<nat>)

  datatype Region = Region(start: nat, end: nat, hits: nat, file: string)

  datatype RawSegment = RawSegment(length: nat, line: Option<nat>, hits: Option<nat>, hasCount: bool)

  datatype Function = Function(filenames: seq<Option<string>>, regions: seq<Option<RawRegion>>)

  datatype SourceFile = SourceFile(filename: string, segments: seq<Option<RawSegment>>)

  datatype Item = Item(functions: seq<Option<Function>>, files: seq<Option<SourceFile>>)

  function OrZero(n: Option<nat>): nat {
    if n.Some? then n.value else 0
  }

  /** A usable code region: its end is never before its start. */
  function CodeRegion(raw: Option<RawRegion>, filenames: seq<Option<string>>): (r: Option<Region>)
    ensures r.Some? ==> r.value.start <= r.value.end && Some(r.value.file) in filenames
  {
    if raw.None? then
      None
    else
      var x := raw.value;
      var end := if x.end.Some? then x.end else x.start;
      if x.length < 6 || OrZero(x.kind) != 0 || x.start.None? || x.startColumn.None? || x.endColumn.None? then
        None
      else if x.fileIndex.None? || x.fileIndex.value >= |filenames| || filenames[x.fileIndex.value].None? then
        None
      else
        Some(Region(x.start.value, Max(end.value, x.start.value), OrZero(x.hits), filenames[x.fileIndex.value].value))
  }

  function Span(r: Region): nat
    requires r.start <= r.end
  {
    r.end - r.start + 1
  }

  // ----- what the expansion inserts -----

  /** One entry per line of the region, in order. */
  ghost function RegionEntries(r: Region, line: nat): seq<Entry>
    requires line <= r.end + 1
    decreases r.end + 1 - line
  {
    if line > r.end then [] else [Entry(r.file, line, r.hits)] + RegionEntries(r, line + 1)
  }

  ghost function RegionsEntries(regions: seq<Option<RawRegion>>, filenames: seq<Option<string>>): seq<Entry> {
    if regions == [] then
      []
    else
      var r := CodeRegion(regions[0], filenames);
      (if r.Some? then RegionEntries(r.value, r.value.start) else []) + RegionsEntries(regions[1..], filenames)
  }

  ghost function FunctionsEntries(functions: seq<Option<Function>>): seq<Entry> {
    if functions == [] then
      []
    else
      (if functions[0].Some? then RegionsEntries(functions[0].value.regions, functions[0].value.filenames) else [])
      + FunctionsEntries(functions[1..])
  }

  function SegmentEntry(filename: string, segment: Option<RawSegment>): (entries: seq<Entry>)
    ensures |entries| <= 1
  {
    if segment.Some? && segment.value.length >= 4 && segment.value.hasCount && segment.value.line.Some? then
      [Entry(filename, segment.value.line.value, OrZero(segment.value.hits))]
    else
      []
  }

  ghost function SegmentsEntries(filename: string, segments: seq<Option<RawSegment>>): (entries: seq<Entry>)
    ensures |entries| <= |segments|
  {
    if segments == [] then [] else SegmentEntry(filename, segments[0]) + SegmentsEntries(filename, segments[1..])
  }

  ghost function FilesEntries(files: seq<Option<SourceFile>>): seq<Entry> {
    if files == [] then
      []
    else
      (if files[0].Some? then SegmentsEntries(files[0].value.filename, files[0].value.segments) else [])
      + FilesEntries(files[1..])
  }

  ghost function DataEntries(data: seq<Option<Item>>): seq<Entry> {
    if data == [] then
      []
    else
      (if data[0].Some? then FunctionsEntries(data[0].value.functions) + FilesEntries(data[0].value.files) else [])
      + DataEntries(data[1..])
  }

  /** A region reports its hit count for exactly the lines from its start to its end. */
  lemma {:induction false} RegionEntriesExact(r: Region, line: nat, e: Entry)
    requires line <= r.end + 1
    ensures |RegionEntries(r, line)| == r.end + 1 - line
    ensures e in RegionEntries(r, line) <==> e.file == r.file && e.hits == r.hits && line <= e.line <= r.end
    decreases r.end + 1 - line
  {
    if line <= r.end {
      RegionEntriesExact(r, line + 1, e);
    }
  }

  // ----- what a document reports, entry by entry -----

  /**
   The region is a complete code region of a listed file, and the entry is one of its lines with its hits. An end that
   is missing or before the start leaves the start line alone.
   */
  ghost predicate RegionReports(raw: RawRegion, filenames: seq<Option<string>>, e: Entry) {
    && raw.length >= 6 && raw.kind in {None, Some(0)}
    && raw.start.Some? && raw.startColumn.Some? && raw.endColumn.Some?
    && raw.fileIndex.Some? && raw.fileIndex.value < |filenames| && filenames[raw.fileIndex.value] == Some(e.file)
    && raw.start.value <= e.line && (e.line == raw.start.value || (raw.end.Some? && e.line <= raw.end.value))
    && (raw.hits == Some(e.hits) || (raw.hits.None? && e.hits == 0))
  }

  ghost predicate SegmentReports(filename: string, segment: RawSegment, e: Entry) {
    && segment.length >= 4 && segment.hasCount
    && e.file == filename && segment.line == Some(e.line)
    && (segment.hits == Some(e.hits) || (segment.hits.None? && e.hits == 0))
  }

  ghost predicate FunctionReports(f: Function, e: Entry) {
    exists raw :: Some(raw) in f.regions && RegionReports(raw, f.filenames, e)
  }

  ghost predicate FileReports(f: SourceFile, e: Entry) {
    exists segment :: Some(segment) in f.segments && SegmentReports(f.filename, segment, e)
  }

  /** Some region of a function or some segment of a file reports the entry. */
  ghost predicate ItemReports(item: Item, e: Entry) {
    || (exists f :: Some(f) in item.functions && FunctionReports(f, e))
    || (exists f :: Some(f) in item.files && FileReports(f, e))
  }

  lemma RegionReported(raw: Option<RawRegion>, filenames: seq<Option<string>>, e: Entry)
    ensures (raw.Some? && RegionReports(raw.value, filenames, e)
      <==> CodeRegion(raw, filenames).Some?
           && e in RegionEntries(CodeRegion(raw, filenames).value, CodeRegion(raw, filenames).value.start))
  {
    var r := CodeRegion(raw, filenames);
    if r.Some? {
      RegionEntriesExact(r.value, r.value.start, e);
    }
  }

  lemma {:induction false} RegionsReported(regions: seq<Option<RawRegion>>, filenames: seq<Option<string>>, e: Entry)
    ensures (e in RegionsEntries(regions, filenames)
      <==> exists raw :: Some(raw) in regions && RegionReports(raw, filenames, e))
  {
    if regions != [] {
      assert regions == [regions[0]] + regions[1..];
      RegionReported(regions[0], filenames, e);
      RegionsReported(regions[1..], filenames, e);
    }
  }

  lemma {:induction false} FunctionsReported(functions: seq<Option<Function>>, e: Entry)
    ensures e in FunctionsEntries(functions) <==> exists f :: Some(f) in functions && FunctionReports(f, e)
  {
    if functions != [] {
      assert functions == [functions[0]] + functions[1..];
      if functions[0].Some? {
        RegionsReported(functions[0].value.regions, functions[0].value.filenames, e);
      }
      FunctionsReported(functions[1..], e);
    }
  }

  lemma {:induction false} SegmentsReported(filename: string, segments: seq<Option<RawSegment>>, e: Entry)
    ensures (e in SegmentsEntries(filename, segments)
      <==> exists segment :: Some(segment) in segments && SegmentReports(filename, segment, e))
  {
    if segments != [] {
      assert segments == [segments[0]] + segments[1..];
      SegmentsReported(filename, segments[1..], e);
      assert e in SegmentEntry(filename, segments[0]) <==>
        segments[0].Some? && SegmentReports(filename, segments[0].value, e);
    }
  }

  lemma {:induction false} FilesReported(files: seq<Option<SourceFile>>, e: Entry)
    ensures e in FilesEntries(files) <==> exists f :: Some(f) in files && FileReports(f, e)
  {
    if files != [] {
      assert files == [files[0]] + files[1..];
      if files[0].Some? {
        SegmentsReported(files[0].value.filename, files[0].value.segments, e);
      }
      FilesReported(files[1..], e);
    }
  }

  /** The entries of a document are exactly those that some region or segment of it reports. */
  lemma {:induction false} DataReported(data: seq<Option<Item>>, e: Entry)
    ensures e in DataEntries(data) <==> exists item :: Some(item) in data && ItemReports(item, e)
  {
    if data != [] {
      assert data == [data[0]] + data[1..];
      if data[0].Some? {
        FunctionsReported(data[0].value.functions, e);
        FilesReported(data[0].value.files, e);
      }
      DataReported(data[1..], e);
    }
  }

  // ----- what the preflight counts -----

  ghost predicate RegionSized(r: Region)
    requires r.start <= r.end
  {
    Utf8Length(r.file) <= MAX_PATH_BYTES && Span(r) <= MAX_REGION_LINES
  }

  ghost function RegionsSpan(regions: seq<Option<RawRegion>>, filenames: seq<Option<string>>): nat {
    if regions == [] then
      0
    else
      var r := CodeRegion(regions[0], filenames);
      (if r.Some? then Span(r.value) else 0) + RegionsSpan(regions[1..], filenames)
  }

  ghost predicate RegionsSized(regions: seq<Option<RawRegion>>, filenames: seq<Option<string>>) {
    forall raw :: raw in regions && CodeRegion(raw, filenames).Some? ==> RegionSized(CodeRegion(raw, filenames).value)
  }

  ghost function FunctionsSpan(functions: seq<Option<Function>>): nat {
    if functions == [] then
      0
    else
      (if functions[0].Some? then RegionsSpan(functions[0].value.regions, functions[0].value.filenames) else 0)
      + FunctionsSpan(functions[1..])
  }

  ghost function FunctionRecords(f: Function): nat {
    |f.filenames| + |f.regions| + RegionsSpan(f.regions, f.filenames)
  }

  ghost function FunctionsRecords(functions: seq<Option<Function>>): nat {
    if functions == [] then
      0
    else
      (if functions[0].Some? then FunctionRecords(functions[0].value) else 0) + FunctionsRecords(functions[1..])
  }

  ghost predicate FunctionsSized(functions: seq<Option<Function>>) {
    forall f :: f in functions && f.Some? ==>
      |f.value.filenames| <= MAX_FILES && RegionsSized(f.value.regions, f.value.filenames)
  }

  ghost function FilesRecords(files: seq<Option<SourceFile>>): nat {
    if files == [] then
      0
    else
      (if files[0].Some? then |files[0].value.segments| else 0) + FilesRecords(files[1..])
  }

  ghost predicate FilesSized(files: seq<Option<SourceFile>>) {
    forall f :: f in files && f.Some? ==> Utf8Length(f.value.filename) <= MAX_PATH_BYTES
  }

  ghost function ItemRecords(item: Item): nat {
    |item.functions| + FunctionsRecords(item.functions) + |item.files| + FilesRecords(item.files)
  }

  ghost function DataRecords(data: seq<Option<Item>>): nat {
    if data == [] then 0 else (if data[0].Some? then ItemRecords(data[0].value) else 0) + DataRecords(data[1..])
  }

  ghost function DataSpan(data: seq<Option<Item>>): nat {
    if data == [] then 0 else (if data[0].Some? then FunctionsSpan(data[0].value.functions) else 0) + DataSpan(data[1..])
  }

  ghost predicate DataSized(data: seq<Option<Item>>) {
    forall i :: i in data && i.Some? ==> FunctionsSized(i.value.functions) && FilesSized(i.value.files)
  }

  /** A document passes the preflight exactly when every part is sized and both totals are within the limits. */
  ghost predicate PreflightOk(data: seq<Option<Item>>) {
    && DataSized(data)
    && |data| + DataRecords(data) <= MAX_RECORDS
    && DataSpan(data) <= MAX_EXPANDED_LINES
  }

  // ----- the counts are the insertions -----

  lemma {:induction false} RegionsCounted(regions: seq<Option<RawRegion>>, filenames: seq<Option<string>>)
    ensures |RegionsEntries(regions, filenames)| == RegionsSpan(regions, filenames)
  {
    if regions != [] {
      RegionsCounted(regions[1..], filenames);
      var r := CodeRegion(regions[0], filenames);
      if r.Some? {
        RegionEntriesExact(r.value, r.value.start, Entry("", 0, 0));
      }
    }
  }

  lemma {:induction false} FunctionsCounted(functions: seq<Option<Function>>)
    ensures |FunctionsEntries(functions)| == FunctionsSpan(functions) <= FunctionsRecords(functions)
  {
    if functions != [] {
      FunctionsCounted(functions[1..]);
      if functions[0].Some? {
        RegionsCounted(functions[0].value.regions, functions[0].value.filenames);
      }
    }
  }

  lemma {:induction false} FilesCounted(files: seq<Option<SourceFile>>)
    ensures |FilesEntries(files)| <= FilesRecords(files)
  {
    if files != [] {
      FilesCounted(files[1..]);
    }
  }

  /** The line insertions made for the file segments of a document. */
  ghost function SegmentInsertions(data: seq<Option<Item>>): nat {
    if data == [] then 0 else (if data[0].Some? then |FilesEntries(data[0].value.files)| else 0) + SegmentInsertions(data[1..])
  }

  /**
   The expanded-line count of the preflight is the number of insertions made for regions, and its record count
   bounds all insertions.
   */
  lemma {:induction false} InsertionsCounted(data: seq<Option<Item>>)
    ensures |DataEntries(data)| == DataSpan(data) + SegmentInsertions(data) <= DataRecords(data)
  {
    if data != [] {
      InsertionsCounted(data[1..]);
      if data[0].Some? {
        FunctionsCounted(data[0].value.functions);
        FilesCounted(data[0].value.files);
      }
    }
  }

  // ----- the preflight pass -----

  /** A pass over part of a document: it succeeds exactly when the part is sized and the totals stay within limits. */
  ghost predicate Charged(records: nat, expanded: nat, sized: bool, addRecords: nat, addExpanded: nat,
                          ok: bool, recordsAfter: nat, expandedAfter: nat)
  {
    && (ok <==> sized && records + addRecords <= MAX_RECORDS && expanded + addExpanded <= MAX_EXPANDED_LINES)
    && (ok ==> recordsAfter == records + addRecords && expandedAfter == expanded + addExpanded)
  }

  class LlvmPreflight {
    const budget: ParseBudget
    var expandedLines: nat

    ghost predicate Valid()
      reads this, budget
    {
      budget.records <= MAX_RECORDS && expandedLines <= MAX_EXPANDED_LINES
    }

    constructor (budget: ParseBudget)
      ensures this.budget == budget && expandedLines == 0
    {
      this.budget := budget;
      expandedLines := 0;
    }

    method PreflightRegion(r: Region) returns (result: Result<(), ResourceLimit>)
      requires Valid() && r.start <= r.end
      modifies this`expandedLines, budget`records
      ensures Charged(old(budget.records), old(expandedLines), RegionSized(r), Span(r), Span(r),
                      result.Success?, budget.records, expandedLines)
    {
      var _ :- EnsureCount(Utf8Length(r.file), MAX_PATH_BYTES, PathBytes);
      var _ :- EnsureCount(Span(r), MAX_REGION_LINES, Other(MAX_REGION_LINES));
      expandedLines := expandedLines + Span(r);
      var _ :- EnsureCount(expandedLines, MAX_EXPANDED_LINES, Other(MAX_EXPANDED_LINES));
      result := budget.ConsumeRecords(Span(r));
    }

    method PreflightFunction(f: Function) returns (result: Result<(), ResourceLimit>)
      requires Valid()
      modifies this`expandedLines, budget`records
      ensures Charged(old(budget.records), old(expandedLines),
                      |f.filenames| <= MAX_FILES && RegionsSized(f.regions, f.filenames),
                      FunctionRecords(f), RegionsSpan(f.regions, f.filenames),
                      result.Success?, budget.records, expandedLines)
    {
      var _ :- EnsureCount(|f.filenames|, MAX_FILES, FileCount);
      var _ :- budget.ConsumeRecords(|f.filenames|);
      var _ :- budget.ConsumeRecords(|f.regions|);
      assert f.regions[0..] == f.regions;
      for n := 0 to |f.regions|
        invariant Valid()
        invariant budget.records + RegionsSpan(f.regions[n..], f.filenames) == old(budget.records) + FunctionRecords(f)
        invariant (expandedLines + RegionsSpan(f.regions[n..], f.filenames)
                == old(expandedLines) + RegionsSpan(f.regions, f.filenames))
        invariant RegionsSized(f.regions[..n], f.filenames)
      {
        assert f.regions[n..][1..] == f.regions[n + 1..];
        assert f.regions[..n + 1] == f.regions[..n] + [f.regions[n]];
        var region := CodeRegion(f.regions[n], f.filenames);
        if region.Some? {
          var _ :- PreflightRegion(region.value);
        }
      }
      assert f.regions[..|f.regions|] == f.regions;
      return Success(());
    }

    method PreflightFunctions(functions: seq<Option<Function>>) returns (result: Result<(), ResourceLimit>)
      requires Valid()
      modifies this`expandedLines, budget`records
      ensures Charged(old(budget.records), old(expandedLines), FunctionsSized(functions),
                      |functions| + FunctionsRecords(functions), FunctionsSpan(functions),
                      result.Success?, budget.records, expandedLines)
    {
      var _ :- budget.ConsumeRecords(|functions|);
      assert functions[0..] == functions;
      for n := 0 to |functions|
        invariant Valid()
        invariant (budget.records + FunctionsRecords(functions[n..])
                == old(budget.records) + |functions| + FunctionsRecords(functions))
        invariant expandedLines + FunctionsSpan(functions[n..]) == old(expandedLines) + FunctionsSpan(functions)
        invariant FunctionsSized(functions[..n])
      {
        assert functions[n..][1..] == functions[n + 1..];
        assert functions[..n + 1] == functions[..n] + [functions[n]];
        if functions[n].Some? {
          var _ :- PreflightFunction(functions[n].value);
        }
      }
      assert functions[..|functions|] == functions;
      return Success(());
    }

    method PreflightFiles(files: seq<Option<SourceFile>>) returns (result: Result<(), ResourceLimit>)
      requires Valid()
      modifies budget`records
      ensures Charged(old(budget.records), expandedLines, FilesSized(files), |files| + FilesRecords(files), 0,
                      result.Success?, budget.records, expandedLines)
    {
      var _ :- budget.ConsumeRecords(|files|);
      assert files[0..] == files;
      for n := 0 to |files|
        invariant Valid()
        invariant budget.records + FilesRecords(files[n..]) == old(budget.records) + |files| + FilesRecords(files)
        invariant FilesSized(files[..n])
      {
        assert files[n..][1..] == files[n + 1..];
        assert files[..n + 1] == files[..n] + [files[n]];
        if files[n].Some? {
          var _ :- EnsureCount(Utf8Length(files[n].value.filename), MAX_PATH_BYTES, PathBytes);
          var _ :- budget.ConsumeRecords(|files[n].value.segments|);
        }
      }
      assert files[..|files|] == files;
      return Success(());
    }

    method PreflightItem(item: Item) returns (result: Result<(), ResourceLimit>)
      requires Valid()
      modifies this`expandedLines, budget`records
      ensures Charged(old(budget.records), old(expandedLines),
                      FunctionsSized(item.functions) && FilesSized(item.files),
                      ItemRecords(item), FunctionsSpan(item.functions),
                      result.Success?, budget.records, expandedLines)
    {
      var _ :- PreflightFunctions(item.functions);
      result := PreflightFiles(item.files);
    }
  }

  method PreflightLlvm(data: seq<Option<Item>>) returns (budget: ParseBudget, result: Result<(), ResourceLimit>)
    ensures fresh(budget) && budget.uniqueLines == 0
    ensures result.Success? <==> PreflightOk(data)
    ensures result.Success? ==> budget.records == |data| + DataRecords(data)
  {
    budget := new ParseBudget();
    var state := new LlvmPreflight(budget);
    result := budget.ConsumeRecords(|data|);
    if result.Failure? {
      return;
    }
    assert data[0..] == data;
    for n := 0 to |data|
      invariant state.Valid() && state.budget == budget && budget.uniqueLines == 0
      invariant budget.records + DataRecords(data[n..]) == |data| + DataRecords(data)
      invariant state.expandedLines + DataSpan(data[n..]) == DataSpan(data)
      invariant DataSized(data[..n])
    {
      assert data[n..][1..] == data[n + 1..];
      assert data[..n + 1] == data[..n] + [data[n]];
      if data[n].Some? {
        result := state.PreflightItem(data[n].value);
        if result.Failure? {
          return;
        }
      }
    }
    assert data[..|data|] == data;
    result := Success(());
  }

  // ----- the expansion -----

  method AppendRegion(report: CoverageReport, budget: ParseBudget, r: Region) returns (result: Result<(), ResourceLimit>)
    requires budget.Valid(report) && r.start <= r.end
    modifies budget`uniqueLines, report`files
    ensures Performed(report.normalize, old(report.files), RegionEntries(r, r.start), result.Success?, report.files)
    ensures result.Success? ==> budget.Valid(report)
  {
    ghost var base, all, done := report.files, RegionEntries(r, r.start), [];
    ghost var rest := all;
    ProgressStart(report.normalize, base, all);
    for line := r.start to r.end + 1
      invariant budget.Valid(report)
      invariant rest == RegionEntries(r, line)
      invariant Progress(report.normalize, base, all, done, rest, report.files)
    {
      ghost var before, part := report.files, [Entry(r.file, line, r.hits)];
      result := budget.InsertLine(report, r.file, line, r.hits);
      ProgressNext(report.normalize, base, all, done, before, part, RegionEntries(r, line + 1),
                   result.Success?, report.files);
      var _ :- result;
      rest := RegionEntries(r, line + 1);
      done := done + part;
    }
    ProgressEnd(report.normalize, base, all, done, report.files);
    return Success(());
  }

  method AppendRegions(report: CoverageReport, budget: ParseBudget, f: Function)
    returns (result: Result<(), ResourceLimit>)
    requires budget.Valid(report)
    modifies budget`uniqueLines, report`files
    ensures Performed(report.normalize, old(report.files), RegionsEntries(f.regions, f.filenames),
                      result.Success?, report.files)
    ensures result.Success? ==> budget.Valid(report)
  {
    ghost var normalize, base, done := report.normalize, report.files, [];
    ghost var all := RegionsEntries(f.regions, f.filenames);
    ProgressStart(normalize, base, all);
    assert f.regions[0..] == f.regions;
    for n := 0 to |f.regions|
      invariant budget.Valid(report)
      invariant Progress(normalize, base, all, done, RegionsEntries(f.regions[n..], f.filenames), report.files)
    {
      assert f.regions[n..][1..] == f.regions[n + 1..];
      var region := CodeRegion(f.regions[n], f.filenames);
      ghost var before, part := report.files, if region.Some? then RegionEntries(region.value, region.value.start) else [];
      PerformedNothing(normalize, before);
      result := Success(());
      if region.Some? {
        result := AppendRegion(report, budget, region.value);
      }
      ProgressNext(normalize, base, all, done, before, part, RegionsEntries(f.regions[n + 1..], f.filenames),
                   result.Success?, report.files);
      var _ :- result;
      done := done + part;
    }
    ProgressEnd(normalize, base, all, done, report.files);
    return Success(());
  }

  method AppendFunctions(report: CoverageReport, budget: ParseBudget, functions: seq<Option<Function>>)
    returns (result: Result<(), ResourceLimit>)
    requires budget.Valid(report)
    modifies budget`uniqueLines, report`files
    ensures Performed(report.normalize, old(report.files), FunctionsEntries(functions), result.Success?, report.files)
    ensures result.Success? ==> budget.Valid(report)
  {
    ghost var normalize, base, all, done := report.normalize, report.files, FunctionsEntries(functions), [];
    ProgressStart(normalize, base, all);
    assert functions[0..] == functions;
    for n := 0 to |functions|
      invariant budget.Valid(report)
      invariant Progress(normalize, base, all, done, FunctionsEntries(functions[n..]), report.files)
    {
      assert functions[n..][1..] == functions[n + 1..];
      var f := functions[n];
      ghost var before, part := report.files, if f.Some? then RegionsEntries(f.value.regions, f.value.filenames) else [];
      PerformedNothing(normalize, before);
      result := Success(());
      if f.Some? {
        result := AppendRegions(report, budget, f.value);
      }
      ProgressNext(normalize, base, all, done, before, part, FunctionsEntries(functions[n + 1..]),
                   result.Success?, report.files);
      var _ :- result;
      done := done + part;
    }
    ProgressEnd(normalize, base, all, done, report.files);
    return Success(());
  }

  method AppendEntry(report: CoverageReport, budget: ParseBudget, part: seq<Entry>) returns (result: Result<(), ResourceLimit>)
    requires budget.Valid(report) && |part| <= 1
    modifies budget`uniqueLines, report`files
    ensures Performed(report.normalize, old(report.files), part, result.Success?, report.files)
    ensures result.Success? ==> budget.Valid(report)
  {
    PerformedNothing(report.normalize, report.files);
    result := Success(());
    if part != [] {
      result := budget.InsertLine(report, part[0].file, part[0].line, part[0].hits);
      assert part == [part[0]];
    }
  }

  method AppendSegments(report: CoverageReport, budget: ParseBudget, file: SourceFile)
    returns (result: Result<(), ResourceLimit>)
    requires budget.Valid(report)
    modifies budget`uniqueLines, report`files
    ensures Performed(report.normalize, old(report.files), SegmentsEntries(file.filename, file.segments),
                      result.Success?, report.files)
    ensures result.Success? ==> budget.Valid(report)
  {
    ghost var normalize, base, done := report.normalize, report.files, [];
    ghost var all := SegmentsEntries(file.filename, file.segments);
    ProgressStart(normalize, base, all);
    assert file.segments[0..] == file.segments;
    for n := 0 to |file.segments|
      invariant budget.Valid(report)
      invariant Progress(normalize, base, all, done, SegmentsEntries(file.filename, file.segments[n..]), report.files)
    {
      assert file.segments[n..][1..] == file.segments[n + 1..];
      var part := SegmentEntry(file.filename, file.segments[n]);
      ghost var before := report.files;
      result := AppendEntry(report, budget, part);
      ProgressNext(normalize, base, all, done, before, part, SegmentsEntries(file.filename, file.segments[n + 1..]),
                   result.Success?, report.files);
      var _ :- result;
      done := done + part;
    }
    ProgressEnd(normalize, base, all, done, report.files);
    return Success(());
  }

  method AppendFiles(report: CoverageReport, budget: ParseBudget, files: seq<Option<SourceFile>>)
    returns (result: Result<(), ResourceLimit>)
    requires budget.Valid(report)
    modifies budget`uniqueLines, report`files
    ensures Performed(report.normalize, old(report.files), FilesEntries(files), result.Success?, report.files)
    ensures result.Success? ==> budget.Valid(report)
  {
    ghost var normalize, base, all, done := report.normalize, report.files, FilesEntries(files), [];
    ProgressStart(normalize, base, all);
    assert files[0..] == files;
    for n := 0 to |files|
      invariant budget.Valid(report)
      invariant Progress(normalize, base, all, done, FilesEntries(files[n..]), report.files)
    {
      assert files[n..][1..] == files[n + 1..];
      var f := files[n];
      ghost var before, part := report.files, if f.Some? then SegmentsEntries(f.value.filename, f.value.segments) else [];
      PerformedNothing(normalize, before);
      result := Success(());
      if f.Some? {
        result := AppendSegments(report, budget, f.value);
      }
      ProgressNext(normalize, base, all, done, before, part, FilesEntries(files[n + 1..]), result.Success?, report.files);
      var _ :- result;
      done := done + part;
    }
    ProgressEnd(normalize, base, all, done, report.files);
    return Success(());
  }

  method AppendItem(report: CoverageReport, budget: ParseBudget, item: Item) returns (result: Result<(), ResourceLimit>)
    requires budget.Valid(report)
    modifies budget`uniqueLines, report`files
    ensures Performed(report.normalize, old(report.files),
                      FunctionsEntries(item.functions) + FilesEntries(item.files), result.Success?, report.files)
    ensures result.Success? ==> budget.Valid(report)
  {
    ghost var functions, files := FunctionsEntries(item.functions), FilesEntries(item.files);
    FitsSplit(report.normalize, report.files, functions, files);
    InsertAllSplit(report.normalize, report.files, functions, files);
    var _ :- AppendFunctions(report, budget, item.functions);
    result := AppendFiles(report, budget, item.files);
  }

  /** A document is accepted exactly when the preflight accepts it and the lines it reports fit. */
  method ParseLlvm(normalize: string -> string, data: seq<Option<Item>>) returns (r: Result<Files, ResourceLimit>)
    ensures r.Success? <==> PreflightOk(data) && Fits(normalize, map[], DataEntries(data))
    ensures r.Success? ==> r.value == InsertAll(normalize, map[], DataEntries(data))
  {
    var budget, checked := PreflightLlvm(data);
    var _ :- checked;
    var report := new CoverageReport(normalize, Llvm);
    ghost var all, done := DataEntries(data), [];
    EmptyFits();
    ProgressStart(normalize, map[], all);
    assert data[0..] == data;
    for n := 0 to |data|
      invariant budget.Valid(report) && report.normalize == normalize
      invariant Progress(normalize, map[], all, done, DataEntries(data[n..]), report.files)
    {
      assert data[n..][1..] == data[n + 1..];
      var item := data[n];
      ghost var before := report.files;
      ghost var part := if item.Some? then FunctionsEntries(item.value.functions) + FilesEntries(item.value.files) else [];
      PerformedNothing(normalize, before);
      var appended: Result<(), ResourceLimit> := Success(());
      if item.Some? {
        appended := AppendItem(report, budget, item.value);
      }
      ProgressNext(normalize, map[], all, done, before, part, DataEntries(data[n + 1..]), appended.Success?, report.files);
      var _ :- appended;
      done := done + part;
    }
    ProgressEnd(normalize, map[], all, done, report.files);
    return Success(report.files);
  }
}
