/**
 The fail-closed budget under which coverage artifacts are parsed (crates/analysis-crap/src/coverage.rs), and the
 LCOV reader. Budgeted insertion either fails or agrees with unbudgeted insertion, and a whole run fails exactly
 when the unbudgeted result would not fit.
 */
module CoverageBudget {
  import opened FiniteSets
  import opened CoverageReports
  import opened Wrappers

  const MAX_FILES: nat := 50_000
  const MAX_PATH_BYTES: nat := 32 * 1024
  const MAX_EXECUTABLE_LINES: nat := 2_000_000
  const MAX_LINES_PER_FILE: nat := 500_000
  const MAX_RECORDS: nat := 4_000_000
  const MAX_COVERAGE_REPORT_BYTES: nat := 64 * 1024 * 1024

  datatype ResourceLimit = ReportSize | Records | PathBytes | FileCount | LinesPerFile | ExecutableLines | Other(limit: nat)

  function EnsureCount(actual: nat, limit: nat, resource: ResourceLimit): (r: Result<(), ResourceLimit>)
    ensures r.Success? <==> actual <= limit
  {
    if actual > limit then Failure(resource) else Success(())
  }

  /** The length of a string in UTF-8 (section 3 of RFC 3629). */
  function Utf8Length(s: string): nat {
    if s == [] then
      0
    else
      var c := s[0] as int;
      (if c < 0x80 then 1 else if c < 0x800 then 2 else if c < 0x1_0000 then 3 else 4) + Utf8Length(s[1..])
  }

  // ----- limits -----

  /** The executable lines of a report. */
  ghost function Cells(files: Files): set<(string, nat)> {
    set key, line | key in files && line in files[key] :: (key, line)
  }

  ghost predicate WithinLimits(files: Files) {
    && |files| <= MAX_FILES
    && (forall key :: key in files ==> |files[key]| <= MAX_LINES_PER_FILE)
    && |Cells(files)| <= MAX_EXECUTABLE_LINES
  }

  ghost predicate Extends(small: Files, large: Files) {
    forall key :: key in small ==> key in large && small[key].Keys <= large[key].Keys
  }

  /** A report that fits has only parts that fit. */
  lemma LimitsMonotone(small: Files, large: Files)
    requires Extends(small, large) && WithinLimits(large)
    ensures WithinLimits(small)
  {
    SubsetSize(small.Keys, large.Keys);
    forall key | key in small
      ensures |small[key]| <= MAX_LINES_PER_FILE
    {
      SubsetSize(small[key].Keys, large[key].Keys);
      assert |small[key]| == |small[key].Keys| && |large[key]| == |large[key].Keys|;
    }
    assert |small| == |small.Keys| && |large| == |large.Keys|;
    SubsetSize(Cells(small), Cells(large));
  }

  lemma {:induction false} InsertAllExtends(normalize: string -> string, files: Files, entries: seq<Entry>)
    ensures Extends(files, InsertAll(normalize, files, entries))
    decreases |entries|
  {
    if entries != [] {
      InsertAllExtends(normalize, Insert(normalize, files, entries[0]), entries[1..]);
    }
  }

  ghost predicate PathFits(e: Entry) {
    e.line != 0 ==> Utf8Length(e.file) <= MAX_PATH_BYTES
  }

  /** What a run must satisfy: every used path is short enough and the unbudgeted result is within the limits. */
  ghost predicate Fits(normalize: string -> string, before: Files, entries: seq<Entry>) {
    && (forall e :: e in entries ==> PathFits(e))
    && WithinLimits(InsertAll(normalize, before, entries))
  }

  /** A run fits exactly when its first part fits and the rest fits after it. */
  lemma FitsSplit(normalize: string -> string, before: Files, a: seq<Entry>, b: seq<Entry>)
    ensures (Fits(normalize, before, a + b)
        <==> Fits(normalize, before, a) && Fits(normalize, InsertAll(normalize, before, a), b))
  {
    InsertAllSplit(normalize, before, a, b);
    var middle := InsertAll(normalize, before, a);
    InsertAllExtends(normalize, middle, b);
    if WithinLimits(InsertAll(normalize, middle, b)) {
      LimitsMonotone(middle, InsertAll(normalize, middle, b));
    }
    assert forall e :: e in a + b <==> e in a || e in b;
  }

  /** A step of a run: it succeeds exactly when it fits, and then has the unbudgeted effect. */
  ghost predicate Performed(normalize: string -> string, before: Files, entries: seq<Entry>, ok: bool, after: Files) {
    && (ok <==> Fits(normalize, before, entries))
    && (ok ==> after == InsertAll(normalize, before, entries))
  }

  lemma PerformedNothing(normalize: string -> string, files: Files)
    requires WithinLimits(files)
    ensures Performed(normalize, files, [], true, files)
  {
  }

  /** Of the entries `all`, those in `done` have been performed and `rest` is to come. */
  ghost predicate Progress(normalize: string -> string, base: Files, all: seq<Entry>,
                           done: seq<Entry>, rest: seq<Entry>, files: Files)
  {
    && Performed(normalize, base, done, true, files)
    && all == done + rest
  }

  lemma ProgressStart(normalize: string -> string, base: Files, all: seq<Entry>)
    requires WithinLimits(base)
    ensures Progress(normalize, base, all, [], all, base)
  {
    assert [] + all == all;
  }

  /** One more part: if it fails, the whole does not fit. */
  lemma ProgressNext(normalize: string -> string, base: Files, all: seq<Entry>, done: seq<Entry>, before: Files,
                     part: seq<Entry>, rest: seq<Entry>, ok: bool, after: Files)
    requires Progress(normalize, base, all, done, part + rest, before)
    requires Performed(normalize, before, part, ok, after)
    ensures ok ==> Progress(normalize, base, all, done + part, rest, after)
    ensures !ok ==> Performed(normalize, base, all, false, after)
  {
    assert all == (done + part) + rest;
    FitsSplit(normalize, base, done, part);
    InsertAllSplit(normalize, base, done, part);
    FitsSplit(normalize, base, done + part, rest);
  }

  lemma ProgressEnd(normalize: string -> string, base: Files, all: seq<Entry>, done: seq<Entry>, files: Files)
    requires Progress(normalize, base, all, done, [], files)
    ensures Performed(normalize, base, all, true, files)
  {
    assert all == done;
  }

  lemma EmptyFits()
    ensures |Cells(map[])| == 0 && WithinLimits(map[])
  {
  }

  // ----- the budget -----

  lemma InsertGrowth(files: Files, key: string, line: nat, hits: nat)
    ensures Cells(Retain(files, key, line, hits)) == Cells(files) + {(key, line)}
    ensures Retain(files, key, line, hits).Keys == files.Keys + {key}
    ensures Retain(files, key, line, hits)[key].Keys == LinesOf(files, key).Keys + {line}
    ensures forall k :: k in files && k != key ==> Retain(files, key, line, hits)[k] == files[k]
  {
  }

  class ParseBudget {
    var records: nat
    var uniqueLines: nat

    /** The counter is the number of lines stored, and what is stored is within the limits. */
    ghost predicate Valid(report: CoverageReport)
      reads this`uniqueLines, report`files
    {
      uniqueLines == |Cells(report.files)| && WithinLimits(report.files)
    }

    constructor ()
      ensures records == 0 && uniqueLines == 0
    {
      records := 0;
      uniqueLines := 0;
    }

    method ConsumeRecords(amount: nat) returns (r: Result<(), ResourceLimit>)
      modifies this`records
      ensures records == old(records) + amount
      ensures r.Success? <==> records <= MAX_RECORDS
    {
      records := records + amount;
      return EnsureCount(records, MAX_RECORDS, Records);
    }

    method ReserveLine(report: CoverageReport, key: string, line: nat) returns (r: Result<(), ResourceLimit>)
      modifies this`uniqueLines
      ensures Has(report.files, key, line) ==> r.Success? && uniqueLines == old(uniqueLines)
      ensures !Has(report.files, key, line) ==>
        (r.Success? <==> |LinesOf(report.files, key)| < MAX_LINES_PER_FILE && old(uniqueLines) < MAX_EXECUTABLE_LINES)
      ensures !Has(report.files, key, line) && r.Success? ==> uniqueLines == old(uniqueLines) + 1
      ensures r.Failure? ==>
        r.error == if |LinesOf(report.files, key)| >= MAX_LINES_PER_FILE then LinesPerFile else ExecutableLines
    {
      if key in report.files && line in report.files[key] {
        return Success(());
      }
      var _ :- EnsureCount(|LinesOf(report.files, key)| + 1, MAX_LINES_PER_FILE, LinesPerFile);
      uniqueLines := uniqueLines + 1;
      return EnsureCount(uniqueLines, MAX_EXECUTABLE_LINES, ExecutableLines);
    }

    /** Stores a line under a normalized path; on failure the report is as it was. */
    method StoreLine(report: CoverageReport, key: string, line: nat, hits: nat) returns (r: Result<(), ResourceLimit>)
      requires Valid(report)
      modifies this`uniqueLines, report`files
      ensures r.Success? <==> WithinLimits(Retain(old(report.files), key, line, hits))
      ensures r.Success? ==> Valid(report) && report.files == Retain(old(report.files), key, line, hits)
      ensures r.Failure? ==> report.files == old(report.files)
      ensures r.Failure? ==>
        r.error == if key !in report.files && |report.files| >= MAX_FILES then FileCount
                   else if |LinesOf(report.files, key)| >= MAX_LINES_PER_FILE then LinesPerFile
                   else ExecutableLines
    {
      LimitsAfter(report.files, key, line, hits);
      if key !in report.files {
        var _ :- EnsureCount(|report.files| + 1, MAX_FILES, FileCount);
      }
      var _ :- ReserveLine(report, key, line);
      report.files := Retain(report.files, key, line, hits);
      return Success(());
    }

    method InsertLine(report: CoverageReport, file: string, line: nat, hits: nat)
      returns (r: Result<(), ResourceLimit>)
      requires Valid(report)
      modifies this`uniqueLines, report`files
      ensures Performed(report.normalize, old(report.files), [Entry(file, line, hits)], r.Success?, report.files)
      ensures r.Success? ==> Valid(report)
      ensures r.Failure? ==> report.files == old(report.files)
    {
      InsertOne(report.normalize, report.files, Entry(file, line, hits));
      if line == 0 {
        return Success(());
      }
      var _ :- EnsureCount(Utf8Length(file), MAX_PATH_BYTES, PathBytes);
      var key := report.normalize(file);
      if key == "." || key == "" {
        return Success(());
      }
      r := StoreLine(report, key, line, hits);
    }
  }

  /** Inserts the next entry of a larger run. */
  method InsertNext(budget: ParseBudget, report: CoverageReport, file: string, line: nat, hits: nat,
                    ghost base: Files, ghost all: seq<Entry>, ghost done: seq<Entry>, ghost rest: seq<Entry>)
    returns (r: Result<(), ResourceLimit>)
    requires budget.Valid(report)
    requires Progress(report.normalize, base, all, done, [Entry(file, line, hits)] + rest, report.files)
    modifies budget`uniqueLines, report`files
    ensures r.Success? ==>
      budget.Valid(report) && Progress(report.normalize, base, all, done + [Entry(file, line, hits)], rest, report.files)
    ensures r.Failure? ==> Performed(report.normalize, base, all, false, report.files)
  {
    ghost var before := report.files;
    r := budget.InsertLine(report, file, line, hits);
    ProgressNext(report.normalize, base, all, done, before, [Entry(file, line, hits)], rest, r.Success?, report.files);
  }

  lemma InsertOne(normalize: string -> string, files: Files, e: Entry)
    ensures InsertAll(normalize, files, [e]) == Insert(normalize, files, e)
    ensures (Fits(normalize, files, [e])
        <==> PathFits(e) && WithinLimits(Insert(normalize, files, e)))
  {
    assert InsertAll(normalize, files, [e]) == InsertAll(normalize, Insert(normalize, files, e), []);
  }

  lemma SizesAfter(files: Files, key: string, line: nat, hits: nat)
    ensures var after := Retain(files, key, line, hits);
            && |after| == |files| + (if key in files then 0 else 1)
            && |after[key]| == |LinesOf(files, key)| + (if Has(files, key, line) then 0 else 1)
            && |Cells(after)| == |Cells(files)| + (if Has(files, key, line) then 0 else 1)
  {
    InsertGrowth(files, key, line, hits);
    AddSize(files.Keys, key);
    AddSize(LinesOf(files, key).Keys, line);
    AddSize(Cells(files), (key, line));
  }

  /** Which checks one more cell must pass. */
  lemma LimitsAfter(files: Files, key: string, line: nat, hits: nat)
    requires WithinLimits(files)
    ensures |Cells(Retain(files, key, line, hits))| == |Cells(files)| + (if Has(files, key, line) then 0 else 1)
    ensures (WithinLimits(Retain(files, key, line, hits))
        <==> && (key in files || |files| < MAX_FILES)
             && (Has(files, key, line)
                 || (|LinesOf(files, key)| < MAX_LINES_PER_FILE && |Cells(files)| < MAX_EXECUTABLE_LINES)))
  {
    SizesAfter(files, key, line, hits);
    var after := Retain(files, key, line, hits);
    assert forall k :: k in after && k != key ==> after[k] == files[k];
    assert |after[key]| <= MAX_LINES_PER_FILE
      <==> Has(files, key, line) || |LinesOf(files, key)| < MAX_LINES_PER_FILE;
  }

  // ----- LCOV -----

  datatype LcovRecord =
    | SourceFile(path: string)
    | EndOfRecord
    | LineData(line: Option<nat>, hits: Option<nat>)
    | OtherRecord

  function StartFile(normalize: string -> string, path: string): Option<string> {
    var file := normalize(path);
    if file != "." then Some(file) else None
  }

  function NextFile(normalize: string -> string, record: LcovRecord, current: Option<string>): Option<string> {
    match record
    case SourceFile(path) => StartFile(normalize, path)
    case EndOfRecord => None
    case _ => current
  }

  function RecordEntries(record: LcovRecord, current: Option<string>): seq<Entry> {
    if record.LineData? && current.Some? && record.line.Some? && record.hits.Some? then
      [Entry(current.value, record.line.value, record.hits.value)]
    else
      []
  }

  /** The lines a tracefile reports, with the section state threaded through. */
  ghost function LcovEntries(normalize: string -> string, records: seq<LcovRecord>, current: Option<string>): seq<Entry>
    decreases |records|
  {
    if records == [] then
      []
    else
      RecordEntries(records[0], current) + LcovEntries(normalize, records[1..], NextFile(normalize, records[0], current))
  }

  /** The file the `j`th record belongs to: that of the last section start, unless the section has ended. */
  ghost predicate Governs(records: seq<LcovRecord>, i: int, j: int) {
    && 0 <= i < j < |records|
    && records[i].SourceFile?
    && forall k :: i < k < j ==> !records[k].SourceFile? && !records[k].EndOfRecord?
  }

  ghost predicate Unsectioned(records: seq<LcovRecord>, j: nat) {
    j <= |records| && forall k :: 0 <= k < j ==> !records[k].SourceFile? && !records[k].EndOfRecord?
  }

  /** Record `j` reports the entry, its file being `file`. */
  ghost predicate Reports(records: seq<LcovRecord>, j: int, file: string, e: Entry) {
    && 0 <= j < |records|
    && records[j].LineData? && records[j].line.Some? && records[j].hits.Some?
    && e == Entry(file, records[j].line.value, records[j].hits.value)
  }

  ghost predicate ReportedFrom(normalize: string -> string, records: seq<LcovRecord>, current: Option<string>, e: Entry) {
    || (exists i, j :: Governs(records, i, j) && normalize(records[i].path) != "."
                       && Reports(records, j, normalize(records[i].path), e))
    || (current.Some? && exists j: nat :: Unsectioned(records, j) && Reports(records, j, current.value, e))
  }

  lemma ReportedLater(normalize: string -> string, records: seq<LcovRecord>, current: Option<string>, e: Entry)
    requires records != []
    requires ReportedFrom(normalize, records[1..], NextFile(normalize, records[0], current), e)
    ensures ReportedFrom(normalize, records, current, e)
  {
    var rest, next := records[1..], NextFile(normalize, records[0], current);
    if i, j :| Governs(rest, i, j) && normalize(rest[i].path) != "." && Reports(rest, j, normalize(rest[i].path), e) {
      assert Governs(records, i + 1, j + 1) && Reports(records, j + 1, normalize(records[i + 1].path), e);
    } else {
      var j: nat :| Unsectioned(rest, j) && Reports(rest, j, next.value, e);
      assert forall k :: 0 < k <= j ==> records[k] == rest[k - 1];
      if records[0].SourceFile? {
        assert Governs(records, 0, j + 1) && Reports(records, j + 1, normalize(records[0].path), e);
      } else {
        assert Unsectioned(records, j + 1) && Reports(records, j + 1, current.value, e);
      }
    }
  }

  lemma ReportedNowOrLater(normalize: string -> string, records: seq<LcovRecord>, current: Option<string>, e: Entry)
    requires records != []
    requires ReportedFrom(normalize, records, current, e)
    ensures (|| (current.Some? && Reports(records, 0, current.value, e))
             || ReportedFrom(normalize, records[1..], NextFile(normalize, records[0], current), e))
  {
    var rest, next := records[1..], NextFile(normalize, records[0], current);
    if i, j :| Governs(records, i, j) && normalize(records[i].path) != "." && Reports(records, j, normalize(records[i].path), e) {
      assert forall k :: 0 < k <= j ==> records[k] == rest[k - 1];
      if i == 0 {
        assert Unsectioned(rest, j - 1) && Reports(rest, j - 1, next.value, e);
      } else {
        assert Governs(rest, i - 1, j - 1) && Reports(rest, j - 1, normalize(rest[i - 1].path), e);
      }
    } else {
      var j: nat :| Unsectioned(records, j) && Reports(records, j, current.value, e);
      assert forall k :: 0 < k <= j ==> records[k] == rest[k - 1];
      if j > 0 {
        assert Unsectioned(rest, j - 1) && Reports(rest, j - 1, current.value, e);
      }
    }
  }

  /** Exactly the data records inside a section are reported, each for the file that opened its section. */
  lemma {:induction false} LcovEntriesExact(normalize: string -> string, records: seq<LcovRecord>,
                                            current: Option<string>, e: Entry)
    ensures e in LcovEntries(normalize, records, current) <==> ReportedFrom(normalize, records, current, e)
    decreases |records|
  {
    if records != [] {
      var next := NextFile(normalize, records[0], current);
      LcovEntriesExact(normalize, records[1..], next, e);
      if ReportedFrom(normalize, records[1..], next, e) {
        ReportedLater(normalize, records, current, e);
      }
      if ReportedFrom(normalize, records, current, e) {
        ReportedNowOrLater(normalize, records, current, e);
      }
      if current.Some? && Reports(records, 0, current.value, e) {
        assert Unsectioned(records, 0);
      }
    }
  }

  method ConsumeLcovRecord(record: LcovRecord, current: Option<string>, report: CoverageReport, budget: ParseBudget)
    returns (next: Option<string>, r: Result<(), ResourceLimit>)
    requires budget.Valid(report)
    modifies budget`uniqueLines, report`files
    ensures next == NextFile(report.normalize, record, current)
    ensures Performed(report.normalize, old(report.files), RecordEntries(record, current), r.Success?, report.files)
    ensures r.Success? ==> budget.Valid(report)
  {
    PerformedNothing(report.normalize, report.files);
    next := NextFile(report.normalize, record, current);
    if record.LineData? && current.Some? && record.line.Some? && record.hits.Some? {
      r := budget.InsertLine(report, current.value, record.line.value, record.hits.value);
    } else {
      r := Success(());
    }
  }

  method ReadLcov(normalize: string -> string, records: seq<LcovRecord>) returns (r: Result<Files, ResourceLimit>)
    ensures r.Success? <==>
      |records| <= MAX_RECORDS && Fits(normalize, map[], LcovEntries(normalize, records, None))
    ensures r.Success? ==> r.value == InsertAll(normalize, map[], LcovEntries(normalize, records, None))
  {
    var report := new CoverageReport(normalize, Lcov);
    var budget := new ParseBudget();
    var current: Option<string> := None;
    ghost var all, done := LcovEntries(normalize, records, None), [];
    EmptyFits();
    ProgressStart(normalize, map[], all);
    assert records[0..] == records;
    for n := 0 to |records|
      invariant budget.records == n <= MAX_RECORDS && budget.Valid(report) && report.normalize == normalize
      invariant Progress(normalize, map[], all, done, LcovEntries(normalize, records[n..], current), report.files)
    {
      assert records[n..][1..] == records[n + 1..];
      var _ :- budget.ConsumeRecords(1);
      ghost var before, part := report.files, RecordEntries(records[n], current);
      var next, consumed := ConsumeLcovRecord(records[n], current, report, budget);
      ProgressNext(normalize, map[], all, done, before, part, LcovEntries(normalize, records[n + 1..], next),
                   consumed.Success?, report.files);
      var _ :- consumed;
      done := done + part;
      current := next;
    }
    ProgressEnd(normalize, map[], all, done, report.files);
    return Success(report.files);
  }

  /** Reading a tracefile fails exactly when it is too large, has too many records or what it reports does not fit. */
  method ParseLcov(normalize: string -> string, textBytes: nat, records: seq<LcovRecord>)
    returns (r: Result<Files, ResourceLimit>)
    ensures r.Success? <==>
      && textBytes <= MAX_COVERAGE_REPORT_BYTES && |records| <= MAX_RECORDS
      && Fits(normalize, map[], LcovEntries(normalize, records, None))
    ensures r.Success? ==> r.value == InsertAll(normalize, map[], LcovEntries(normalize, records, None))
    ensures textBytes > MAX_COVERAGE_REPORT_BYTES ==> r == Failure(ReportSize)
  {
    if textBytes > MAX_COVERAGE_REPORT_BYTES {
      return Failure(ReportSize);
    }
    r := ReadLcov(normalize, records);
  }
}
