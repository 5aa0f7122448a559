/**
 Resolution of Cobertura class lines against the report's source roots (crates/analysis-crap/src/coverage.rs).
 A relative class is inserted under its own path and under every source root; a preflight bounds the product.
 */
module CoberturaReport {
  import opened CoverageBudget
  import opened CoverageReports
  import opened Wrappers

  const MAX_RESOLUTION_CANDIDATES: nat := 1_000_000

  /** A class and its lines in increasing line order. */
  datatype Class = Class(file: string, lines: seq<(nat, nat)>)

  /** Whether the second byte is a colon or the first a slash. */
  predicate AbsoluteLike(path: string) {
    || (path != [] && path[0] == '/')
    || (|path| > 1 && path[0] as int < 0x80 && path[1] == ':')
  }

  function AliasCount(file: string, sources: nat): nat {
    if AbsoluteLike(file) then 1 else sources + 1
  }

  // ----- what the resolution inserts -----

  function AliasPath(source: string, file: string): string {
    source + "/" + file
  }

  ghost predicate AliasFits(normalize: string -> string, source: string, file: string) {
    && Utf8Length(AliasPath(source, file)) <= MAX_PATH_BYTES
    && Utf8Length(normalize(AliasPath(source, file))) <= MAX_PATH_BYTES
  }

  ghost function AliasEntries(normalize: string -> string, sources: seq<string>, file: string, line: nat, hits: nat)
    : (entries: seq<Entry>)
    ensures |entries| == |sources|
  {
    if sources == [] then
      []
    else
      [Entry(normalize(AliasPath(sources[0], file)), line, hits)] + AliasEntries(normalize, sources[1..], file, line, hits)
  }

  ghost function LineInsertions(normalize: string -> string, sources: seq<string>, file: string, line: nat, hits: nat)
    : (entries: seq<Entry>)
    ensures |entries| == AliasCount(file, |sources|)
  {
    [Entry(file, line, hits)] + if AbsoluteLike(file) then [] else AliasEntries(normalize, sources, file, line, hits)
  }

  ghost function LinesInsertions(normalize: string -> string, sources: seq<string>, file: string, lines: seq<(nat, nat)>)
    : seq<Entry>
  {
    if lines == [] then
      []
    else
      LineInsertions(normalize, sources, file, lines[0].0, lines[0].1)
      + LinesInsertions(normalize, sources, file, lines[1..])
  }

  ghost function ClassInsertions(normalize: string -> string, sources: seq<string>, classes: seq<Class>): seq<Entry> {
    if classes == [] then
      []
    else
      LinesInsertions(normalize, sources, classes[0].file, classes[0].lines)
      + ClassInsertions(normalize, sources, classes[1..])
  }

  /**
   The entry is a line of the class under its own path or, unless that path is absolute, under the normalized join of a
   source root and the path.
   */
  ghost predicate ClassReports(normalize: string -> string, sources: seq<string>, c: Class, e: Entry) {
    && (e.line, e.hits) in c.lines
    && (|| e.file == c.file
        || (&& !(c.file != [] && c.file[0] == '/')
            && !(|c.file| > 1 && c.file[0] as int < 0x80 && c.file[1] == ':')
            && exists source :: source in sources && e.file == normalize(source + ['/'] + c.file)))
  }

  lemma {:induction false} AliasesReported(normalize: string -> string, sources: seq<string>, file: string, line: nat,
                                           hits: nat, e: Entry)
    ensures (e in AliasEntries(normalize, sources, file, line, hits)
      <==> e.line == line && e.hits == hits && exists source :: source in sources && e.file == normalize(source + ['/'] + file))
  {
    if sources != [] {
      assert sources == [sources[0]] + sources[1..];
      AliasesReported(normalize, sources[1..], file, line, hits, e);
    }
  }

  lemma {:induction false} LinesReported(normalize: string -> string, sources: seq<string>, c: Class,
                                         lines: seq<(nat, nat)>, e: Entry)
    ensures (e in LinesInsertions(normalize, sources, c.file, lines)
      <==> ClassReports(normalize, sources, Class(c.file, lines), e))
  {
    if lines != [] {
      assert lines == [lines[0]] + lines[1..];
      AliasesReported(normalize, sources, c.file, lines[0].0, lines[0].1, e);
      LinesReported(normalize, sources, c, lines[1..], e);
    }
  }

  /** The resolution inserts exactly the lines of every class under its path and its aliases. */
  lemma {:induction false} ClassesReported(normalize: string -> string, sources: seq<string>, classes: seq<Class>, e: Entry)
    ensures (e in ClassInsertions(normalize, sources, classes)
      <==> exists c :: c in classes && ClassReports(normalize, sources, c, e))
  {
    if classes != [] {
      assert classes == [classes[0]] + classes[1..];
      LinesReported(normalize, sources, classes[0], classes[0].lines, e);
      ClassesReported(normalize, sources, classes[1..], e);
    }
  }

  /** Every alias a class needs is short enough before and after normalization. */
  ghost predicate AliasesFit(normalize: string -> string, sources: seq<string>, classes: seq<Class>) {
    forall c, s :: c in classes && s in sources && c.lines != [] && !AbsoluteLike(c.file) ==> AliasFits(normalize, s, c.file)
  }

  // ----- the preflight -----

  ghost function Candidates(classes: seq<Class>, sources: nat): nat {
    if classes == [] then
      0
    else
      |classes[0].lines| * AliasCount(classes[0].file, sources) + Candidates(classes[1..], sources)
  }

  method PreflightCoberturaResolution(classes: seq<Class>, sources: nat) returns (r: Result<(), ResourceLimit>)
    ensures r.Success? <==> Candidates(classes, sources) <= MAX_RESOLUTION_CANDIDATES
  {
    var total: nat := 0;
    assert classes[0..] == classes;
    for n := 0 to |classes|
      invariant total <= MAX_RESOLUTION_CANDIDATES
      invariant total + Candidates(classes[n..], sources) == Candidates(classes, sources)
    {
      assert classes[n..][1..] == classes[n + 1..];
      var aliases := AliasCount(classes[n].file, sources);
      total := total + |classes[n].lines| * aliases;
      var _ :- EnsureCount(total, MAX_RESOLUTION_CANDIDATES, Other(MAX_RESOLUTION_CANDIDATES));
    }
    return Success(());
  }

  lemma {:induction false} LinesCounted(normalize: string -> string, sources: seq<string>, file: string,
                                        lines: seq<(nat, nat)>)
    ensures |LinesInsertions(normalize, sources, file, lines)| == |lines| * AliasCount(file, |sources|)
  {
    if lines != [] {
      var aliases := AliasCount(file, |sources|);
      LinesCounted(normalize, sources, file, lines[1..]);
      assert |lines| * aliases == aliases + (|lines| - 1) * aliases;
    }
  }

  /** The preflight counts exactly the line insertions the resolution makes. */
  lemma {:induction false} CandidatesCounted(normalize: string -> string, sources: seq<string>, classes: seq<Class>)
    ensures |ClassInsertions(normalize, sources, classes)| == Candidates(classes, |sources|)
  {
    if classes != [] {
      LinesCounted(normalize, sources, classes[0].file, classes[0].lines);
      CandidatesCounted(normalize, sources, classes[1..]);
    }
  }

  // ----- the resolution -----

  /** Like `Performed`, for a step that can also fail because an alias is too long. */
  ghost predicate Resolved(normalize: string -> string, before: Files, aliasesFit: bool, entries: seq<Entry>,
                           ok: bool, after: Files)
  {
    && (ok <==> aliasesFit && Fits(normalize, before, entries))
    && (ok ==> after == InsertAll(normalize, before, entries))
  }

  /** One more part: if it fails, an alias is too long or the whole does not fit. */
  lemma ResolvedNext(normalize: string -> string, base: Files, all: seq<Entry>, done: seq<Entry>, before: Files,
                     part: seq<Entry>, rest: seq<Entry>, aliasesFit: bool, ok: bool, after: Files)
    requires Progress(normalize, base, all, done, part + rest, before)
    requires Resolved(normalize, before, aliasesFit, part, ok, after)
    ensures ok ==> aliasesFit && Progress(normalize, base, all, done + part, rest, after)
    ensures !ok ==> !(aliasesFit && Fits(normalize, base, all))
  {
    if ok || aliasesFit {
      ProgressNext(normalize, base, all, done, before, part, rest, ok, after);
    }
  }

  function LimitedNormalizedPath(normalize: string -> string, value: string): (r: Result<string, ResourceLimit>)
    ensures r.Success? <==> Utf8Length(value) <= MAX_PATH_BYTES && Utf8Length(normalize(value)) <= MAX_PATH_BYTES
    ensures r.Success? ==> r.value == normalize(value)
  {
    var _ :- EnsureCount(Utf8Length(value), MAX_PATH_BYTES, PathBytes);
    var _ :- EnsureCount(Utf8Length(normalize(value)), MAX_PATH_BYTES, PathBytes);
    Success(normalize(value))
  }

  method InsertCoberturaLine(report: CoverageReport, budget: ParseBudget, sources: seq<string>,
                             file: string, line: nat, hits: nat) returns (r: Result<(), ResourceLimit>)
    requires budget.Valid(report)
    modifies budget`uniqueLines, report`files
    ensures Resolved(report.normalize, old(report.files),
                     AbsoluteLike(file) || forall s :: s in sources ==> AliasFits(report.normalize, s, file),
                     LineInsertions(report.normalize, sources, file, line, hits), r.Success?, report.files)
    ensures r.Success? ==> budget.Valid(report)
  {
    ghost var normalize, base, done := report.normalize, report.files, [Entry(file, line, hits)];
    ghost var all := LineInsertions(normalize, sources, file, line, hits);
    ghost var aliases := if AbsoluteLike(file) then [] else AliasEntries(normalize, sources, file, line, hits);
    ProgressStart(normalize, base, all);
    var _ :- InsertNext(budget, report, file, line, hits, base, all, [], aliases);
    assert [] + done == done;
    if AbsoluteLike(file) {
      ProgressEnd(normalize, base, all, done, report.files);
      return Success(());
    }
    assert sources[0..] == sources;
    for n := 0 to |sources|
      invariant budget.Valid(report)
      invariant Progress(normalize, base, all, done, AliasEntries(normalize, sources[n..], file, line, hits), report.files)
      invariant forall i :: 0 <= i < n ==> AliasFits(normalize, sources[i], file)
    {
      assert sources[n..][1..] == sources[n + 1..];
      assert sources[n] in sources;
      var alias :- LimitedNormalizedPath(report.normalize, AliasPath(sources[n], file));
      var _ :- InsertNext(budget, report, alias, line, hits, base, all, done,
                          AliasEntries(normalize, sources[n + 1..], file, line, hits));
      done := done + [Entry(alias, line, hits)];
    }
    ProgressEnd(normalize, base, all, done, report.files);
    return Success(());
  }

  method InsertCoberturaClass(report: CoverageReport, budget: ParseBudget, sources: seq<string>, c: Class)
    returns (r: Result<(), ResourceLimit>)
    requires budget.Valid(report)
    modifies budget`uniqueLines, report`files
    ensures Resolved(report.normalize, old(report.files), AliasesFit(report.normalize, sources, [c]),
                     LinesInsertions(report.normalize, sources, c.file, c.lines), r.Success?, report.files)
    ensures r.Success? ==> budget.Valid(report)
  {
    ghost var normalize, base, done := report.normalize, report.files, [];
    ghost var all := LinesInsertions(normalize, sources, c.file, c.lines);
    ProgressStart(normalize, base, all);
    assert c.lines[0..] == c.lines;
    for n := 0 to |c.lines|
      invariant budget.Valid(report)
      invariant Progress(normalize, base, all, done, LinesInsertions(normalize, sources, c.file, c.lines[n..]), report.files)
      invariant n > 0 ==> AliasesFit(normalize, sources, [c])
    {
      assert c.lines[n..][1..] == c.lines[n + 1..];
      var (line, hits) := c.lines[n];
      ghost var before, part := report.files, LineInsertions(normalize, sources, c.file, line, hits);
      r := InsertCoberturaLine(report, budget, sources, c.file, line, hits);
      AliasesOfOne(normalize, sources, c);
      ResolvedNext(normalize, base, all, done, before, part, LinesInsertions(normalize, sources, c.file, c.lines[n + 1..]),
                   AliasesFit(normalize, sources, [c]), r.Success?, report.files);
      var _ :- r;
      done := done + part;
    }
    ProgressEnd(normalize, base, all, done, report.files);
    return Success(());
  }

  lemma AliasesOfOne(normalize: string -> string, sources: seq<string>, c: Class)
    requires c.lines != []
    ensures (AliasesFit(normalize, sources, [c])
        <==> AbsoluteLike(c.file) || forall s :: s in sources ==> AliasFits(normalize, s, c.file))
  {
    if AliasesFit(normalize, sources, [c]) && !AbsoluteLike(c.file) {
      assert c in [c];
    }
  }

  lemma AliasesSplit(normalize: string -> string, sources: seq<string>, a: seq<Class>, b: seq<Class>)
    ensures (AliasesFit(normalize, sources, a + b)
        <==> AliasesFit(normalize, sources, a) && AliasesFit(normalize, sources, b))
  {
    assert forall c :: c in a + b <==> c in a || c in b;
  }

  /** A report is built exactly when its candidates are within the limit, its aliases are short and its lines fit. */
  method BuildCoberturaReport(normalize: string -> string, classes: seq<Class>, sources: seq<string>)
    returns (r: Result<Files, ResourceLimit>)
    ensures r.Success? <==>
      && Candidates(classes, |sources|) <= MAX_RESOLUTION_CANDIDATES
      && AliasesFit(normalize, sources, classes)
      && Fits(normalize, map[], ClassInsertions(normalize, sources, classes))
    ensures r.Success? ==> r.value == InsertAll(normalize, map[], ClassInsertions(normalize, sources, classes))
  {
    var checked := PreflightCoberturaResolution(classes, |sources|);
    var _ :- checked;
    var report := new CoverageReport(normalize, Cobertura);
    var budget := new ParseBudget();
    ghost var all, done := ClassInsertions(normalize, sources, classes), [];
    EmptyFits();
    ProgressStart(normalize, map[], all);
    assert classes[0..] == classes;
    for n := 0 to |classes|
      invariant budget.Valid(report) && report.normalize == normalize
      invariant Progress(normalize, map[], all, done, ClassInsertions(normalize, sources, classes[n..]), report.files)
      invariant AliasesFit(normalize, sources, classes[..n])
    {
      assert classes[n..][1..] == classes[n + 1..];
      assert classes == classes[..n] + ([classes[n]] + classes[n + 1..]) && classes[..n + 1] == classes[..n] + [classes[n]];
      AliasesSplit(normalize, sources, classes[..n], [classes[n]] + classes[n + 1..]);
      AliasesSplit(normalize, sources, [classes[n]], classes[n + 1..]);
      AliasesSplit(normalize, sources, classes[..n], [classes[n]]);
      var c := classes[n];
      ghost var before, part := report.files, LinesInsertions(normalize, sources, c.file, c.lines);
      var inserted := InsertCoberturaClass(report, budget, sources, c);
      ResolvedNext(normalize, map[], all, done, before, part, ClassInsertions(normalize, sources, classes[n + 1..]),
                   AliasesFit(normalize, sources, [c]), inserted.Success?, report.files);
      var _ :- inserted;
      done := done + part;
    }
    ProgressEnd(normalize, map[], all, done, report.files);
    assert classes[..|classes|] == classes;
    return Success(report.files);
  }
}
