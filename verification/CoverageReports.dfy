/**
 Coverage reports as executable-line hit counts per normalized path (crates/analysis-crap/src/coverage.rs).
 Inserting a line keeps the greatest count; merging inserts every line of another report.
 Path normalization is a parameter.
 */
module CoverageReports {
  import opened Basics

  type Files = map<string, map<nat, nat>>

  datatype Entry = Entry(file: string, line: nat, hits: nat)

  datatype Format = Lcov | Cobertura | CoveragePy | Istanbul | Llvm | Merged

  predicate Usable(key: string, line: nat) {
    line != 0 && key != "." && key != ""
  }

  function LinesOf(files: Files, key: string): map<nat, nat> {
    if key in files then files[key] else map[]
  }

  function CountAt(lines: map<nat, nat>, line: nat): nat {
    if line in lines then lines[line] else 0
  }

  function Retain(files: Files, key: string, line: nat, hits: nat): Files {
    var lines := LinesOf(files, key);
    files[key := lines[line := Max(CountAt(lines, line), hits)]]
  }

  ghost function Insert(normalize: string -> string, files: Files, e: Entry): Files {
    if Usable(normalize(e.file), e.line) then Retain(files, normalize(e.file), e.line, e.hits) else files
  }

  ghost function InsertAll(normalize: string -> string, files: Files, entries: seq<Entry>): Files
    decreases |entries|
  {
    if entries == [] then files else InsertAll(normalize, Insert(normalize, files, entries[0]), entries[1..])
  }

  lemma {:induction false} InsertAllSplit(normalize: string -> string, files: Files, a: seq<Entry>, b: seq<Entry>)
    ensures InsertAll(normalize, files, a + b) == InsertAll(normalize, InsertAll(normalize, files, a), b)
    decreases |a|
  {
    if a == [] {
      assert a + b == b;
    } else {
      assert (a + b)[1..] == a[1..] + b;
      InsertAllSplit(normalize, Insert(normalize, files, a[0]), a[1..], b);
    }
  }

  // ----- the reference: the pointwise maximum -----

  ghost predicate Has(files: Files, key: string, line: nat) {
    key in files && line in files[key]
  }

  ghost predicate Contributes(normalize: string -> string, e: Entry, key: string, line: nat) {
    e.line == line && normalize(e.file) == key && Usable(key, line)
  }

  ghost predicate Reported(normalize: string -> string, entries: set<Entry>, key: string, line: nat) {
    exists e :: e in entries && Contributes(normalize, e, key, line)
  }

  /** The count of one cell: present when something reports it, the greatest of what is reported. */
  ghost predicate CellIsMax(normalize: string -> string, base: Files, entries: set<Entry>, files: Files,
                            key: string, line: nat)
  {
    && (Has(files, key, line) <==> Has(base, key, line) || Reported(normalize, entries, key, line))
    && (Has(files, key, line) ==>
          && (Has(base, key, line) ==> base[key][line] <= files[key][line])
          && (forall e :: e in entries && Contributes(normalize, e, key, line) ==> e.hits <= files[key][line])
          && (|| (Has(base, key, line) && base[key][line] == files[key][line])
              || exists e :: e in entries && Contributes(normalize, e, key, line) && e.hits == files[key][line]))
  }

  /** `files` is `base` with the entries added, every cell the maximum of its reports, and no other key. */
  ghost predicate PointwiseMax(normalize: string -> string, base: Files, entries: set<Entry>, files: Files) {
    && (forall key, line :: CellIsMax(normalize, base, entries, files, key, line))
    && (forall key :: key in files ==> key in base || exists line :: Has(files, key, line))
    && (forall key :: key in base ==> key in files)
  }

  lemma InsertIsMax(normalize: string -> string, base: Files, entries: set<Entry>, files: Files, e: Entry)
    requires PointwiseMax(normalize, base, entries, files)
    ensures PointwiseMax(normalize, base, entries + {e}, Insert(normalize, files, e))
  {
    var next := Insert(normalize, files, e);
    forall key, line
      ensures CellIsMax(normalize, base, entries + {e}, next, key, line)
    {
      InsertCell(normalize, base, entries, files, e, key, line);
    }
    forall key | key in next && key !in base
      ensures exists line :: Has(next, key, line)
    {
      if key in files {
        var line :| Has(files, key, line);
        assert Has(next, key, line);
      } else {
        assert Has(next, key, e.line);
      }
    }
  }

  lemma InsertCell(normalize: string -> string, base: Files, entries: set<Entry>, files: Files, e: Entry,
                   key: string, line: nat)
    requires CellIsMax(normalize, base, entries, files, key, line)
    ensures CellIsMax(normalize, base, entries + {e}, Insert(normalize, files, e), key, line)
  {
    var next := Insert(normalize, files, e);
    var all := entries + {e};
    assert e in all;
    if Contributes(normalize, e, key, line) {
      assert Has(next, key, line);
      assert Reported(normalize, all, key, line);
      if Has(files, key, line) && files[key][line] >= e.hits && !(Has(base, key, line) && base[key][line] == files[key][line]) {
        var d :| d in entries && Contributes(normalize, d, key, line) && d.hits == files[key][line];
        assert d in all;
      }
    } else {
      assert Has(next, key, line) <==> Has(files, key, line);
      assert Has(next, key, line) ==> next[key][line] == files[key][line];
      assert forall d :: d in all && Contributes(normalize, d, key, line) <==> d in entries && Contributes(normalize, d, key, line);
    }
  }

  ghost function Members(entries: seq<Entry>): set<Entry> {
    set e | e in entries
  }

  /** Inserting any list of entries in any order gives the pointwise maximum of what they report. */
  lemma {:induction false} InsertAllIsMax(normalize: string -> string, base: Files, entries: seq<Entry>)
    ensures PointwiseMax(normalize, base, Members(entries), InsertAll(normalize, base, entries))
    decreases |entries|
  {
    if entries == [] {
      assert Members(entries) == {};
    } else {
      var n := |entries| - 1;
      InsertAllIsMax(normalize, base, entries[..n]);
      InsertIsMax(normalize, base, Members(entries[..n]), InsertAll(normalize, base, entries[..n]), entries[n]);
      assert entries == entries[..n] + [entries[n]];
      InsertAllSplit(normalize, base, entries[..n], [entries[n]]);
      assert Members(entries) == Members(entries[..n]) + {entries[n]};
    }
  }

  /** The pointwise maximum is unique. */
  lemma PointwiseMaxUnique(normalize: string -> string, base: Files, entries: set<Entry>, a: Files, b: Files)
    requires PointwiseMax(normalize, base, entries, a) && PointwiseMax(normalize, base, entries, b)
    ensures a == b
  {
    forall key, line
      ensures Has(a, key, line) <==> Has(b, key, line)
      ensures Has(a, key, line) ==> a[key][line] == b[key][line]
    {
      assert CellIsMax(normalize, base, entries, a, key, line);
      assert CellIsMax(normalize, base, entries, b, key, line);
    }
    SameCells(a, b, base);
  }

  lemma SameCells(a: Files, b: Files, base: Files)
    requires forall key, line :: Has(a, key, line) <==> Has(b, key, line)
    requires forall key, line :: Has(a, key, line) && Has(b, key, line) ==> a[key][line] == b[key][line]
    requires forall key :: key in a ==> key in base || exists line :: Has(a, key, line)
    requires forall key :: key in b ==> key in base || exists line :: Has(b, key, line)
    requires forall key :: key in base ==> key in a && key in b
    ensures a == b
  {
    assert a.Keys == b.Keys;
    forall key | key in a
      ensures a[key] == b[key]
    {
      assert forall line :: line in a[key] <==> Has(a, key, line);
      assert forall line :: line in b[key] <==> Has(b, key, line);
    }
  }

  /** Shard and retry order is immaterial: entry lists with the same members give the same report. */
  lemma InsertOrderImmaterial(normalize: string -> string, base: Files, a: seq<Entry>, b: seq<Entry>)
    requires forall e :: e in a <==> e in b
    ensures InsertAll(normalize, base, a) == InsertAll(normalize, base, b)
  {
    InsertAllIsMax(normalize, base, a);
    InsertAllIsMax(normalize, base, b);
    assert Members(a) == Members(b);
    PointwiseMaxUnique(normalize, base, Members(a), InsertAll(normalize, base, a), InsertAll(normalize, base, b));
  }

  // ----- the report object -----

  ghost function LineEntries(key: string, lines: map<nat, nat>): set<Entry> {
    set line | line in lines :: Entry(key, line, lines[line])
  }

  ghost function EntriesIn(files: Files, keys: set<string>): set<Entry> {
    set key, line | key in keys && key in files && line in files[key] :: Entry(key, line, files[key][line])
  }

  ghost function EntriesOf(files: Files): set<Entry> {
    EntriesIn(files, files.Keys)
  }

  lemma LineEntriesAdd(key: string, lines: map<nat, nat>, line: nat, hits: nat)
    requires line !in lines
    ensures LineEntries(key, lines[line := hits]) == LineEntries(key, lines) + {Entry(key, line, hits)}
  {
    var next := lines[line := hits];
    forall e
      ensures e in LineEntries(key, next) <==> e in LineEntries(key, lines) + {Entry(key, line, hits)}
    {
      if e in LineEntries(key, lines) {
        assert e.line in next && next[e.line] == lines[e.line];
      }
      assert next[line] == hits;
    }
  }

  lemma EntriesInAdd(files: Files, keys: set<string>, key: string)
    requires key in files
    ensures EntriesIn(files, keys + {key}) == EntriesIn(files, keys) + LineEntries(key, files[key])
  {
  }

  class CoverageReport {
    const normalize: string -> string
    var format: Format
    var files: Files

    constructor (normalize: string -> string, format: Format)
      ensures this.normalize == normalize && this.format == format && files == map[]
    {
      this.normalize := normalize;
      this.format := format;
      files := map[];
    }

    method InsertLine(file: string, line: nat, hits: nat)
      modifies this`files
      ensures files == Insert(normalize, old(files), Entry(file, line, hits))
    {
      if line == 0 {
        return;
      }
      var key := normalize(file);
      if key == "." || key == "" {
        return;
      }
      files := Retain(files, key, line, hits);
    }

    /** Adds every line of the other report, whatever order its maps are walked in. */
    method Merge(other: CoverageReport)
      requires other != this
      modifies this
      ensures format == MergedFormat(old(format), other.format)
      ensures PointwiseMax(normalize, old(files), EntriesOf(other.files), files)
    {
      if format != other.format {
        format := Merged;
      }
      var theirs := other.files;
      var keys := theirs.Keys;
      ghost var done: set<string> := {};
      while keys != {}
        invariant format == MergedFormat(old(format), other.format)
        invariant done + keys == theirs.Keys
        invariant PointwiseMax(normalize, old(files), EntriesIn(theirs, done), files)
        decreases |keys|
      {
        var key :| key in keys;
        keys := keys - {key};
        EntriesInAdd(theirs, done, key);
        MergeLines(key, theirs[key], old(files), EntriesIn(theirs, done));
        done := done + {key};
      }
    }

    method MergeLines(key: string, lines: map<nat, nat>, ghost base: Files, ghost before: set<Entry>)
      requires PointwiseMax(normalize, base, before, files)
      modifies this`files
      ensures PointwiseMax(normalize, base, before + LineEntries(key, lines), files)
    {
      var rest := lines;
      ghost var done: map<nat, nat> := map[];
      assert before + LineEntries(key, done) == before;
      while rest != map[]
        invariant rest.Keys <= lines.Keys && done.Keys == lines.Keys - rest.Keys
        invariant forall line :: line in rest ==> rest[line] == lines[line]
        invariant forall line :: line in done ==> done[line] == lines[line]
        invariant PointwiseMax(normalize, base, before + LineEntries(key, done), files)
        decreases |rest|
      {
        var line :| line in rest;
        InsertIsMax(normalize, base, before + LineEntries(key, done), files, Entry(key, line, lines[line]));
        InsertLine(key, line, lines[line]);
        ghost var next := done[line := lines[line]];
        LineEntriesAdd(key, done, line, lines[line]);
        assert (before + LineEntries(key, next)
             == before + LineEntries(key, done) + {Entry(key, line, lines[line])});
        done := next;
        rest := rest - {line};
      }
      assert done == lines;
    }
  }

  // ----- merging canonical reports -----

  /** Every key is its own normalization, every file has a line and no line is zero. */
  ghost predicate Canonical(normalize: string -> string, files: Files) {
    forall key :: key in files ==>
      && normalize(key) == key
      && files[key] != map[]
      && (forall line :: line in files[key] ==> Usable(key, line))
  }

  function JoinLines(a: map<nat, nat>, b: map<nat, nat>): map<nat, nat> {
    map line | line in a.Keys + b.Keys ::
      Max(CountAt(a, line), CountAt(b, line))
  }

  function Join(a: Files, b: Files): Files {
    map key | key in a.Keys + b.Keys :: JoinLines(LinesOf(a, key), LinesOf(b, key))
  }

  /** Merging a canonical report is the pointwise join. */
  lemma MergeIsJoin(normalize: string -> string, a: Files, b: Files, merged: Files)
    requires Canonical(normalize, b)
    requires PointwiseMax(normalize, a, EntriesOf(b), merged)
    ensures merged == Join(a, b)
  {
    forall key, line
      ensures CellIsMax(normalize, a, EntriesOf(b), Join(a, b), key, line)
    {
      JoinCell(normalize, a, b, key, line);
    }
    forall key | key in Join(a, b) && key !in a
      ensures exists line :: Has(Join(a, b), key, line)
    {
      var line :| line in b[key];
      assert Has(Join(a, b), key, line);
    }
    PointwiseMaxUnique(normalize, a, EntriesOf(b), merged, Join(a, b));
  }

  lemma JoinCell(normalize: string -> string, a: Files, b: Files, key: string, line: nat)
    requires Canonical(normalize, b)
    ensures CellIsMax(normalize, a, EntriesOf(b), Join(a, b), key, line)
  {
    var entries := EntriesOf(b);
    if Has(b, key, line) {
      var e := Entry(key, line, b[key][line]);
      assert e in entries && Contributes(normalize, e, key, line);
    }
    forall e | e in entries && Contributes(normalize, e, key, line)
      ensures Has(b, key, line) && e.hits == b[key][line]
    {
      assert normalize(e.file) == e.file;
    }
  }

  lemma JoinLinesCommutative(a: map<nat, nat>, b: map<nat, nat>)
    ensures JoinLines(a, b) == JoinLines(b, a)
  {
  }

  lemma JoinLinesAt(a: map<nat, nat>, b: map<nat, nat>, line: nat)
    ensures CountAt(JoinLines(a, b), line) == Max(CountAt(a, line), CountAt(b, line))
  {
  }

  lemma JoinLinesAssociative(a: map<nat, nat>, b: map<nat, nat>, c: map<nat, nat>)
    ensures JoinLines(JoinLines(a, b), c) == JoinLines(a, JoinLines(b, c))
  {
    var l, r := JoinLines(JoinLines(a, b), c), JoinLines(a, JoinLines(b, c));
    assert l.Keys == r.Keys == a.Keys + b.Keys + c.Keys;
    forall line | line in l
      ensures CountAt(l, line) == CountAt(r, line)
    {
      JoinLinesAt(a, b, line);
      JoinLinesAt(b, c, line);
      JoinLinesAt(JoinLines(a, b), c, line);
      JoinLinesAt(a, JoinLines(b, c), line);
    }
    SameCounts(l, r);
  }

  lemma SameCounts(a: map<nat, nat>, b: map<nat, nat>)
    requires a.Keys == b.Keys
    requires forall line :: line in a ==> CountAt(a, line) == CountAt(b, line)
    ensures a == b
  {
    forall line | line in a
      ensures a[line] == b[line]
    {
      assert CountAt(a, line) == CountAt(b, line);
    }
  }

  lemma LinesOfJoin(a: Files, b: Files, key: string)
    ensures LinesOf(Join(a, b), key) == JoinLines(LinesOf(a, key), LinesOf(b, key))
  {
    assert key !in Join(a, b) ==> JoinLines(LinesOf(a, key), LinesOf(b, key)) == map[];
  }

  lemma LinesOfJoinTwice(a: Files, b: Files, c: Files, key: string)
    ensures LinesOf(Join(Join(a, b), c), key) == LinesOf(Join(a, Join(b, c)), key)
  {
    LinesOfJoin(a, b, key);
    LinesOfJoin(b, c, key);
    LinesOfJoin(Join(a, b), c, key);
    LinesOfJoin(a, Join(b, c), key);
    JoinLinesAssociative(LinesOf(a, key), LinesOf(b, key), LinesOf(c, key));
  }

  lemma SameLines(a: Files, b: Files)
    requires a.Keys == b.Keys
    requires forall key :: LinesOf(a, key) == LinesOf(b, key)
    ensures a == b
  {
    forall key | key in a
      ensures a[key] == b[key]
    {
      assert LinesOf(a, key) == LinesOf(b, key);
    }
  }

  /** Merging is commutative, associative and idempotent on canonical reports. */
  lemma JoinCommutative(a: Files, b: Files)
    ensures Join(a, b) == Join(b, a)
  {
    forall key
      ensures LinesOf(Join(a, b), key) == LinesOf(Join(b, a), key)
    {
      LinesOfJoin(a, b, key);
      LinesOfJoin(b, a, key);
      JoinLinesCommutative(LinesOf(a, key), LinesOf(b, key));
    }
    SameLines(Join(a, b), Join(b, a));
  }

  lemma JoinAssociative(a: Files, b: Files, c: Files)
    ensures Join(Join(a, b), c) == Join(a, Join(b, c))
  {
    SameLinesOfJoins(a, b, c, Join(Join(a, b), c), Join(a, Join(b, c)));
  }

  lemma SameLinesOfJoins(a: Files, b: Files, c: Files, l: Files, r: Files)
    requires l == Join(Join(a, b), c) && r == Join(a, Join(b, c))
    ensures l == r
  {
    assert l.Keys == r.Keys;
    forall key | key in l
      ensures l[key] == r[key]
    {
      LinesOfJoinTwice(a, b, c, key);
    }
  }

  lemma JoinIdempotent(a: Files)
    ensures Join(a, a) == a
  {
    forall key
      ensures LinesOf(Join(a, a), key) == LinesOf(a, key)
    {
      LinesOfJoin(a, a, key);
      assert JoinLines(LinesOf(a, key), LinesOf(a, key)) == LinesOf(a, key);
    }
    SameLines(Join(a, a), a);
  }

  lemma JoinCanonical(normalize: string -> string, a: Files, b: Files)
    requires Canonical(normalize, a) && Canonical(normalize, b)
    ensures Canonical(normalize, Join(a, b))
  {
    forall key | key in Join(a, b)
      ensures Join(a, b)[key] != map[]
    {
      var line :| line in LinesOf(a, key) || line in LinesOf(b, key);
      assert line in Join(a, b)[key];
    }
  }

  /** The laws of merging, stated of the merge itself: any results of merging canonical reports obey them. */
  lemma MergeLaws(normalize: string -> string, a: Files, b: Files, c: Files,
                  ab: Files, ba: Files, bc: Files, abThenC: Files, aThenBc: Files, aa: Files)
    requires Canonical(normalize, a) && Canonical(normalize, b) && Canonical(normalize, c)
    requires PointwiseMax(normalize, a, EntriesOf(b), ab) && PointwiseMax(normalize, b, EntriesOf(a), ba)
    requires PointwiseMax(normalize, b, EntriesOf(c), bc)
    requires PointwiseMax(normalize, ab, EntriesOf(c), abThenC) && PointwiseMax(normalize, a, EntriesOf(bc), aThenBc)
    requires PointwiseMax(normalize, a, EntriesOf(a), aa)
    ensures ab == ba && abThenC == aThenBc && aa == a
    ensures Canonical(normalize, ab)
  {
    MergeIsJoin(normalize, a, b, ab);
    MergeIsJoin(normalize, b, a, ba);
    MergeIsJoin(normalize, b, c, bc);
    MergeIsJoin(normalize, ab, c, abThenC);
    JoinCanonical(normalize, a, b);
    JoinCanonical(normalize, b, c);
    MergeIsJoin(normalize, a, bc, aThenBc);
    MergeIsJoin(normalize, a, a, aa);
    JoinCommutative(a, b);
    JoinAssociative(a, b, c);
    JoinIdempotent(a);
  }

  /** Reports built by insertion are canonical when normalization is idempotent on the reported paths. */
  lemma {:induction false} InsertAllCanonical(normalize: string -> string, files: Files, entries: seq<Entry>)
    requires Canonical(normalize, files)
    requires forall e :: e in entries ==> normalize(normalize(e.file)) == normalize(e.file)
    ensures Canonical(normalize, InsertAll(normalize, files, entries))
    decreases |entries|
  {
    if entries != [] {
      InsertAllCanonical(normalize, Insert(normalize, files, entries[0]), entries[1..]);
    }
  }

  /** The format of a merged report is the common format, `Merged` as soon as two differ. */
  function MergedFormat(a: Format, b: Format): Format {
    if a == b then a else Merged
  }

  lemma MergedFormatLaws(a: Format, b: Format, c: Format)
    ensures MergedFormat(a, b) == MergedFormat(b, a)
    ensures MergedFormat(MergedFormat(a, b), c) == MergedFormat(a, MergedFormat(b, c))
  {
  }
}
