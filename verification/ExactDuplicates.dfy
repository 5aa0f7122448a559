/**
 Exact duplicate detection end to end
 (crates/analysis-dry/src/lib.rs, `find_duplicates_with_budget` and `ExactOptions::find_with_hasher`).
 */
module ExactDuplicates {
  import opened Basics
  import opened Wrappers
  import opened WorkBudget
  import opened RollingHash
  import opened Sorting
  import opened Selection
  import opened WindowIndex
  import opened Regions
  import opened Candidates

  const HARD_MAX_TOTAL_WINDOWS: nat := 2_000_000
  const HARD_MAX_FINGERPRINT_BUCKETS: nat := 1_000_000
  const HARD_MAX_CANDIDATE_WORK: nat := 25_000_000

  predicate LocationContains(outer: Location, inner: Location) {
    outer.file == inner.file && outer.startToken <= inner.startToken && inner.endToken <= outer.endToken
  }

  predicate ContainedBy(candidate: Duplicate, existing: Duplicate) {
    LocationContains(existing.first, candidate.first) && LocationContains(existing.second, candidate.second)
  }

  function LocationOutputKey(l: Location): seq<int> {
    [l.file, l.startLine, l.endLine, l.startToken, l.endToken]
  }

  function OutputKey(d: Duplicate): seq<int> {
    [-(d.tokenCount as int)] + LocationOutputKey(d.first) + LocationOutputKey(d.second)
  }

  predicate DuplicateLeq(a: Duplicate, b: Duplicate) {
    LexLeq(OutputKey(a), OutputKey(b))
  }

  lemma DuplicateOrder()
    ensures TotalPreorder(DuplicateLeq) && Antisymmetric(DuplicateLeq)
  {
    KeyOrder(OutputKey, DuplicateLeq);
    forall x, y | OutputKey(x) == OutputKey(y)
      ensures x == y
    {
      var a, b := OutputKey(x), OutputKey(y);
      assert a[0] == b[0] && a[1] == b[1] && a[2] == b[2] && a[3] == b[3] && a[4] == b[4] && a[5] == b[5];
      assert a[6] == b[6] && a[7] == b[7] && a[8] == b[8] && a[9] == b[9] && a[10] == b[10];
    }
  }

  // ----- containment of reportable duplicates -----

  lemma ContainedTransitive()
    ensures Transitive(ContainedBy)
  {
  }

  /** Mutually at least as large and contained means equal: a location's lines follow from its tokens. */
  lemma ContainedLarger(files: Files, min: nat, a: Duplicate, b: Duplicate)
    requires min >= 1
    requires Reportable(files, min, a) && Reportable(files, min, b)
    requires ContainedBy(a, b) && a != b
    ensures a.tokenCount < b.tokenCount
  {
  }

  lemma SortedLargestFirst(files: Files, min: nat, groups: seq<Duplicate>)
    requires min >= 1
    requires forall g :: g in groups ==> Reportable(files, min, g)
    requires SortedBy(groups, DuplicateLeq)
    requires forall i, j :: 0 <= i < j < |groups| ==> groups[i] != groups[j]
    ensures LargestFirst(groups, ContainedBy)
  {
    forall i, j | 0 <= i < j < |groups|
      ensures !ContainedBy(groups[i], groups[j])
    {
      assert DuplicateLeq(groups[i], groups[j]);
      assert groups[i].tokenCount >= groups[j].tokenCount;
      if ContainedBy(groups[i], groups[j]) {
        ContainedLarger(files, min, groups[i], groups[j]);
      }
    }
  }

  // ----- what the search can find -----

  /** The windows before `o` that share its fingerprint. */
  ghost function Earlier(files: Files, min: nat, hasher: string -> Fingerprint, o: Occurrence): set<Occurrence> {
    set p | p in AllWindows(files, min) && Before(p, o) && Key(files, min, hasher, p) == Key(files, min, hasher, o)
  }

  /** Among the first `cap` windows with its fingerprint. */
  ghost predicate Listed(files: Files, min: nat, hasher: string -> Fingerprint, cap: nat, o: Occurrence) {
    IsWindow(files, o, min) && |Earlier(files, min, hasher, o)| < cap
  }

  /** A maximal region that holds two listed windows at the same offset. */
  ghost predicate Findable(files: Files, min: nat, hasher: string -> Fingerprint, cap: nat, r: Region) {
    && Maximal(files, min, r)
    && exists left, right ::
         Contains(r, min, left, right) && Listed(files, min, hasher, cap, left) && Listed(files, min, hasher, cap, right)
  }

  /** The regions are exactly the findable ones. */
  ghost predicate FindsAll(files: Files, min: nat, hasher: string -> Fingerprint, cap: nat, found: set<Region>) {
    forall r :: r in found <==> Findable(files, min, hasher, cap, r)
  }

  ghost function WindowSet(s: seq<Occurrence>): set<Occurrence> {
    set p | p in s
  }

  lemma {:induction false} PrefixSize(bucket: seq<Occurrence>, i: nat)
    requires Ordered(bucket) && i <= |bucket|
    ensures |WindowSet(bucket[..i])| == i
  {
    if i > 0 {
      var o := bucket[i - 1];
      PrefixSize(bucket, i - 1);
      assert bucket[..i] == bucket[..i - 1] + [o];
      assert o !in bucket[..i - 1] by {
        assert forall k :: 0 <= k < i - 1 ==> Before(bucket[k], o);
      }
      assert WindowSet(bucket[..i]) == WindowSet(bucket[..i - 1]) + {o};
    }
  }

  /** The position of a window in its bucket is the number of earlier windows with its fingerprint. */
  lemma EarlierSize(files: Files, min: nat, hasher: string -> Fingerprint, bucket: seq<Occurrence>, i: nat)
    requires Ordered(bucket) && i < |bucket|
    requires bucket == Bucket(AllWindows(files, min), KeyOf(files, min, hasher), Key(files, min, hasher, bucket[i]))
    ensures |Earlier(files, min, hasher, bucket[i])| == i
  {
    var o := bucket[i];
    BucketMembers(AllWindows(files, min), KeyOf(files, min, hasher), Key(files, min, hasher, o));
    PrefixSize(bucket, i);
    forall p
      ensures p in Earlier(files, min, hasher, o) <==> p in bucket[..i]
    {
      if p in bucket[..i] {
        assert p in bucket;
      }
      if p in Earlier(files, min, hasher, o) {
        assert p in bucket;
        var k :| 0 <= k < |bucket| && bucket[k] == p;
        assert k < i && bucket[..i][k] == p;
      }
    }
    assert Earlier(files, min, hasher, o) == WindowSet(bucket[..i]);
  }

  /** The index files exactly the listed windows. */
  lemma ListedIffFiled(files: Files, min: nat, hasher: string -> Fingerprint, cap: nat,
                       windows: map<Fingerprint, seq<Occurrence>>, o: Occurrence)
    requires Indexes(windows, AllWindows(files, min), KeyOf(files, min, hasher), cap)
    ensures (Listed(files, min, hasher, cap, o) <==>
      Key(files, min, hasher, o) in windows && o in windows[Key(files, min, hasher, o)])
  {
    var all, key := AllWindows(files, min), KeyOf(files, min, hasher);
    var fp := Key(files, min, hasher, o);
    var bucket := Bucket(all, key, fp);
    WindowsMembers(files, min, |files|);
    WindowsOrdered(files, min, |files|);
    BucketMembers(all, key, fp);
    BucketOrdered(all, key, fp);
    if o in bucket {
      var i :| 0 <= i < |bucket| && bucket[i] == o;
      EarlierSize(files, min, hasher, bucket, i);
      assert fp in Fingerprints(all, key);
      FiledAt(bucket, i, cap);
    }
  }

  lemma FiledAt(bucket: seq<Occurrence>, i: nat, cap: nat)
    requires Ordered(bucket) && i < |bucket|
    ensures bucket[i] in Capped(bucket, cap) <==> i < cap
  {
    var filed := Capped(bucket, cap);
    if bucket[i] in filed {
      var k :| 0 <= k < |filed| && filed[k] == bucket[i];
      assert bucket[k] == bucket[i] && k == i;
    }
    if i < cap {
      assert filed[i] == bucket[i];
    }
  }

  /** When every pair of every bucket has been handled, exactly the findable regions have been found. */
  lemma FoundExactly(files: Files, min: nat, hasher: string -> Fingerprint, cap: nat,
                     windows: map<Fingerprint, seq<Occurrence>>, found: set<Region>)
    requires min >= 1
    requires Indexes(windows, AllWindows(files, min), KeyOf(files, min, hasher), cap)
    requires forall fp :: fp in windows ==> BucketDone(files, min, found, windows[fp])
    requires Traced(min, windows, found)
    requires AllMaximal(files, min, found)
    ensures FindsAll(files, min, hasher, cap, found)
  {
    forall r | r in found
      ensures Findable(files, min, hasher, cap, r)
    {
      FoundFindable(files, min, hasher, cap, windows, r);
    }
    forall r | Findable(files, min, hasher, cap, r)
      ensures r in found
    {
      var left, right :| (&& Contains(r, min, left, right)
                          && Listed(files, min, hasher, cap, left) && Listed(files, min, hasher, cap, right));
      FindableFound(files, min, hasher, cap, windows, found, r, left, right);
    }
  }

  lemma FoundFindable(files: Files, min: nat, hasher: string -> Fingerprint, cap: nat,
                      windows: map<Fingerprint, seq<Occurrence>>, r: Region)
    requires Indexes(windows, AllWindows(files, min), KeyOf(files, min, hasher), cap)
    requires FromIndex(min, windows, r) && Maximal(files, min, r)
    ensures Findable(files, min, hasher, cap, r)
  {
    var fp :| fp in windows && FromPair(min, windows[fp], r);
    var i, j :| 0 <= i < j < |windows[fp]| && Contains(r, min, windows[fp][i], windows[fp][j]);
    FiledListed(files, min, hasher, cap, windows, fp, windows[fp][i]);
    FiledListed(files, min, hasher, cap, windows, fp, windows[fp][j]);
  }

  lemma FiledListed(files: Files, min: nat, hasher: string -> Fingerprint, cap: nat,
                    windows: map<Fingerprint, seq<Occurrence>>, fp: Fingerprint, o: Occurrence)
    requires Indexes(windows, AllWindows(files, min), KeyOf(files, min, hasher), cap)
    requires fp in windows && o in windows[fp]
    ensures Listed(files, min, hasher, cap, o)
  {
    var all, key := AllWindows(files, min), KeyOf(files, min, hasher);
    BucketMembers(all, key, fp);
    assert o in Bucket(all, key, fp);
    ListedIffFiled(files, min, hasher, cap, windows, o);
  }

  lemma FindableFound(files: Files, min: nat, hasher: string -> Fingerprint, cap: nat,
                      windows: map<Fingerprint, seq<Occurrence>>, found: set<Region>, r: Region,
                      left: Occurrence, right: Occurrence)
    requires min >= 1 && Maximal(files, min, r) && Contains(r, min, left, right)
    requires Listed(files, min, hasher, cap, left) && Listed(files, min, hasher, cap, right)
    requires Indexes(windows, AllWindows(files, min), KeyOf(files, min, hasher), cap)
    requires forall fp :: fp in windows ==> BucketDone(files, min, found, windows[fp])
    requires AllMaximal(files, min, found)
    ensures r in found
  {
    ContainedEqual(files, min, r, left, right);
    EqualWindowsEqualKeys(files, min, hasher, left, right);
    ListedIffFiled(files, min, hasher, cap, windows, left);
    ListedIffFiled(files, min, hasher, cap, windows, right);
    var fp := Key(files, min, hasher, left);
    assert fp == KeyOf(files, min, hasher)(left) == KeyOf(files, min, hasher)(right);
    IndexedBuckets(files, min, hasher, cap, windows, fp);
    InOrder(windows[fp], left, right);
    var i, j :| 0 <= i < j < |windows[fp]| && windows[fp][i] == left && windows[fp][j] == right;
    assert PairDone(files, min, found, windows[fp][i], windows[fp][j]);
    var q :| q in found && Contains(q, min, left, right);
    MaximalUnique(files, min, q, r, left, right);
  }

  /** Windows at the same offset of an equal region are equal. */
  lemma ContainedEqual(files: Files, min: nat, r: Region, left: Occurrence, right: Occurrence)
    requires Maximal(files, min, r) && Contains(r, min, left, right)
    ensures PairEqual(files, min, left, right) && Before(left, right)
  {
    EqualPart(files[left.file], r.leftStart, files[right.file], r.rightStart, r.size, left.start - r.leftStart, min);
  }

  lemma EqualPart(left: seq<TokenRecord>, i: nat, right: seq<TokenRecord>, j: nat, size: nat, offset: nat, part: nat)
    requires EqualValues(left, i, right, j, size) && offset + part <= size
    ensures EqualValues(left, i + offset, right, j + offset, part)
  {
    forall k | i + offset <= k < i + offset + part
      ensures left[k].value == right[k - (i + offset) + (j + offset)].value
    {
      assert left[k].value == right[k - i + j].value;
    }
  }

  /** No fingerprint has more windows than the occurrence cap. */
  ghost predicate Uncapped(files: Files, min: nat, hasher: string -> Fingerprint, cap: nat) {
    forall fp :: |Bucket(AllWindows(files, min), KeyOf(files, min, hasher), fp)| <= cap
  }

  /** When no bucket is capped, every maximal region of at least `min` tokens is findable. */
  lemma AllRegionsFindable(files: Files, min: nat, hasher: string -> Fingerprint, cap: nat, region: Region)
    requires Uncapped(files, min, hasher, cap)
    ensures Findable(files, min, hasher, cap, region) <==> Maximal(files, min, region)
  {
    if Maximal(files, min, region) {
      var left, right := Occurrence(region.leftFile, region.leftStart), Occurrence(region.rightFile, region.rightStart);
      MaximalStartsPair(files, min, region);
      UncappedListed(files, min, hasher, cap, left);
      UncappedListed(files, min, hasher, cap, right);
    }
  }

  lemma UncappedListed(files: Files, min: nat, hasher: string -> Fingerprint, cap: nat, o: Occurrence)
    requires Uncapped(files, min, hasher, cap) && IsWindow(files, o, min)
    ensures Listed(files, min, hasher, cap, o)
  {
    var all, key := AllWindows(files, min), KeyOf(files, min, hasher);
    var bucket := Bucket(all, key, key(o));
    WindowsMembers(files, min, |files|);
    WindowsOrdered(files, min, |files|);
    BucketMembers(all, key, key(o));
    BucketOrdered(all, key, key(o));
    var i :| 0 <= i < |bucket| && bucket[i] == o;
    EarlierSize(files, min, hasher, bucket, i);
  }

  lemma InOrder(bucket: seq<Occurrence>, left: Occurrence, right: Occurrence)
    requires Ordered(bucket) && left in bucket && right in bucket && Before(left, right)
    ensures exists i, j :: 0 <= i < j < |bucket| && bucket[i] == left && bucket[j] == right
  {
    var i :| 0 <= i < |bucket| && bucket[i] == left;
    var j :| 0 <= j < |bucket| && bucket[j] == right;
    assert i < j;
  }

  lemma IndexedBuckets(files: Files, min: nat, hasher: string -> Fingerprint, cap: nat,
                       windows: map<Fingerprint, seq<Occurrence>>, fp: Fingerprint)
    requires Indexes(windows, AllWindows(files, min), KeyOf(files, min, hasher), cap) && fp in windows
    ensures Ordered(windows[fp])
    ensures forall o :: o in windows[fp] ==> IsWindow(files, o, min)
  {
    var all, key := AllWindows(files, min), KeyOf(files, min, hasher);
    WindowsMembers(files, min, |files|);
    WindowsOrdered(files, min, |files|);
    BucketMembers(all, key, fp);
    BucketOrdered(all, key, fp);
    forall o | o in windows[fp]
      ensures o in Bucket(all, key, fp)
    {
    }
  }

  // ----- the report -----

  ghost predicate HasToken(l: Location, file: nat, token: nat) {
    l.file == file && l.startToken <= token < l.endToken
  }

  /** Every token position of the one location is one of the other. */
  ghost predicate Within(inner: Location, outer: Location) {
    forall file, token :: HasToken(inner, file, token) ==> HasToken(outer, file, token)
  }

  /** Both locations lie within those of the other duplicate. */
  ghost predicate Inside(d: Duplicate, other: Duplicate) {
    Within(d.first, other.first) && Within(d.second, other.second)
  }

  lemma LocationWithin(inner: Location, outer: Location)
    requires inner.startToken < inner.endToken
    ensures LocationContains(outer, inner) <==> Within(inner, outer)
  {
    assert HasToken(inner, inner.file, inner.startToken) && HasToken(inner, inner.file, inner.endToken - 1);
  }

  lemma ContainedIsInside(files: Files, found: set<Region>, d: Duplicate, other: Duplicate)
    requires (forall r :: r in found ==> InBounds(files, r)) && Shown(files, found, d)
    ensures ContainedBy(d, other) <==> Inside(d, other)
  {
    LocationWithin(d.first, other.first);
    LocationWithin(d.second, other.second);
  }

  ghost predicate LocationFirst(a: Location, b: Location) {
    || a.file < b.file
    || (a.file == b.file
        && (|| a.startLine < b.startLine
            || (a.startLine == b.startLine
                && (|| a.endLine < b.endLine
                    || (a.endLine == b.endLine
                        && (a.startToken < b.startToken || (a.startToken == b.startToken && a.endToken < b.endToken)))))))
  }

  /** The output order: more tokens first, then by the first and the second location. */
  ghost predicate ComesFirst(a: Duplicate, b: Duplicate) {
    || a.tokenCount > b.tokenCount
    || (a.tokenCount == b.tokenCount
        && (LocationFirst(a.first, b.first) || (a.first == b.first && LocationFirst(a.second, b.second))))
  }

  lemma LexCons(x: int, a: seq<int>, y: int, b: seq<int>)
    ensures LexLeq([x] + a, [y] + b) <==> x < y || (x == y && LexLeq(a, b))
  {
    assert ([x] + a)[1..] == a && ([y] + b)[1..] == b;
  }

  lemma LocationLex(a: Location, b: Location, k: seq<int>, l: seq<int>)
    ensures (LexLeq(LocationOutputKey(a) + k, LocationOutputKey(b) + l) <==>
      LocationFirst(a, b) || (a == b && LexLeq(k, l)))
  {
    var a4, b4 := [a.endToken] + k, [b.endToken] + l;
    var a3, b3 := [a.startToken] + a4, [b.startToken] + b4;
    var a2, b2 := [a.endLine] + a3, [b.endLine] + b3;
    var a1, b1 := [a.startLine] + a2, [b.startLine] + b2;
    assert LocationOutputKey(a) + k == [a.file] + a1 && LocationOutputKey(b) + l == [b.file] + b1;
    LexCons(a.endToken, k, b.endToken, l);
    LexCons(a.startToken, a4, b.startToken, b4);
    LexCons(a.endLine, a3, b.endLine, b3);
    LexCons(a.startLine, a2, b.startLine, b2);
    LexCons(a.file, a1, b.file, b1);
  }

  lemma OutputOrder(a: Duplicate, b: Duplicate)
    ensures DuplicateLeq(a, b) <==> a == b || ComesFirst(a, b)
  {
    var k, l := LocationOutputKey(a.second), LocationOutputKey(b.second);
    LocationLex(a.second, b.second, [], []);
    assert k + [] == k && l + [] == l;
    LocationLex(a.first, b.first, k, l);
    var m, n := LocationOutputKey(a.first) + k, LocationOutputKey(b.first) + l;
    LexCons(-(a.tokenCount as int), m, -(b.tokenCount as int), n);
    assert OutputKey(a) == [-(a.tokenCount as int)] + m && OutputKey(b) == [-(b.tokenCount as int)] + n;
  }

  /** The duplicate shows the region: its size, and for both sides the file, the token span and the lines of its ends. */
  ghost predicate Shows(files: Files, r: Region, d: Duplicate)
    requires InBounds(files, r)
  {
    && d.tokenCount == r.size
    && d.first.file == r.leftFile && d.first.startToken == r.leftStart && d.first.endToken == r.leftStart + r.size
    && d.first.startLine == files[r.leftFile][r.leftStart].line
    && d.first.endLine == files[r.leftFile][r.leftStart + r.size - 1].line
    && d.second.file == r.rightFile && d.second.startToken == r.rightStart && d.second.endToken == r.rightStart + r.size
    && d.second.startLine == files[r.rightFile][r.rightStart].line
    && d.second.endLine == files[r.rightFile][r.rightStart + r.size - 1].line
  }

  /** The duplicate shows a found region that does not overlap itself. */
  ghost predicate Shown(files: Files, found: set<Region>, d: Duplicate)
    requires forall r :: r in found ==> InBounds(files, r)
  {
    exists r :: r in found && !SelfOverlapping(r) && Shows(files, r, d)
  }

  /** Shown, and inside no other duplicate shown. */
  ghost predicate MaximalReport(files: Files, found: set<Region>, d: Duplicate)
    requires forall r :: r in found ==> InBounds(files, r)
  {
    Shown(files, found, d) && forall h :: Shown(files, found, h) && h != d ==> !Inside(d, h)
  }

  /** The report is exactly the first `maxGroups` maximal duplicates of the found regions, in output order. */
  ghost predicate Complete(files: Files, found: set<Region>, maxGroups: nat, groups: seq<Duplicate>)
    requires forall r :: r in found ==> InBounds(files, r)
  {
    && |groups| <= maxGroups
    && (forall i, j :: 0 <= i < j < |groups| ==> ComesFirst(groups[i], groups[j]))
    && (forall g :: g in groups ==> MaximalReport(files, found, g))
    && (forall d :: MaximalReport(files, found, d) ==>
          d in groups || (|groups| == maxGroups && forall g :: g in groups ==> ComesFirst(g, d)))
    && (|groups| < maxGroups ==>
          forall d :: Shown(files, found, d) ==> exists g :: g in groups && (g == d || Inside(d, g)))
  }

  /** What every successful run reports, whether or not some bucket was capped. */
  ghost predicate Sound(files: Files, min: nat, maxGroups: nat, groups: seq<Duplicate>)
    requires min >= 1
  {
    && |groups| <= maxGroups
    && (forall g :: g in groups ==> Reportable(files, min, g))
    && SortedBy(groups, DuplicateLeq)
    && (forall i, j :: 0 <= i < |groups| && 0 <= j < |groups| && i != j ==>
          groups[i] != groups[j] && !ContainedBy(groups[i], groups[j]))
  }

  ghost predicate Uncontained(files: Files, found: set<Region>, d: Duplicate)
    requires forall r :: r in found ==> InBounds(files, r)
  {
    Shown(files, found, d) && forall h :: Shown(files, found, h) && h != d ==> !ContainedBy(d, h)
  }

  /** The same in terms of the comparisons of the program. */
  ghost predicate Selected(files: Files, found: set<Region>, maxGroups: nat, groups: seq<Duplicate>)
    requires forall r :: r in found ==> InBounds(files, r)
  {
    && (forall g :: g in groups ==> Uncontained(files, found, g))
    && (forall d :: Uncontained(files, found, d) ==>
          d in groups || (|groups| == maxGroups && forall g :: g in groups ==> DuplicateLeq(g, d)))
    && (|groups| < maxGroups ==>
          forall d :: Shown(files, found, d) ==> exists g :: g in groups && (g == d || ContainedBy(d, g)))
  }

  lemma SelectedMeans(files: Files, min: nat, found: set<Region>, maxGroups: nat, groups: seq<Duplicate>)
    requires min >= 1 && AllMaximal(files, min, found)
    requires Sound(files, min, maxGroups, groups) && Selected(files, found, maxGroups, groups)
    ensures Complete(files, found, maxGroups, groups)
  {
    forall a, b
      ensures DuplicateLeq(a, b) <==> a == b || ComesFirst(a, b)
    {
      OutputOrder(a, b);
    }
    forall d, h | Shown(files, found, d)
      ensures ContainedBy(d, h) <==> Inside(d, h)
    {
      ContainedIsInside(files, found, d, h);
    }
  }

  /** The sorted list of all candidates. */
  ghost predicate Lists(files: Files, listed: seq<Duplicate>, found: set<Region>)
    requires forall r :: r in found ==> InBounds(files, r)
  {
    && SortedBy(listed, DuplicateLeq)
    && (forall i, j :: 0 <= i < j < |listed| ==> listed[i] != listed[j])
    && (forall d :: d in listed <==> Shown(files, found, d))
  }

  /** The map's values, each once. */
  ghost predicate ValuesOf(values: seq<Duplicate>, candidates: map<CandidateKey, Duplicate>) {
    && (forall k :: k in candidates ==> candidates[k] in values)
    && (forall d :: d in values ==> CandidateKeyOf(d) in candidates && candidates[CandidateKeyOf(d)] == d)
    && (forall i, j :: 0 <= i < j < |values| ==> values[i] != values[j])
  }

  method CandidateValues(candidates: map<CandidateKey, Duplicate>) returns (values: seq<Duplicate>)
    requires forall k :: k in candidates ==> CandidateKeyOf(candidates[k]) == k
    ensures ValuesOf(values, candidates)
  {
    var pending := candidates.Keys;
    values := [];
    while pending != {}
      invariant pending <= candidates.Keys
      invariant forall k :: k in candidates.Keys - pending ==> candidates[k] in values
      invariant forall d :: d in values ==> CandidateKeyOf(d) in candidates.Keys - pending && candidates[CandidateKeyOf(d)] == d
      invariant forall i, j :: 0 <= i < j < |values| ==> values[i] != values[j]
      decreases pending
    {
      var k :| k in pending;
      pending := pending - {k};
      values := values + [candidates[k]];
    }
  }

  method SortedCandidates(files: Files, candidates: map<CandidateKey, Duplicate>, ghost found: set<Region>)
    returns (listed: seq<Duplicate>)
    requires forall r :: r in found ==> InBounds(files, r)
    requires CandidatesExact(files, candidates, found)
    ensures Lists(files, listed, found)
  {
    forall k | k in candidates
      ensures CandidateKeyOf(candidates[k]) == k
    {
      KeyOfCandidate(files, candidates, found, k);
    }
    var values := CandidateValues(candidates);
    DuplicateOrder();
    SortCorrect(values, DuplicateLeq);
    listed := Sort(values, DuplicateLeq);
    DistinctPermutation(values, listed);
    forall d
      ensures d in values <==> Shown(files, found, d)
    {
      CandidateShowsRegion(files, candidates, found, values, d);
    }
  }

  lemma CandidateShowsRegion(files: Files, candidates: map<CandidateKey, Duplicate>, found: set<Region>,
                             values: seq<Duplicate>, d: Duplicate)
    requires forall r :: r in found ==> InBounds(files, r)
    requires CandidatesExact(files, candidates, found) && ValuesOf(values, candidates)
    ensures d in values <==> Shown(files, found, d)
  {
    if d in values {
      var r :| r in found && !SelfOverlapping(r) && RegionKey(r) == CandidateKeyOf(d);
      ShowsOnly(files, r, d);
    }
    if Shown(files, found, d) {
      var r :| r in found && !SelfOverlapping(r) && Shows(files, r, d);
      ShowsOnly(files, r, d);
      assert RegionKey(r) in candidates;
    }
  }

  lemma ShowsOnly(files: Files, r: Region, d: Duplicate)
    requires InBounds(files, r)
    ensures Shows(files, r, d) <==> d == DuplicateOf(files, r)
  {
  }

  lemma KeyOfCandidate(files: Files, candidates: map<CandidateKey, Duplicate>, found: set<Region>, k: CandidateKey)
    requires forall r :: r in found ==> InBounds(files, r)
    requires CandidatesExact(files, candidates, found) && k in candidates
    ensures CandidateKeyOf(candidates[k]) == k
  {
    var r :| r in found && !SelfOverlapping(r) && RegionKey(r) == k;
  }

  lemma DistinctPermutation<T>(a: seq<T>, b: seq<T>)
    requires multiset(a) == multiset(b)
    requires forall i, j :: 0 <= i < j < |a| ==> a[i] != a[j]
    ensures forall i, j :: 0 <= i < j < |b| ==> b[i] != b[j]
  {
    forall i, j | 0 <= i < j < |b|
      ensures b[i] != b[j]
    {
      if b[i] == b[j] {
        TwoOccurrences(b, i, j);
        OneOccurrence(a, b[i]);
      }
    }
  }

  lemma TwoOccurrences<T>(s: seq<T>, i: nat, j: nat)
    requires i < j < |s| && s[i] == s[j]
    ensures multiset(s)[s[i]] >= 2
  {
    assert s == s[..i] + [s[i]] + s[i + 1..j] + [s[j]] + s[j + 1..];
  }

  lemma {:induction false} OneOccurrence<T>(s: seq<T>, x: T)
    requires forall i, j :: 0 <= i < j < |s| ==> s[i] != s[j]
    ensures multiset(s)[x] <= 1
  {
    if s != [] {
      OneOccurrence(s[1..], x);
      assert s == [s[0]] + s[1..];
      if s[0] == x {
        assert x !in s[1..];
      }
    }
  }

  /** Greedy selection from the complete candidate list gives the report. */
  lemma SelectionReports(files: Files, min: nat, maxGroups: nat, listed: seq<Duplicate>, found: set<Region>)
    requires min >= 1 && maxGroups > 0
    requires AllMaximal(files, min, found)
    requires Lists(files, listed, found)
    ensures var groups := Take(Greedy(listed, ContainedBy), maxGroups);
            Sound(files, min, maxGroups, groups) && Selected(files, found, maxGroups, groups)
  {
    var selected := Greedy(listed, ContainedBy);
    var groups := Take(selected, maxGroups);
    forall d | d in listed
      ensures Reportable(files, min, d)
    {
      ShownReportable(files, min, found, d);
    }
    SortedLargestFirst(files, min, listed);
    ContainedTransitive();
    GreedyIsMaximals(listed, |listed|, ContainedBy);
    assert listed[..|listed|] == listed;
    assert selected == Maximals(listed, listed, ContainedBy);
    MaximalsMembers(listed, listed, ContainedBy);
    MaximalsOrdered(listed, listed, ContainedBy, StrictlyBefore) by {
      DuplicateOrder();
    }
    SelectedSound(files, min, maxGroups, listed);
    forall d | d in listed
      ensures exists g :: g in selected && (g == d || ContainedBy(d, g))
    {
      GreedyCovers(listed, d, ContainedBy);
    }
    SelectedComplete(files, found, maxGroups, listed, selected);
  }

  lemma ShownReportable(files: Files, min: nat, found: set<Region>, d: Duplicate)
    requires min >= 1 && AllMaximal(files, min, found) && Shown(files, found, d)
    ensures Reportable(files, min, d)
  {
    var r :| r in found && !SelfOverlapping(r) && Shows(files, r, d);
    assert d == DuplicateOf(files, r);
  }

  predicate StrictlyBefore(a: Duplicate, b: Duplicate) {
    a != b && DuplicateLeq(a, b)
  }

  lemma SelectedSound(files: Files, min: nat, maxGroups: nat, listed: seq<Duplicate>)
    requires min >= 1
    requires forall d :: d in listed ==> Reportable(files, min, d)
    requires var m := Maximals(listed, listed, ContainedBy);
             && SortedBy(m, StrictlyBefore)
             && forall g :: g in m <==> g in listed && IsMaximal(listed, g, ContainedBy)
    ensures Sound(files, min, maxGroups, Take(Maximals(listed, listed, ContainedBy), maxGroups))
  {
    var m := Maximals(listed, listed, ContainedBy);
    var groups := Take(m, maxGroups);
    forall i | 0 <= i < |groups|
      ensures groups[i] == m[i] && groups[i] in m
    {
    }
    forall i, j | 0 <= i < |groups| && 0 <= j < |groups| && i != j
      ensures groups[i] != groups[j] && !ContainedBy(groups[i], groups[j])
    {
      assert groups[i] in m && groups[j] in m;
      if i < j {
        assert StrictlyBefore(m[i], m[j]);
      } else {
        assert StrictlyBefore(m[j], m[i]);
      }
    }
    forall i, j | 0 <= i < j < |groups|
      ensures DuplicateLeq(groups[i], groups[j])
    {
      assert StrictlyBefore(m[i], m[j]);
    }
  }

  /** Every listed duplicate is in `m` or inside a member of it. */
  ghost predicate Covers(m: seq<Duplicate>, listed: seq<Duplicate>) {
    forall d :: d in listed ==> exists g :: g in m && (g == d || ContainedBy(d, g))
  }

  lemma SelectedComplete(files: Files, found: set<Region>, maxGroups: nat, listed: seq<Duplicate>, m: seq<Duplicate>)
    requires forall r :: r in found ==> InBounds(files, r)
    requires forall d :: d in listed <==> Shown(files, found, d)
    requires SortedBy(m, StrictlyBefore) && Covers(m, listed)
    requires forall g :: g in m <==> g in listed && IsMaximal(listed, g, ContainedBy)
    ensures Selected(files, found, maxGroups, Take(m, maxGroups))
  {
    var groups := Take(m, maxGroups);
    TakeSubset(m, maxGroups);
    ListedMaximalReports(files, found, listed, m);
    forall d | d in m && d !in groups
      ensures |groups| == maxGroups && forall g :: g in groups ==> DuplicateLeq(g, d)
    {
      TakeBefore(m, maxGroups, d);
    }
  }

  lemma ListedMaximalReports(files: Files, found: set<Region>, listed: seq<Duplicate>, m: seq<Duplicate>)
    requires forall r :: r in found ==> InBounds(files, r)
    requires forall d :: d in listed <==> Shown(files, found, d)
    requires forall g :: g in m <==> g in listed && IsMaximal(listed, g, ContainedBy)
    ensures forall d :: d in m <==> Uncontained(files, found, d)
  {
  }

  lemma TakeSubset(m: seq<Duplicate>, limit: nat)
    ensures forall g :: g in Take(m, limit) ==> g in m
  {
  }

  lemma TakeBefore(m: seq<Duplicate>, limit: nat, d: Duplicate)
    requires SortedBy(m, StrictlyBefore) && d in m && d !in Take(m, limit)
    ensures |Take(m, limit)| == limit && forall g :: g in Take(m, limit) ==> DuplicateLeq(g, d)
  {
    var groups := Take(m, limit);
    var k :| 0 <= k < |m| && m[k] == d;
    assert forall i :: 0 <= i < |groups| ==> m[i] == groups[i] && groups[i] in groups;
    assert k >= |groups|;
    forall g | g in groups
      ensures DuplicateLeq(g, d)
    {
      var i :| 0 <= i < |groups| && groups[i] == g;
      assert StrictlyBefore(m[i], m[k]);
    }
  }

  function ValidateLimits(min: nat, maxGroups: nat, cap: nat, budget: Budget): (r: Result<(), DryError>)
    ensures r.Success? <==>
      && min >= MIN_TOKENS && maxGroups > 0 && cap >= 2
      && 0 < budget.maxTotalWindows <= HARD_MAX_TOTAL_WINDOWS
      && 0 < budget.maxFingerprintBuckets <= HARD_MAX_FINGERPRINT_BUCKETS
      && 0 < budget.maxCandidateWork <= HARD_MAX_CANDIDATE_WORK
  {
    if min < MIN_TOKENS then
      Failure(MinTokens(min))
    else if maxGroups == 0 then
      Failure(MaxGroups)
    else if cap < 2 then
      Failure(MaxOccurrencesPerWindow(cap))
    else
      var _ :- ValidateConfigured(TotalWindows, budget.maxTotalWindows, HARD_MAX_TOTAL_WINDOWS);
      var _ :- ValidateConfigured(FingerprintBuckets, budget.maxFingerprintBuckets, HARD_MAX_FINGERPRINT_BUCKETS);
      ValidateConfigured(CandidateWork, budget.maxCandidateWork, HARD_MAX_CANDIDATE_WORK)
  }

  function ValidateConfigured(kind: Kind, provided: nat, hardLimit: nat): Result<(), DryError> {
    if provided == 0 || provided > hardLimit then Failure(InvalidWorkBudget(kind, provided, hardLimit)) else Success(())
  }

  // ----- when the work budget suffices -----

  ghost function Longest(files: Files): nat {
    if files == [] then 0 else Max(Longest(files[..|files| - 1]), |files[|files| - 1]|)
  }

  lemma {:induction false} LongestBounds(files: Files)
    ensures forall i :: 0 <= i < |files| ==> |files[i]| <= Longest(files)
  {
    if files != [] {
      LongestBounds(files[..|files| - 1]);
    }
  }

  lemma IndexedReady(files: Files, min: nat, hasher: string -> Fingerprint, cap: nat,
                     windows: map<Fingerprint, seq<Occurrence>>, fp: Fingerprint)
    requires Indexes(windows, AllWindows(files, min), KeyOf(files, min, hasher), cap) && fp in windows
    ensures BucketReady(files, min, cap, 1 + Longest(files), windows[fp])
  {
    LongestBounds(files);
    IndexedBuckets(files, min, hasher, cap, windows, fp);
  }

  /** Every pair of every capped bucket compares at most the longest file once. */
  ghost function WorkBound(files: Files, min: nat, hasher: string -> Fingerprint, cap: nat): nat {
    |Fingerprints(AllWindows(files, min), KeyOf(files, min, hasher))| * (cap * cap * (1 + Longest(files)))
  }

  lemma BoundedWork(files: Files, min: nat, hasher: string -> Fingerprint, cap: nat)
    ensures var fingerprints := Fingerprints(AllWindows(files, min), KeyOf(files, min, hasher));
            WorkBound(files, min, hasher, cap) == Repeated(|fingerprints|, BucketWork(cap, 1 + Longest(files)))
  {
    RepeatedIs(cap, cap);
    RepeatedIs(cap * cap, 1 + Longest(files));
    RepeatedIs(|Fingerprints(AllWindows(files, min), KeyOf(files, min, hasher))|, BucketWork(cap, 1 + Longest(files)));
  }

  /** The error names a budget that is really too small. */
  ghost predicate Exceeds(files: Files, min: nat, cap: nat, budget: Budget, hasher: string -> Fingerprint, error: DryError) {
    var all, key := AllWindows(files, min), KeyOf(files, min, hasher);
    && error.WorkBudgetExceeded?
    && match error.kind
       case TotalWindows => |all| > budget.maxTotalWindows
       case FingerprintBuckets => |Fingerprints(all, key)| > budget.maxFingerprintBuckets
       case CandidateWork => WorkBound(files, min, hasher, cap) > budget.maxCandidateWork
  }

  /** The search over an index that files exactly the listed windows finds exactly the findable regions. */
  method SearchIndex(files: Files, min: nat, cap: nat, maxCandidateWork: nat, windows: map<Fingerprint, seq<Occurrence>>,
                     ghost hasher: string -> Fingerprint)
    returns (r: Result<map<CandidateKey, Duplicate>, DryError>, ghost found: set<Region>)
    requires min >= 1 && Indexes(windows, AllWindows(files, min), KeyOf(files, min, hasher), cap)
    ensures AllMaximal(files, min, found)
    ensures r.Success? ==> CandidatesExact(files, r.value, found) && FindsAll(files, min, hasher, cap, found)
    ensures r.Failure? ==>
      && Exhausted(r.error, maxCandidateWork)
      && maxCandidateWork < Repeated(|windows|, BucketWork(cap, 1 + Longest(files)))
  {
    forall fp | fp in windows
      ensures BucketReady(files, min, cap, 1 + Longest(files), windows[fp])
    {
      IndexedReady(files, min, hasher, cap, windows, fp);
    }
    var builder := new CandidateBuilder(files, min, maxCandidateWork);
    var done := builder.ProcessAll(windows, cap, 1 + Longest(files));
    found := builder.found;
    if done.Failure? {
      return Failure(done.error), found;
    }
    FoundExactly(files, min, hasher, cap, windows, found);
    return Success(builder.candidates), found;
  }

  /**
   A successful run has found exactly the findable regions, whatever the occurrence cap, and reports exactly the first
   `maxGroups` maximal duplicates they show. A failing run names a budget that is really too small.
   */
  method FindDuplicatesWithBudget(files: Files, min: nat, maxGroups: nat, cap: nat, budget: Budget,
                                  hasher: string -> Fingerprint)
    returns (r: Result<seq<Duplicate>, DryError>, ghost found: set<Region>)
    ensures r.Failure? ==>
      if ValidateLimits(min, maxGroups, cap, budget).Failure?
      then r.error == ValidateLimits(min, maxGroups, cap, budget).error
      else Exceeds(files, min, cap, budget, hasher, r.error)
    ensures r.Success? ==> ValidateLimits(min, maxGroups, cap, budget).Success?
    ensures r.Success? ==> FindsAll(files, min, hasher, cap, found)
    ensures r.Success? ==> AllMaximal(files, min, found) && Complete(files, found, maxGroups, r.value)
    ensures r.Success? ==> Sound(files, min, maxGroups, r.value)
    ensures r.Success? && Uncapped(files, min, hasher, cap) ==> forall q :: q in found <==> Maximal(files, min, q)
  {
    found := {};
    var limits := ValidateLimits(min, maxGroups, cap, budget);
    if limits.Failure? {
      return Failure(limits.error), found;
    }
    var windows := BuildWindowIndex(files, min, cap, budget, hasher);
    if windows.Failure? {
      return Failure(windows.error), found;
    }
    var candidates;
    candidates, found := SearchIndex(files, min, cap, budget.maxCandidateWork, windows.value, hasher);
    if candidates.Failure? {
      assert |windows.value| == |windows.value.Keys|;
      BoundedWork(files, min, hasher, cap);
      return Failure(candidates.error), found;
    }
    var listed := SortedCandidates(files, candidates.value, found);
    SelectionReports(files, min, maxGroups, listed, found);
    var groups := SelectNonRedundant(listed, maxGroups, ContainedBy);
    SelectedMeans(files, min, found, maxGroups, groups);
    if Uncapped(files, min, hasher, cap) {
      forall q
        ensures q in found <==> Maximal(files, min, q)
      {
        AllRegionsFindable(files, min, hasher, cap, q);
      }
    }
    return Success(groups), found;
  }
}
