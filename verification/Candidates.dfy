/**
 Candidate duplicates built from the window index
 (crates/analysis-dry/src/lib.rs, `CandidateBuilder`).
 */
module Candidates {
  import opened Wrappers
  import opened WorkBudget
  import opened RollingHash
  import opened Sorting
  import opened WindowIndex
  import opened Regions
  import opened DiagonalMemo

  datatype Location = Location(file: nat, startLine: nat, endLine: nat, startToken: nat, endToken: nat)

  datatype Duplicate = Duplicate(tokenCount: nat, first: Location, second: Location)

  datatype CandidateKey = CandidateKey(firstFile: nat, firstStart: nat, secondFile: nat, secondStart: nat, size: nat)

  function LocationAt(file: nat, tokens: seq<TokenRecord>, start: nat, size: nat): Location
    requires size >= 1 && start + size <= |tokens|
  {
    Location(file, tokens[start].line, tokens[start + size - 1].line, start, start + size)
  }

  predicate Overlaps(a: Location, b: Location) {
    a.file == b.file && !(a.endToken <= b.startToken || b.endToken <= a.startToken)
  }

  predicate LocationKeyLess(a: Location, b: Location) {
    || a.file < b.file
    || (a.file == b.file && (a.startToken < b.startToken || (a.startToken == b.startToken && a.endToken < b.endToken)))
  }

  function CandidateKeyOf(d: Duplicate): CandidateKey {
    CandidateKey(d.first.file, d.first.startToken, d.second.file, d.second.startToken, d.tokenCount)
  }

  // ----- reference -----

  ghost predicate SelfOverlapping(r: Region) {
    r.leftFile == r.rightFile && r.leftStart + r.size > r.rightStart
  }

  ghost predicate InBounds(files: Files, r: Region) {
    && r.size >= 1
    && r.leftFile < |files| && r.leftStart + r.size <= |files[r.leftFile]|
    && r.rightFile < |files| && r.rightStart + r.size <= |files[r.rightFile]|
  }

  ghost predicate AllMaximal(files: Files, min: nat, found: set<Region>): (b: bool)
    requires min >= 1
    ensures b ==> forall r :: r in found ==> InBounds(files, r)
  {
    forall r :: r in found ==> Maximal(files, min, r)
  }

  ghost function DuplicateOf(files: Files, r: Region): Duplicate
    requires InBounds(files, r)
  {
    Duplicate(
      r.size,
      LocationAt(r.leftFile, files[r.leftFile], r.leftStart, r.size),
      LocationAt(r.rightFile, files[r.rightFile], r.rightStart, r.size))
  }

  ghost function RegionKey(r: Region): CandidateKey {
    CandidateKey(r.leftFile, r.leftStart, r.rightFile, r.rightStart, r.size)
  }

  /** The duplicate shows a maximal region that does not overlap itself. */
  ghost predicate Reportable(files: Files, min: nat, d: Duplicate)
    requires min >= 1
  {
    exists r :: Maximal(files, min, r) && !SelfOverlapping(r) && d == DuplicateOf(files, r)
  }

  /** The candidates are exactly the non-overlapping regions found. */
  ghost predicate CandidatesExact(files: Files, candidates: map<CandidateKey, Duplicate>, found: set<Region>)
    requires forall r :: r in found ==> InBounds(files, r)
  {
    && (forall r :: r in found && !SelfOverlapping(r) ==>
          RegionKey(r) in candidates && candidates[RegionKey(r)] == DuplicateOf(files, r))
    && (forall k :: k in candidates ==> exists r :: r in found && !SelfOverlapping(r) && RegionKey(r) == k)
  }

  /** If the pair of windows is equal, its maximal region has been found. */
  ghost predicate PairDone(files: Files, min: nat, found: set<Region>, left: Occurrence, right: Occurrence) {
    PairEqual(files, min, left, right) ==> exists r :: r in found && Contains(r, min, left, right)
  }

  ghost predicate BucketDone(files: Files, min: nat, found: set<Region>, occurrences: seq<Occurrence>) {
    forall i, j :: 0 <= i < j < |occurrences| ==> PairDone(files, min, found, occurrences[i], occurrences[j])
  }

  /** The region holds a pair of the listed windows. */
  ghost predicate FromPair(min: nat, occurrences: seq<Occurrence>, r: Region) {
    exists i, j :: 0 <= i < j < |occurrences| && Contains(r, min, occurrences[i], occurrences[j])
  }

  ghost predicate FromIndex(min: nat, windows: map<Fingerprint, seq<Occurrence>>, r: Region) {
    exists fp :: fp in windows && FromPair(min, windows[fp], r)
  }

  ghost predicate Traced(min: nat, windows: map<Fingerprint, seq<Occurrence>>, found: set<Region>) {
    forall r :: r in found ==> FromIndex(min, windows, r)
  }

  /** The buckets of the fingerprints have been handled. */
  ghost predicate AllDone(files: Files, min: nat, found: set<Region>, windows: map<Fingerprint, seq<Occurrence>>,
                          handled: set<Fingerprint>)
  {
    forall fp :: fp in handled && fp in windows ==> BucketDone(files, min, found, windows[fp])
  }

  lemma AllDoneStep(files: Files, min: nat, found: set<Region>, more: set<Region>,
                    windows: map<Fingerprint, seq<Occurrence>>, handled: set<Fingerprint>, fp: Fingerprint)
    requires found <= more && fp in windows
    requires AllDone(files, min, found, windows, handled) && BucketDone(files, min, more, windows[fp])
    ensures AllDone(files, min, more, windows, handled + {fp})
  {
    forall p | p in handled && p in windows
      ensures BucketDone(files, min, more, windows[p])
    {
      BucketDoneMonotone(files, min, found, more, windows[p]);
    }
  }

  /** The nested loop has handled all pairs before position (i, j). */
  ghost predicate DoneBefore(files: Files, min: nat, found: set<Region>, occurrences: seq<Occurrence>, i: nat, j: nat) {
    forall a, b :: 0 <= a < b < |occurrences| && (a < i || (a == i && b < j)) ==>
      PairDone(files, min, found, occurrences[a], occurrences[b])
  }

  lemma DoneBeforeStep(files: Files, min: nat, found: set<Region>, more: set<Region>, occurrences: seq<Occurrence>, i: nat, j: nat)
    requires found <= more && i < j < |occurrences|
    requires DoneBefore(files, min, found, occurrences, i, j)
    requires PairDone(files, min, more, occurrences[i], occurrences[j])
    ensures DoneBefore(files, min, more, occurrences, i, j + 1)
  {
    forall a, b | 0 <= a < b < |occurrences| && (a < i || (a == i && b < j))
      ensures PairDone(files, min, more, occurrences[a], occurrences[b])
    {
      PairDoneMonotone(files, min, found, more, occurrences[a], occurrences[b]);
    }
  }

  lemma PairDoneMonotone(files: Files, min: nat, found: set<Region>, more: set<Region>, left: Occurrence, right: Occurrence)
    requires found <= more && PairDone(files, min, found, left, right)
    ensures PairDone(files, min, more, left, right)
  {
    if PairEqual(files, min, left, right) {
      var r :| r in found && Contains(r, min, left, right);
      assert r in more;
    }
  }

  lemma BucketDoneMonotone(files: Files, min: nat, found: set<Region>, more: set<Region>, occurrences: seq<Occurrence>)
    requires found <= more && BucketDone(files, min, found, occurrences)
    ensures BucketDone(files, min, more, occurrences)
  {
    forall i, j | 0 <= i < j < |occurrences|
      ensures PairDone(files, min, more, occurrences[i], occurrences[j])
    {
      PairDoneMonotone(files, min, found, more, occurrences[i], occurrences[j]);
    }
  }

  /** The candidates after one more found region. */
  ghost function Inserted(files: Files, candidates: map<CandidateKey, Duplicate>, r: Region): map<CandidateKey, Duplicate>
    requires InBounds(files, r)
  {
    if SelfOverlapping(r) || RegionKey(r) in candidates then
      candidates
    else
      candidates[RegionKey(r) := DuplicateOf(files, r)]
  }

  lemma CandidatesExactStep(files: Files, candidates: map<CandidateKey, Duplicate>, found: set<Region>, r: Region)
    requires (forall q :: q in found ==> InBounds(files, q)) && InBounds(files, r)
    requires CandidatesExact(files, candidates, found)
    ensures CandidatesExact(files, Inserted(files, candidates, r), found + {r})
  {
    var candidates', found' := Inserted(files, candidates, r), found + {r};
    forall k | k in candidates'
      ensures exists q :: q in found' && !SelfOverlapping(q) && RegionKey(q) == k
    {
      if k in candidates {
        var q :| q in found && !SelfOverlapping(q) && RegionKey(q) == k;
        assert q in found';
      } else {
        assert r in found';
      }
    }
    if !SelfOverlapping(r) && RegionKey(r) in candidates {
      var q :| q in found && !SelfOverlapping(q) && RegionKey(q) == RegionKey(r);
      assert q == r;
    }
    forall q | q in found' && !SelfOverlapping(q)
      ensures RegionKey(q) in candidates' && candidates'[RegionKey(q)] == DuplicateOf(files, q)
    {
      if q != r {
        assert RegionKey(q) != RegionKey(r);
      }
    }
  }

  /** What one pair can cost: its own charge and, at most, one comparison for every token of the left file. */
  ghost function PairWork(files: Files, left: Occurrence): nat
    requires left.file < |files|
  {
    1 + |files[left.file]|
  }

  /** `n` times `cost`, by addition. */
  ghost function Repeated(n: nat, cost: nat): nat {
    if n == 0 then 0 else Repeated(n - 1, cost) + cost
  }

  lemma {:induction false} RepeatedIs(n: nat, cost: nat)
    ensures Repeated(n, cost) == n * cost
  {
    if n > 0 {
      RepeatedIs(n - 1, cost);
    }
  }

  lemma {:induction false} RepeatedMonotone(a: nat, b: nat, cost: nat, more: nat)
    requires a <= b && cost <= more
    ensures Repeated(a, cost) <= Repeated(b, more)
    decreases b
  {
    if b > 0 {
      RepeatedMonotone(if a < b then a else a - 1, b - 1, cost, more);
    }
  }

  /** What the pairs of `n` windows can cost. */
  ghost function BucketWork(n: nat, cost: nat): nat {
    Repeated(Repeated(n, n), cost)
  }

  lemma PairsWithin(i: nat, j: nat, n: nat, pairs: nat, cost: nat)
    requires i < n && j < n && pairs <= Repeated(i, n) + j
    ensures Repeated(pairs, cost) + cost == Repeated(pairs + 1, cost) <= BucketWork(n, cost)
  {
    RepeatedMonotone(i + 1, n, n, n);
    RepeatedMonotone(pairs + 1, Repeated(n, n), cost, cost);
  }

  lemma BucketWorkMonotone(n: nat, cap: nat, cost: nat)
    requires n <= cap
    ensures BucketWork(n, cost) <= BucketWork(cap, cost)
  {
    RepeatedMonotone(n, cap, n, cap);
    RepeatedMonotone(Repeated(n, n), Repeated(cap, cap), cost, cost);
  }

  /** A bucket of ordered windows, no more than the cap, whose pairs cost at most `cost` each. */
  ghost predicate BucketReady(files: Files, min: nat, cap: nat, cost: nat, occurrences: seq<Occurrence>) {
    && Ordered(occurrences) && |occurrences| <= cap
    && forall o :: o in occurrences ==> IsWindow(files, o, min) && PairWork(files, o) <= cost
  }

  class CandidateBuilder {
    const files: Files
    const min: nat
    const work: Work
    var candidates: map<CandidateKey, Duplicate>
    var extended: Memo
    ghost var found: set<Region>

    ghost predicate Valid()
      reads this
    {
      && min >= 1
      && AllMaximal(files, min, found)
      && MemoExact(extended, found, min)
      && CandidatesExact(files, candidates, found)
    }

    constructor (files: Files, min: nat, maxCandidateWork: nat)
      requires min >= 1
      ensures Valid() && found == {} && fresh(work) && work.used == 0
      ensures this.files == files && this.min == min && work.limit == maxCandidateWork
    {
      this.files := files;
      this.min := min;
      this.work := new Work(maxCandidateWork);
      candidates := map[];
      extended := map[];
      found := {};
    }

    /** Handles one pair of occurrences of a fingerprint. */
    method ProcessPair(left: Occurrence, right: Occurrence) returns (r: Result<(), DryError>)
      requires Valid() && Before(left, right)
      requires IsWindow(files, left, min) && IsWindow(files, right, min)
      modifies this, work
      ensures Valid() && old(found) <= found
      ensures forall q :: q in found ==> q in old(found) || Contains(q, min, left, right)
      ensures r.Success? ==> PairDone(files, min, found, left, right)
      ensures r.Success? ==> work.used <= old(work.used) + PairWork(files, left)
      ensures r.Failure? ==> Exhausted(r.error, work.limit) && work.limit < old(work.used) + PairWork(files, left)
    {
      var _ :- work.Consume(1);
      var diagonal := DiagonalKey(left, right);
      if Covered(Intervals(extended, diagonal), left.start) {
        CoveredPairFound(extended, found, min, left, right);
        return Success(());
      }
      var equal :- WindowsEqual(files[left.file], left.start, files[right.file], right.start, min, work);
      if !equal {
        return Success(());
      }
      var region :- ExtendMatch(files, left, right, min, work);
      ContainsSameDiagonal(region, min, left, right);
      Remember(region);
      assert region in found && Contains(region, min, left, right);
      return Success(());
    }

    /** Records a found region in the memo and, unless it overlaps itself, among the candidates. */
    method Remember(region: Region)
      requires Valid() && Maximal(files, min, region)
      modifies this
      ensures Valid() && found == old(found) + {region}
    {
      var diagonal := DiagonalKey(
        Occurrence(region.leftFile, region.leftStart), Occurrence(region.rightFile, region.rightStart));
      var updated := RememberExtendedRegion(
        Intervals(extended, diagonal), region.leftStart, region.leftStart + (region.size - min));
      MemoExactStep(extended, found, min, region, updated);
      CandidatesExactStep(files, candidates, found, region);
      extended := extended[diagonal := updated];
      found := found + {region};
      InsertRegion(region);
    }

    method InsertRegion(region: Region)
      requires Maximal(files, 1, region)
      modifies this`candidates
      ensures candidates == Inserted(files, old(candidates), region)
    {
      var first := LocationAt(region.leftFile, files[region.leftFile], region.leftStart, region.size);
      var second := LocationAt(region.rightFile, files[region.rightFile], region.rightStart, region.size);
      if Overlaps(first, second) {
        return;
      }
      if LocationKeyLess(second, first) {
        first, second := second, first;
      }
      var d := Duplicate(region.size, first, second);
      if CandidateKeyOf(d) !in candidates {
        candidates := candidates[CandidateKeyOf(d) := d];
      }
    }

    /** All pairs of a bucket; `cost` is what one pair may cost. */
    method ProcessBucket(occurrences: seq<Occurrence>, ghost cost: nat) returns (r: Result<(), DryError>)
      requires Valid() && Ordered(occurrences)
      requires forall o :: o in occurrences ==> IsWindow(files, o, min) && PairWork(files, o) <= cost
      modifies this, work
      ensures Valid() && old(found) <= found
      ensures forall q :: q in found ==> q in old(found) || FromPair(min, occurrences, q)
      ensures r.Success? ==> BucketDone(files, min, found, occurrences)
      ensures r.Success? ==> work.used <= old(work.used) + BucketWork(|occurrences|, cost)
      ensures r.Failure? ==> Exhausted(r.error, work.limit) && work.limit < old(work.used) + BucketWork(|occurrences|, cost)
    {
      ghost var n, pairs: nat := |occurrences|, 0;
      for i := 0 to |occurrences|
        invariant Valid() && old(found) <= found
        invariant forall q :: q in found ==> q in old(found) || FromPair(min, occurrences, q)
        invariant DoneBefore(files, min, found, occurrences, i, i + 1)
        invariant pairs <= Repeated(i, n) && work.used <= old(work.used) + Repeated(pairs, cost)
      {
        for j := i + 1 to |occurrences|
          invariant Valid() && old(found) <= found
          invariant forall q :: q in found ==> q in old(found) || FromPair(min, occurrences, q)
          invariant DoneBefore(files, min, found, occurrences, i, j)
          invariant pairs <= Repeated(i, n) + j && work.used <= old(work.used) + Repeated(pairs, cost)
        {
          ghost var before := found;
          PairsWithin(i, j, n, pairs, cost);
          var _ :- ProcessPair(occurrences[i], occurrences[j]);
          DoneBeforeStep(files, min, before, found, occurrences, i, j);
          pairs := pairs + 1;
        }
      }
      RepeatedMonotone(pairs, Repeated(n, n), cost, cost);
      return Success(());
    }

    /** A bucket of one occurrence has no pairs. */
    method ProcessFingerprint(windows: map<Fingerprint, seq<Occurrence>>, fp: Fingerprint, ghost cap: nat, ghost cost: nat)
      returns (r: Result<(), DryError>)
      requires Valid() && fp in windows && BucketReady(files, min, cap, cost, windows[fp])
      requires Traced(min, windows, found)
      modifies this, work
      ensures Valid() && old(found) <= found
      ensures Traced(min, windows, found)
      ensures r.Success? ==> BucketDone(files, min, found, windows[fp])
      ensures r.Success? ==> work.used <= old(work.used) + BucketWork(cap, cost)
      ensures r.Failure? ==> Exhausted(r.error, work.limit) && work.limit < old(work.used) + BucketWork(cap, cost)
    {
      BucketWorkMonotone(|windows[fp]|, cap, cost);
      if |windows[fp]| > 1 {
        r := ProcessBucket(windows[fp], cost);
      } else {
        r := Success(());
      }
    }

    /** Buckets are processed in fingerprint order. */
    method ProcessAll(windows: map<Fingerprint, seq<Occurrence>>, ghost cap: nat, ghost cost: nat)
      returns (r: Result<(), DryError>)
      requires Valid()
      requires forall fp :: fp in windows ==> BucketReady(files, min, cap, cost, windows[fp])
      requires Traced(min, windows, found)
      modifies this, work
      ensures Valid() && old(found) <= found
      ensures Traced(min, windows, found)
      ensures r.Success? ==> forall fp :: fp in windows ==> BucketDone(files, min, found, windows[fp])
      ensures r.Failure? ==> Exhausted(r.error, work.limit) && work.limit < old(work.used) + Repeated(|windows|, BucketWork(cap, cost))
    {
      var order := SortedFingerprints(windows.Keys);
      ghost var share, handled := BucketWork(cap, cost), {};
      for i := 0 to |order|
        invariant Valid() && old(found) <= found
        invariant Traced(min, windows, found)
        invariant AllDone(files, min, found, windows, handled)
        invariant forall k :: 0 <= k < i ==> order[k] in handled
        invariant work.used <= old(work.used) + Repeated(i, share)
      {
        ghost var before := found;
        var fp := order[i];
        assert fp in windows;
        RepeatedMonotone(i + 1, |windows|, share, share);
        var _ :- ProcessFingerprint(windows, fp, cap, cost);
        AllDoneStep(files, min, before, found, windows, handled, fp);
        handled := handled + {fp};
      }
      return Success(());
    }
  }

  predicate FingerprintLeq(a: Fingerprint, b: Fingerprint) {
    LexLeq([a.first, a.second], [b.first, b.second])
  }

  lemma FingerprintOrder()
    ensures TotalPreorder(FingerprintLeq)
  {
    KeyOrder((f: Fingerprint) => [f.first, f.second], FingerprintLeq);
  }

  method SortedFingerprints(keys: set<Fingerprint>) returns (order: seq<Fingerprint>)
    ensures |order| == |keys| && forall fp :: fp in order <==> fp in keys
    ensures SortedBy(order, FingerprintLeq)
  {
    var pending := keys;
    order := [];
    while pending != {}
      invariant |order| + |pending| == |keys|
      invariant forall fp :: fp in keys <==> fp in order || fp in pending
      decreases pending
    {
      var fp :| fp in pending;
      pending := pending - {fp};
      order := order + [fp];
    }
    FingerprintOrder();
    SortCorrect(order, FingerprintLeq);
    order := Sort(order, FingerprintLeq);
  }
}
