/**
 The memo of already extended regions, one interval list per diagonal
 (crates/analysis-dry/src/lib.rs, `diagonal_key` and `remember_extended_region`).
 */
module DiagonalMemo {
  import opened Sorting
  import opened WindowIndex
  import opened Regions

  datatype Diagonal = Diagonal(left: nat, right: nat, forward: bool, distance: nat)

  /** Closed intervals of left window starts. */
  datatype Interval = Interval(first: nat, last: nat)

  type Memo = map<Diagonal, seq<Interval>>

  function DiagonalKey(left: Occurrence, right: Occurrence): Diagonal {
    if left.start <= right.start then
      Diagonal(left.file, right.file, true, right.start - left.start)
    else
      Diagonal(left.file, right.file, false, left.start - right.start)
  }

  ghost function RegionDiagonal(r: Region): Diagonal {
    DiagonalKey(Occurrence(r.leftFile, r.leftStart), Occurrence(r.rightFile, r.rightStart))
  }

  function Intervals(memo: Memo, d: Diagonal): seq<Interval> {
    if d in memo then memo[d] else []
  }

  predicate Covered(intervals: seq<Interval>, x: nat) {
    exists p :: p in intervals && p.first <= x <= p.last
  }

  predicate WellFormed(intervals: seq<Interval>) {
    forall p :: p in intervals ==> p.first <= p.last
  }

  /** A region found so far on diagonal `d` has a window starting at `x`. */
  ghost predicate FoundAt(found: set<Region>, min: nat, d: Diagonal, x: nat) {
    exists r :: r in found && RegionDiagonal(r) == d && r.leftStart <= x && x + min <= r.leftStart + r.size
  }

  /** The memo of every diagonal is exactly the set of window starts of the regions found on it. */
  ghost predicate MemoExact(memo: Memo, found: set<Region>, min: nat) {
    && (forall d :: d in memo ==> WellFormed(memo[d]))
    && forall d, x :: Covered(Intervals(memo, d), x) <==> FoundAt(found, min, d, x)
  }

  predicate IntervalLeq(a: Interval, b: Interval) {
    LexLeq([a.first, a.last], [b.first, b.last])
  }

  lemma IntervalOrder()
    ensures TotalPreorder(IntervalLeq)
  {
    KeyOrder((a: Interval) => [a.first, a.last], IntervalLeq);
  }

  /** Merging overlapping and adjacent intervals keeps the covered set, sorted. */
  method RememberExtendedRegion(regions: seq<Interval>, start: nat, end: nat) returns (updated: seq<Interval>)
    requires start <= end && WellFormed(regions)
    ensures WellFormed(updated) && SortedBy(updated, IntervalLeq)
    ensures forall x: nat :: Covered(updated, x) <==> Covered(regions, x) || start <= x <= end
  {
    var retained: seq<Interval> := [];
    var lo: nat, hi: nat := start, end;
    for i := 0 to |regions|
      invariant lo <= hi && WellFormed(retained)
      invariant forall x: nat :: Covered(retained, x) || lo <= x <= hi <==>
                                 Covered(regions[..i], x) || start <= x <= end
    {
      CoveredAppend(regions[..i], regions[i]);
      assert regions[..i] + [regions[i]] == regions[..i + 1];
      CoveredAppend(retained, regions[i]);
      var existing := regions[i];
      assert existing in regions;
      if existing.last + 1 < lo || hi + 1 < existing.first {
        retained := retained + [existing];
      } else {
        lo := if existing.first < lo then existing.first else lo;
        hi := if existing.last > hi then existing.last else hi;
      }
    }
    assert regions[..|regions|] == regions;
    CoveredAppend(retained, Interval(lo, hi));
    updated := Sort(retained + [Interval(lo, hi)], IntervalLeq);
    IntervalOrder();
    SortCorrect(retained + [Interval(lo, hi)], IntervalLeq);
    CoveredPermuted(retained + [Interval(lo, hi)], updated);
  }

  lemma CoveredAppend(intervals: seq<Interval>, added: Interval)
    ensures forall x: nat :: Covered(intervals + [added], x) <==> Covered(intervals, x) || added.first <= x <= added.last
  {
    forall x: nat
      ensures Covered(intervals + [added], x) <==> Covered(intervals, x) || added.first <= x <= added.last
    {
      if Covered(intervals, x) {
        var p :| p in intervals && p.first <= x <= p.last;
        assert p in intervals + [added];
      }
      if added.first <= x <= added.last {
        assert added in intervals + [added];
      }
    }
  }

  lemma CoveredPermuted(a: seq<Interval>, b: seq<Interval>)
    requires forall p :: p in a <==> p in b
    ensures forall x: nat :: Covered(a, x) <==> Covered(b, x)
  {
  }

  /** Remembering one more region keeps the memo exact. */
  lemma MemoExactStep(memo: Memo, found: set<Region>, min: nat, r: Region, updated: seq<Interval>)
    requires MemoExact(memo, found, min)
    requires WellFormed(updated)
    requires forall x: nat :: Covered(updated, x) <==>
      Covered(Intervals(memo, RegionDiagonal(r)), x) || (r.leftStart <= x && x + min <= r.leftStart + r.size)
    ensures MemoExact(memo[RegionDiagonal(r) := updated], found + {r}, min)
  {
    var memo', found' := memo[RegionDiagonal(r) := updated], found + {r};
    forall d, x: nat
      ensures Covered(Intervals(memo', d), x) <==> FoundAt(found', min, d, x)
    {
      FoundAtStep(found, min, r, d, x);
      if d != RegionDiagonal(r) {
        assert Intervals(memo', d) == Intervals(memo, d);
      }
    }
  }

  lemma FoundAtStep(found: set<Region>, min: nat, r: Region, d: Diagonal, x: nat)
    ensures FoundAt(found + {r}, min, d, x) <==>
      FoundAt(found, min, d, x) || (RegionDiagonal(r) == d && r.leftStart <= x && x + min <= r.leftStart + r.size)
  {
    if FoundAt(found, min, d, x) {
      var q :| q in found && RegionDiagonal(q) == d && q.leftStart <= x && x + min <= q.leftStart + q.size;
      assert q in found + {r};
    }
    assert r in found + {r};
  }

  /** A remembered start on the pair's diagonal means a found region contains the pair. */
  lemma CoveredPairFound(memo: Memo, found: set<Region>, min: nat, left: Occurrence, right: Occurrence)
    requires MemoExact(memo, found, min)
    requires Covered(Intervals(memo, DiagonalKey(left, right)), left.start)
    ensures exists r :: r in found && Contains(r, min, left, right)
  {
    var d := DiagonalKey(left, right);
    assert FoundAt(found, min, d, left.start);
    var r :| r in found && RegionDiagonal(r) == d && r.leftStart <= left.start && left.start + min <= r.leftStart + r.size;
    assert Contains(r, min, left, right);
  }

  lemma ContainsSameDiagonal(r: Region, min: nat, left: Occurrence, right: Occurrence)
    requires Contains(r, min, left, right)
    ensures RegionDiagonal(r) == DiagonalKey(left, right)
  {
  }
}
