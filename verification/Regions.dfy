/**
 Maximally extended equal regions, the reference for the exact duplicate detector, and the
 token comparisons that find them (crates/analysis-dry/src/lib.rs, `TokenPair` and `extend_match`).
 */
module Regions {
  import opened Wrappers
  import opened WorkBudget
  import opened WindowIndex

  datatype Region = Region(leftFile: nat, leftStart: nat, rightFile: nat, rightStart: nat, size: nat)

  /** Two windows with equal token values. */
  ghost predicate PairEqual(files: Files, size: nat, left: Occurrence, right: Occurrence) {
    && IsWindow(files, left, size) && IsWindow(files, right, size)
    && EqualValues(files[left.file], left.start, files[right.file], right.start, size)
  }

  /** An equal region of at least `min` tokens that can be extended in neither direction. */
  ghost predicate Maximal(files: Files, min: nat, r: Region) {
    && r.leftFile < |files| && r.rightFile < |files|
    && Before(Occurrence(r.leftFile, r.leftStart), Occurrence(r.rightFile, r.rightStart))
    && r.size >= min
    && var left, right := files[r.leftFile], files[r.rightFile];
    && EqualValues(left, r.leftStart, right, r.rightStart, r.size)
    && (r.leftStart == 0 || r.rightStart == 0 || left[r.leftStart - 1].value != right[r.rightStart - 1].value)
    && (r.leftStart + r.size == |left| || r.rightStart + r.size == |right|
        || left[r.leftStart + r.size].value != right[r.rightStart + r.size].value)
  }

  /** The region holds the given pair of windows at the same offset. */
  ghost predicate Contains(r: Region, min: nat, left: Occurrence, right: Occurrence) {
    && r.leftFile == left.file && r.rightFile == right.file
    && r.rightStart - r.leftStart == right.start - left.start
    && r.leftStart <= left.start && left.start + min <= r.leftStart + r.size
  }

  lemma MaximalUnique(files: Files, min: nat, a: Region, b: Region, left: Occurrence, right: Occurrence)
    requires min >= 1
    requires Maximal(files, min, a) && Contains(a, min, left, right)
    requires Maximal(files, min, b) && Contains(b, min, left, right)
    ensures a == b
  {
    SameStart(files, min, a, b, left, right);
    SameStart(files, min, b, a, left, right);
    SameEnd(files, min, a, b, left, right);
    SameEnd(files, min, b, a, left, right);
  }

  lemma SameStart(files: Files, min: nat, a: Region, b: Region, left: Occurrence, right: Occurrence)
    requires min >= 1
    requires Maximal(files, min, a) && Contains(a, min, left, right)
    requires Maximal(files, min, b) && Contains(b, min, left, right)
    ensures b.leftStart <= a.leftStart
  {
    assert forall k :: a.leftStart <= k < a.leftStart + a.size ==>
      files[a.leftFile][k].value == files[a.rightFile][k - a.leftStart + a.rightStart].value;
  }

  lemma SameEnd(files: Files, min: nat, a: Region, b: Region, left: Occurrence, right: Occurrence)
    requires min >= 1
    requires Maximal(files, min, a) && Contains(a, min, left, right)
    requires Maximal(files, min, b) && Contains(b, min, left, right)
    ensures a.leftStart + a.size <= b.leftStart + b.size
  {
    assert forall k :: a.leftStart <= k < a.leftStart + a.size ==>
      files[a.leftFile][k].value == files[a.rightFile][k - a.leftStart + a.rightStart].value;
  }

  /** Every maximal region starts with an equal pair of windows that it contains. */
  lemma MaximalStartsPair(files: Files, min: nat, r: Region)
    requires Maximal(files, min, r)
    ensures var left, right := Occurrence(r.leftFile, r.leftStart), Occurrence(r.rightFile, r.rightStart);
            Before(left, right) && PairEqual(files, min, left, right) && Contains(r, min, left, right)
  {
  }

  // ----- comparisons charged to the work budget -----

  /** A failed comparison is an exhausted budget, never a partial answer. */
  ghost predicate Exhausted(error: DryError, limit: nat) {
    error.WorkBudgetExceeded? && error.kind == CandidateWork && error.limit == limit < error.required
  }

  method WindowsEqual(left: seq<TokenRecord>, i: nat, right: seq<TokenRecord>, j: nat, size: nat, work: Work)
    returns (r: Result<bool, DryError>)
    modifies work
    ensures r.Success? ==> r.value == EqualValues(left, i, right, j, size)
    ensures r.Failure? ==> Exhausted(r.error, work.limit) && work.limit < old(work.used) + size
    ensures r.Success? ==> work.used <= old(work.used) + size
  {
    if i + size > |left| || j + size > |right| {
      return Success(false);
    }
    for k := 0 to size
      invariant EqualValues(left, i, right, j, k)
      invariant work.used == old(work.used) + k
    {
      var _ :- work.Consume(1);
      if left[i + k].value != right[j + k].value {
        return Success(false);
      }
    }
    return Success(true);
  }

  method MatchingBefore(left: seq<TokenRecord>, i: nat, right: seq<TokenRecord>, j: nat, work: Work)
    returns (r: Result<nat, DryError>)
    requires i <= |left| && j <= |right|
    modifies work
    ensures r.Success? ==>
      && r.value <= i && r.value <= j
      && EqualValues(left, i - r.value, right, j - r.value, r.value)
      && (r.value == i || r.value == j || left[i - r.value - 1].value != right[j - r.value - 1].value)
    ensures r.Failure? ==> Exhausted(r.error, work.limit) && work.limit < old(work.used) + i
    ensures r.Success? ==> work.used <= old(work.used) + i
  {
    var before := 0;
    while i > before && j > before
      invariant before <= i && before <= j && work.used == old(work.used) + before
      invariant EqualValues(left, i - before, right, j - before, before)
    {
      var _ :- work.Consume(1);
      if left[i - before - 1].value != right[j - before - 1].value {
        break;
      }
      before := before + 1;
    }
    return Success(before);
  }

  method MatchingAfter(left: seq<TokenRecord>, i: nat, right: seq<TokenRecord>, j: nat, minimum: nat, work: Work)
    returns (r: Result<nat, DryError>)
    requires EqualValues(left, i, right, j, minimum)
    modifies work
    ensures r.Success? ==>
      && r.value >= minimum
      && EqualValues(left, i, right, j, r.value)
      && (i + r.value == |left| || j + r.value == |right| || left[i + r.value].value != right[j + r.value].value)
    ensures r.Failure? ==> Exhausted(r.error, work.limit) && work.limit + i + minimum < old(work.used) + |left|
    ensures r.Success? ==> work.used + i + minimum <= old(work.used) + |left|
  {
    var after := minimum;
    while i + after < |left| && j + after < |right|
      invariant after >= minimum && i + after <= |left| && work.used + minimum == old(work.used) + after
      invariant EqualValues(left, i, right, j, after)
    {
      var _ :- work.Consume(1);
      if left[i + after].value != right[j + after].value {
        break;
      }
      after := after + 1;
    }
    return Success(after);
  }

  /** Extending an equal pair of windows in both directions gives its maximal region. */
  method ExtendMatch(files: Files, left: Occurrence, right: Occurrence, minimum: nat, work: Work)
    returns (r: Result<Region, DryError>)
    requires PairEqual(files, minimum, left, right) && Before(left, right)
    modifies work
    ensures r.Success? ==> Maximal(files, minimum, r.value) && Contains(r.value, minimum, left, right)
    ensures r.Failure? ==> Exhausted(r.error, work.limit) && work.limit + minimum < old(work.used) + |files[left.file]|
    ensures r.Success? ==> work.used + minimum <= old(work.used) + |files[left.file]|
  {
    var leftTokens, rightTokens := files[left.file], files[right.file];
    var before :- MatchingBefore(leftTokens, left.start, rightTokens, right.start, work);
    var after :- MatchingAfter(leftTokens, left.start, rightTokens, right.start, minimum, work);
    ExtendedMaximal(files, minimum, left, right, before, after);
    return Success(Region(left.file, left.start - before, right.file, right.start - before, before + after));
  }

  lemma ExtendedMaximal(files: Files, minimum: nat, l: Occurrence, r: Occurrence, before: nat, after: nat)
    requires l.file < |files| && r.file < |files| && Before(l, r)
    requires before <= l.start && before <= r.start && minimum <= after
    requires var left, right := files[l.file], files[r.file];
      && EqualValues(left, l.start - before, right, r.start - before, before)
      && EqualValues(left, l.start, right, r.start, after)
      && (before == l.start || before == r.start
          || left[l.start - before - 1].value != right[r.start - before - 1].value)
      && (l.start + after == |left| || r.start + after == |right|
          || left[l.start + after].value != right[r.start + after].value)
    ensures var region := Region(l.file, l.start - before, r.file, r.start - before, before + after);
      Maximal(files, minimum, region) && Contains(region, minimum, l, r)
  {
    var region := Region(l.file, l.start - before, r.file, r.start - before, before + after);
    assert region.leftStart + region.size == l.start + after && region.rightStart + region.size == r.start + after;
    Joined(files[l.file], l.start, files[r.file], r.start, before, after);
  }

  lemma Joined(left: seq<TokenRecord>, i: nat, right: seq<TokenRecord>, j: nat, before: nat, after: nat)
    requires before <= i && before <= j
    requires EqualValues(left, i - before, right, j - before, before)
    requires EqualValues(left, i, right, j, after)
    ensures EqualValues(left, i - before, right, j - before, before + after)
  {
    forall k | i - before <= k < i + after
      ensures left[k].value == right[k - (i - before) + (j - before)].value
    {
      if k < i {
        assert left[k].value == right[k - (i - before) + (j - before)].value;
      } else {
        assert left[k].value == right[k - i + j].value;
      }
    }
  }
}
