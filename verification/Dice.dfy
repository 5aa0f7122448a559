/**
 Multiset Sorensen-Dice similarity by a merge with early exit
 (crates/analysis-dry/src/lib.rs, `dice_similarity`, `remaining_can_reach_threshold`, `can_reach_dice`).
 Floating-point numbers are modelled as reals.
 */
module Dice {
  import opened Basics
  import opened Wrappers
  import opened WorkBudget
  import opened RollingHash
  import opened Sorting
  import opened Regions

  datatype ShingleIdentity = ShingleIdentity(fingerprint: Fingerprint, variant: nat)

  function IdentityKey(s: ShingleIdentity): seq<int> {
    [s.fingerprint.first, s.fingerprint.second, s.variant]
  }

  predicate IdentityLeq(a: ShingleIdentity, b: ShingleIdentity) {
    LexLeq(IdentityKey(a), IdentityKey(b))
  }

  lemma IdentityOrder()
    ensures TotalPreorder(IdentityLeq) && Antisymmetric(IdentityLeq)
  {
    KeyOrder(IdentityKey, IdentityLeq);
    forall x, y | IdentityKey(x) == IdentityKey(y)
      ensures x == y
    {
      var a, b := IdentityKey(x), IdentityKey(y);
      assert a[0] == b[0] && a[1] == b[1] && a[2] == b[2];
    }
  }

  /** The reference: twice the size of the multiset intersection over the total size. */
  ghost function DiceOf<T>(left: seq<T>, right: seq<T>): real {
    if |left| + |right| == 0 then
      0.0
    else
      2.0 * (|multiset(left) * multiset(right)| as real) / ((|left| + |right|) as real)
  }

  function SaturateU32(n: nat): nat {
    if n <= U32_MAX then n else U32_MAX
  }

  function RemainingCanReach(leftRemaining: nat, rightRemaining: nat, shared: nat, total: nat, threshold: real): bool
    requires total > 0
  {
    var maximumShared := shared + if leftRemaining < rightRemaining then leftRemaining else rightRemaining;
    2.0 * (maximumShared as real) / (total as real) >= threshold
  }

  predicate CanReachDice(left: nat, right: nat, threshold: real) {
    left + right != 0 && 2.0 * ((if left < right then left else right) as real) / ((left + right) as real) >= threshold
  }

  // ----- one merge step -----

  lemma SkipLeft(a: seq<ShingleIdentity>, b: seq<ShingleIdentity>)
    requires a != [] && b != []
    requires SortedBy(a, IdentityLeq) && SortedBy(b, IdentityLeq)
    requires IdentityLeq(a[0], b[0]) && a[0] != b[0]
    ensures multiset(a) * multiset(b) == multiset(a[1..]) * multiset(b)
  {
    IdentityOrder();
    assert a == [a[0]] + a[1..];
    forall j | 0 <= j < |b|
      ensures b[j] != a[0]
    {
      assert j > 0 ==> IdentityLeq(b[0], b[j]);
    }
  }

  lemma MatchBoth(a: seq<ShingleIdentity>, b: seq<ShingleIdentity>)
    requires a != [] && b != [] && a[0] == b[0]
    ensures |multiset(a) * multiset(b)| == 1 + |multiset(a[1..]) * multiset(b[1..])|
  {
    assert a == [a[0]] + a[1..] && b == [b[0]] + b[1..];
    assert multiset(a) * multiset(b) == multiset{a[0]} + multiset(a[1..]) * multiset(b[1..]);
  }

  lemma IntersectionBound<T>(a: seq<T>, b: seq<T>)
    ensures |multiset(a) * multiset(b)| <= |a| && |multiset(a) * multiset(b)| <= |b|
  {
    var common := multiset(a) * multiset(b);
    assert multiset(a) == common + (multiset(a) - common);
    assert multiset(b) == common + (multiset(b) - common);
    assert |multiset(a)| == |a| && |multiset(b)| == |b|;
  }

  lemma QuotientMonotone(x: nat, y: nat, total: nat)
    requires x <= y && total > 0
    ensures 2.0 * (x as real) / (total as real) <= 2.0 * (y as real) / (total as real)
  {
    var d := (y - x) as real;
    assert 2.0 * (y as real) / (total as real) == 2.0 * (x as real) / (total as real) + 2.0 * d / (total as real);
  }

  ghost function Shared(left: seq<ShingleIdentity>, right: seq<ShingleIdentity>): nat {
    |multiset(left) * multiset(right)|
  }

  method AdvanceIndices(left: seq<ShingleIdentity>, right: seq<ShingleIdentity>, i: nat, j: nat, shared: nat)
    returns (i': nat, j': nat, shared': nat)
    requires i < |left| && j < |right|
    requires SortedBy(left, IdentityLeq) && SortedBy(right, IdentityLeq)
    ensures i <= i' <= |left| && j <= j' <= |right| && i + j < i' + j'
    ensures shared' + Shared(left[i'..], right[j'..]) == shared + Shared(left[i..], right[j..])
  {
    var a, b := left[i..], right[j..];
    assert a[1..] == left[i + 1..] && b[1..] == right[j + 1..];
    if left[i] == right[j] {
      MatchBoth(a, b);
      return i + 1, j + 1, shared + 1;
    } else if IdentityLeq(left[i], right[j]) {
      SkipLeft(a, b);
      return i + 1, j, shared;
    } else {
      IdentityOrder();
      SkipLeft(b, a);
      assert multiset(a) * multiset(b) == multiset(b) * multiset(a);
      assert multiset(a) * multiset(b[1..]) == multiset(b[1..]) * multiset(a);
      return i, j + 1, shared;
    }
  }

  /** The early exit rejects only pairs below the threshold. */
  lemma RejectedBelow(left: seq<ShingleIdentity>, right: seq<ShingleIdentity>, i: nat, j: nat, shared: nat, threshold: real)
    requires i < |left| && j < |right|
    requires shared + Shared(left[i..], right[j..]) == Shared(left, right)
    requires !RemainingCanReach(|left| - i, |right| - j, shared, |left| + |right|, threshold)
    ensures DiceOf(left, right) < threshold
  {
    IntersectionBound(left[i..], right[j..]);
    var bound := shared + if |left| - i < |right| - j then |left| - i else |right| - j;
    QuotientMonotone(Shared(left, right), bound, |left| + |right|);
  }

  /** When one list is used up, the counter is the intersection size. */
  lemma ExhaustedExact(left: seq<ShingleIdentity>, right: seq<ShingleIdentity>, i: nat, j: nat, shared: nat)
    requires i <= |left| && j <= |right| && (i == |left| || j == |right|)
    requires shared + Shared(left[i..], right[j..]) == Shared(left, right)
    ensures shared == Shared(left, right) <= |left|
    ensures |left| + |right| > 0 ==> DiceOf(left, right) == 2.0 * (shared as real) / ((|left| + |right|) as real)
  {
    IntersectionBound(left[i..], right[j..]);
    IntersectionBound(left, right);
  }

  /**
   The exact similarity whenever it reaches the threshold, and some value below the threshold otherwise;
   the merge charges at most one unit per element.
   */
  method DiceSimilarity(left: seq<ShingleIdentity>, right: seq<ShingleIdentity>, threshold: real, work: Work)
    returns (r: Result<real, DryError>)
    requires SortedBy(left, IdentityLeq) && SortedBy(right, IdentityLeq)
    requires 0.0 < threshold && |left| + |right| <= U32_MAX
    modifies work
    ensures r.Success? ==>
      if DiceOf(left, right) >= threshold then r.value == DiceOf(left, right) else r.value < threshold
    ensures r.Failure? ==> Exhausted(r.error, work.limit)
    ensures work.used <= old(work.used) + |left| + |right|
  {
    var i: nat, j: nat, shared: nat := 0, 0, 0;
    var total := |left| + |right|;
    assert left[0..] == left && right[0..] == right;
    while i < |left| && j < |right|
      invariant i <= |left| && j <= |right|
      invariant shared + Shared(left[i..], right[j..]) == Shared(left, right)
      invariant work.used <= old(work.used) + i + j
      decreases total - i - j
    {
      if !RemainingCanReach(|left| - i, |right| - j, shared, total, threshold) {
        RejectedBelow(left, right, i, j, shared, threshold);
        return Success(0.0);
      }
      var _ :- work.Consume(1);
      i, j, shared := AdvanceIndices(left, right, i, j, shared);
    }
    ExhaustedExact(left, right, i, j, shared);
    if total == 0 {
      return Success(0.0);
    }
    return Success(2.0 * (SaturateU32(shared) as real) / (SaturateU32(total) as real));
  }

  /** The size prefilter and the shared-shingle index never drop a pair that reaches a positive threshold. */
  lemma SimilarPassesFilters<T>(left: seq<T>, right: seq<T>, threshold: real)
    requires 0.0 < threshold <= DiceOf(left, right)
    ensures CanReachDice(|left|, |right|, threshold)
    ensures exists x :: x in left && x in right
  {
    IntersectionBound(left, right);
    var common := multiset(left) * multiset(right);
    QuotientMonotone(|common|, if |left| < |right| then |left| else |right|, |left| + |right|);
    assert |common| == 0 ==> DiceOf(left, right) == 0.0;
    var x :| x in common;
    assert x in left && x in right;
  }

  lemma DicePermuted<T>(left: seq<T>, left': seq<T>, right: seq<T>, right': seq<T>)
    requires multiset(left) == multiset(left') && multiset(right) == multiset(right')
    ensures DiceOf(left, right) == DiceOf(left', right')
  {
    assert |left| == |multiset(left)| == |multiset(left')| == |left'|;
    assert |right| == |multiset(right)| == |multiset(right')| == |right'|;
  }

  /** Renaming the elements of both lists injectively keeps the similarity. */
  lemma DiceRenamed<A(!new), B(!new)>(a: seq<A>, b: seq<B>, c: seq<A>, d: seq<B>)
    requires SameEqualities(a, b, c, d)
    ensures DiceOf(a, c) == DiceOf(b, d)
  {
    IntersectionRenamed(a, b, c, d);
  }

  /** Positions of `a` and `c` hold equal elements exactly when those of `b` and `d` do. */
  ghost predicate SameEqualities<A(!new), B(!new)>(a: seq<A>, b: seq<B>, c: seq<A>, d: seq<B>) {
    && |a| == |b| && |c| == |d|
    && forall i, j :: 0 <= i < |a| && 0 <= j < |c| ==> (a[i] == c[j] <==> b[i] == d[j])
  }

  function Without<T>(s: seq<T>, i: nat): seq<T>
    requires i < |s|
  {
    s[..i] + s[i + 1..]
  }

  lemma RemoveMatch<T>(a: seq<T>, c: seq<T>, j: nat)
    requires a != [] && j < |c| && a[0] == c[j]
    ensures |multiset(a) * multiset(c)| == 1 + |multiset(a[1..]) * multiset(Without(c, j))|
  {
    assert a == [a[0]] + a[1..];
    assert c == c[..j] + [c[j]] + c[j + 1..];
    assert multiset(c) == multiset{c[j]} + multiset(Without(c, j));
    assert multiset(a) * multiset(c) == multiset{a[0]} + multiset(a[1..]) * multiset(Without(c, j));
  }

  lemma RemoveUnmatched<T>(a: seq<T>, c: seq<T>)
    requires a != [] && a[0] !in c
    ensures multiset(a) * multiset(c) == multiset(a[1..]) * multiset(c)
  {
    assert a == [a[0]] + a[1..];
  }

  lemma {:induction false} IntersectionRenamed<A(!new), B(!new)>(a: seq<A>, b: seq<B>, c: seq<A>, d: seq<B>)
    requires SameEqualities(a, b, c, d)
    ensures |multiset(a) * multiset(c)| == |multiset(b) * multiset(d)|
    decreases |a|
  {
    if a == [] {
      assert multiset(a) * multiset(c) == multiset{} && multiset(b) * multiset(d) == multiset{};
    } else if a[0] in c {
      var j :| 0 <= j < |c| && c[j] == a[0];
      RemoveMatch(a, c, j);
      RemoveMatch(b, d, j);
      IntersectionRenamed(a[1..], b[1..], Without(c, j), Without(d, j));
    } else {
      RemoveUnmatched(a, c);
      assert b[0] !in d;
      RemoveUnmatched(b, d);
      IntersectionRenamed(a[1..], b[1..], c, d);
    }
  }
}
