/**
 Near-duplicate functions: candidate pairs, accepted pairs and their connected components
 (crates/analysis-dry/src/lib.rs, `find_function_duplicates`).
 */
module FunctionClones {
  import opened Basics
  import opened Wrappers
  import opened WorkBudget
  import opened RollingHash
  import opened Sorting
  import opened Regions
  import opened Dice
  import opened FiniteSets
  import opened ShingleIndex
  import opened DisjointSets
  import Candidates

  // ----- reference: all pairs -----

  ghost function Similarity(functions: Functions, size: nat, a: nat, b: nat): real
    requires a < |functions| && b < |functions|
  {
    DiceOf(Shingles(functions[a], size), Shingles(functions[b], size))
  }

  /** All pairs whose shingle multisets reach the threshold. */
  ghost function SimilarPairs(functions: Functions, size: nat, threshold: real): Edges {
    set a: nat, b: nat | a < b < |functions| && Similarity(functions, size, a, b) >= threshold :: (a, b)
  }

  /** No shingle belongs to more functions than the occurrence cap. */
  ghost predicate UncappedShingles(functions: Functions, size: nat, cap: nat) {
    forall c :: |Owners(functions, size, c, |functions|)| <= cap
  }

  // ----- identities instead of token sequences -----

  /** Comparing identities gives the same similarity as comparing token sequences. */
  lemma IdentitySimilarity(functions: Functions, size: nat, stamp: seq<string> -> Fingerprint, index: Index, cap: nat,
                           shingles: seq<seq<ShingleIdentity>>, raw: seq<seq<ShingleIdentity>>, a: nat, b: nat)
    requires ShingleIndexed(functions, size, stamp, index, cap, shingles, raw, |functions|)
    requires a < |functions| && b < |functions|
    ensures DiceOf(shingles[a], shingles[b]) == Similarity(functions, size, a, b)
    ensures |shingles[a]| == |Shingles(functions[a], size)|
  {
    var left, right := Shingles(functions[a], size), Shingles(functions[b], size);
    forall i, j | 0 <= i < |left| && 0 <= j < |right|
      ensures raw[a][i] == raw[b][j] <==> left[i] == right[j]
    {
      DenotesInjective(functions, size, stamp, index, raw[a][i], left[i], raw[b][j], right[j]);
    }
    DiceRenamed(raw[a], left, raw[b], right);
    DicePermuted(shingles[a], raw[a], shingles[b], raw[b]);
    assert |multiset(shingles[a])| == |multiset(raw[a])|;
  }

  // ----- candidate pairs -----

  /** `a` is listed before `b`. */
  ghost predicate ListsPair(s: seq<nat>, a: nat, b: nat) {
    exists i, j :: 0 <= i < j < |s| && s[i] == a && s[j] == b
  }

  /** The bucket lists both functions of the pair, and their sizes allow the threshold. */
  ghost predicate BucketPair(bucket: ShingleBucket, shingles: seq<seq<ShingleIdentity>>, threshold: real, pair: (nat, nat)) {
    && pair.0 < |shingles| && pair.1 < |shingles|
    && CanReachDice(|shingles[pair.0]|, |shingles[pair.1]|, threshold)
    && ListsPair(bucket.functions, pair.0, pair.1)
  }

  ghost predicate PairsBefore(bucket: ShingleBucket, shingles: seq<seq<ShingleIdentity>>, threshold: real,
                              i: nat, j: nat, pair: (nat, nat))
  {
    && pair.0 < |shingles| && pair.1 < |shingles|
    && CanReachDice(|shingles[pair.0]|, |shingles[pair.1]|, threshold)
    && exists a, b :: 0 <= a < b < |bucket.functions| && (a < i || (a == i && b < j))
         && bucket.functions[a] == pair.0 && bucket.functions[b] == pair.1
  }

  lemma PairsBeforeStep(bucket: ShingleBucket, shingles: seq<seq<ShingleIdentity>>, threshold: real, i: nat, j: nat, pair: (nat, nat))
    requires i < j < |bucket.functions|
    requires bucket.functions[i] < |shingles| && bucket.functions[j] < |shingles|
    ensures PairsBefore(bucket, shingles, threshold, i, j + 1, pair) <==>
      || PairsBefore(bucket, shingles, threshold, i, j, pair)
      || (pair == (bucket.functions[i], bucket.functions[j])
          && CanReachDice(|shingles[pair.0]|, |shingles[pair.1]|, threshold))
  {
  }

  lemma PairsBeforeRow(bucket: ShingleBucket, shingles: seq<seq<ShingleIdentity>>, threshold: real, i: nat, pair: (nat, nat))
    ensures PairsBefore(bucket, shingles, threshold, i, |bucket.functions|, pair) <==>
            PairsBefore(bucket, shingles, threshold, i + 1, i + 2, pair)
  {
  }

  method AddBucket(bucket: ShingleBucket, shingles: seq<seq<ShingleIdentity>>, threshold: real, work: Work,
                   before: set<(nat, nat)>)
    returns (r: Result<set<(nat, nat)>, DryError>)
    requires forall g :: g in bucket.functions ==> g < |shingles|
    modifies work
    ensures r.Success? ==> forall pair :: pair in r.value <==> pair in before || BucketPair(bucket, shingles, threshold, pair)
    ensures r.Failure? ==> Exhausted(r.error, work.limit)
  {
    var pairs := before;
    for i := 0 to |bucket.functions|
      invariant forall pair :: pair in pairs <==> pair in before || PairsBefore(bucket, shingles, threshold, i, i + 1, pair)
    {
      for j := i + 1 to |bucket.functions|
        invariant forall pair :: pair in pairs <==> pair in before || PairsBefore(bucket, shingles, threshold, i, j, pair)
      {
        var pair := (bucket.functions[i], bucket.functions[j]);
        assert pair.0 in bucket.functions && pair.1 in bucket.functions;
        forall other {
          PairsBeforeStep(bucket, shingles, threshold, i, j, other);
        }
        if CanReachDice(|shingles[pair.0]|, |shingles[pair.1]|, threshold) && pair !in pairs {
          var _ :- work.Consume(1);
          pairs := pairs + {pair};
        }
      }
      forall pair {
        PairsBeforeRow(bucket, shingles, threshold, i, pair);
      }
    }
    return Success(pairs);
  }

  ghost predicate OwnersInRange(index: Index, n: nat) {
    forall p, v, g :: p in index && 0 <= v < |index[p]| && g in index[p][v].functions ==> g < n
  }

  /** Some bucket of the index lists the pair. */
  ghost predicate Candidate(index: Index, shingles: seq<seq<ShingleIdentity>>, threshold: real, pair: (nat, nat)) {
    exists p, v :: p in index && 0 <= v < |index[p]| && BucketPair(index[p][v], shingles, threshold, pair)
  }

  ghost predicate VariantPair(variants: seq<ShingleBucket>, shingles: seq<seq<ShingleIdentity>>, threshold: real, pair: (nat, nat)) {
    exists v :: 0 <= v < |variants| && BucketPair(variants[v], shingles, threshold, pair)
  }

  method AddVariants(variants: seq<ShingleBucket>, shingles: seq<seq<ShingleIdentity>>, threshold: real, work: Work,
                     before: set<(nat, nat)>)
    returns (r: Result<set<(nat, nat)>, DryError>)
    requires forall v, g :: 0 <= v < |variants| && g in variants[v].functions ==> g < |shingles|
    modifies work
    ensures r.Success? ==> forall pair :: pair in r.value <==> pair in before || VariantPair(variants, shingles, threshold, pair)
    ensures r.Failure? ==> Exhausted(r.error, work.limit)
  {
    var pairs := before;
    for v := 0 to |variants|
      invariant forall pair :: pair in pairs <==> pair in before || VariantPair(variants[..v], shingles, threshold, pair)
    {
      forall pair {
        VariantPairStep(variants, v, shingles, threshold, pair);
      }
      pairs :- AddBucket(variants[v], shingles, threshold, work, pairs);
    }
    assert variants[..|variants|] == variants;
    return Success(pairs);
  }

  lemma VariantPairStep(variants: seq<ShingleBucket>, v: nat, shingles: seq<seq<ShingleIdentity>>, threshold: real, pair: (nat, nat))
    requires v < |variants|
    ensures VariantPair(variants[..v + 1], shingles, threshold, pair) <==>
      VariantPair(variants[..v], shingles, threshold, pair) || BucketPair(variants[v], shingles, threshold, pair)
  {
    var front, longer := variants[..v], variants[..v + 1];
    assert longer == front + [variants[v]];
    if VariantPair(front, shingles, threshold, pair) {
      var w :| 0 <= w < |front| && BucketPair(front[w], shingles, threshold, pair);
      assert longer[w] == front[w];
    }
    if BucketPair(variants[v], shingles, threshold, pair) {
      assert longer[v] == variants[v];
    }
    if VariantPair(longer, shingles, threshold, pair) {
      var w :| 0 <= w < |longer| && BucketPair(longer[w], shingles, threshold, pair);
      assert w < v ==> front[w] == longer[w];
    }
  }

  /** The candidate pairs are those some bucket lists, each charged once. */
  method FunctionCandidatePairs(index: Index, shingles: seq<seq<ShingleIdentity>>, threshold: real, work: Work)
    returns (r: Result<set<(nat, nat)>, DryError>)
    requires OwnersInRange(index, |shingles|)
    modifies work
    ensures r.Success? ==> forall pair :: pair in r.value <==> Candidate(index, shingles, threshold, pair)
    ensures r.Failure? ==> Exhausted(r.error, work.limit)
  {
    var order := Candidates.SortedFingerprints(index.Keys);
    var pairs := {};
    for i := 0 to |order|
      invariant forall pair :: pair in pairs <==>
        exists k :: 0 <= k < i && VariantPair(index[order[k]], shingles, threshold, pair)
    {
      pairs :- AddVariants(index[order[i]], shingles, threshold, work, pairs);
    }
    forall pair
      ensures pair in pairs <==> Candidate(index, shingles, threshold, pair)
    {
      if Candidate(index, shingles, threshold, pair) {
        var p, v :| p in index && 0 <= v < |index[p]| && BucketPair(index[p][v], shingles, threshold, pair);
        assert p in order;
        var k :| 0 <= k < |order| && order[k] == p;
        assert VariantPair(index[order[k]], shingles, threshold, pair);
      }
    }
    return Success(pairs);
  }

  lemma IndexOwnersInRange(functions: Functions, size: nat, stamp: seq<string> -> Fingerprint, index: Index, cap: nat,
                           shingles: seq<seq<ShingleIdentity>>, raw: seq<seq<ShingleIdentity>>)
    requires ShingleIndexed(functions, size, stamp, index, cap, shingles, raw, |functions|)
    ensures OwnersInRange(index, |functions|)
  {
    forall p, v, g | p in index && 0 <= v < |index[p]| && g in index[p][v].functions
      ensures g < |functions|
    {
      var c := Content(functions, size, index[p][v].representative);
      OwnersMembers(functions, size, c, |functions|);
      assert g in Owners(functions, size, c, |functions|);
    }
  }

  lemma CandidateInOrder(functions: Functions, size: nat, stamp: seq<string> -> Fingerprint, index: Index, cap: nat,
                         shingles: seq<seq<ShingleIdentity>>, raw: seq<seq<ShingleIdentity>>, threshold: real, pair: (nat, nat))
    requires ShingleIndexed(functions, size, stamp, index, cap, shingles, raw, |functions|)
    requires Candidate(index, shingles, threshold, pair)
    ensures pair.0 < pair.1 < |functions|
  {
    var p, v :| p in index && 0 <= v < |index[p]| && BucketPair(index[p][v], shingles, threshold, pair);
    assert VariantsOk(functions, size, stamp, p, index[p]);
    CappedPairInOrder(functions, size, Content(functions, size, index[p][v].representative), cap, pair.0, pair.1);
  }

  lemma CappedPairInOrder(functions: Functions, size: nat, c: seq<string>, cap: nat, a: nat, b: nat)
    requires ListsPair(Capped(Owners(functions, size, c, |functions|), cap), a, b)
    ensures a < b < |functions|
  {
    OwnersMembers(functions, size, c, |functions|);
    var owners := Owners(functions, size, c, |functions|);
    var i, j :| 0 <= i < j < |Capped(owners, cap)| && Capped(owners, cap)[i] == a && Capped(owners, cap)[j] == b;
    assert owners[i] == a && owners[j] == b && b in owners;
  }

  // ----- what the index can list -----

  /** The functions before `g` that have the shingle. */
  ghost function EarlierOwners(functions: Functions, size: nat, c: seq<string>, g: nat): set<nat>
    requires g <= |functions|
  {
    set h: nat | h < g && c in Shingles(functions[h], size)
  }

  /** Among the first `cap` functions that have the shingle. */
  ghost predicate ListedOwner(functions: Functions, size: nat, cap: nat, c: seq<string>, g: nat) {
    g < |functions| && c in Shingles(functions[g], size) && |EarlierOwners(functions, size, c, g)| < cap
  }

  /** Some shingle lists both functions. */
  ghost predicate SharesListed(functions: Functions, size: nat, cap: nat, a: nat, b: nat) {
    exists c :: ListedOwner(functions, size, cap, c, a) && ListedOwner(functions, size, cap, c, b)
  }

  /** The similar pairs that some shingle lists. */
  ghost function ListedPairs(functions: Functions, size: nat, cap: nat, threshold: real): Edges {
    set p | p in SimilarPairs(functions, size, threshold) && SharesListed(functions, size, cap, p.0, p.1)
  }

  lemma {:induction false} OwnersCount(functions: Functions, size: nat, c: seq<string>, g: nat)
    requires g <= |functions|
    ensures |Owners(functions, size, c, g)| == |EarlierOwners(functions, size, c, g)|
  {
    if g == 0 {
      assert EarlierOwners(functions, size, c, 0) == {};
    } else {
      OwnersCount(functions, size, c, g - 1);
      var before := EarlierOwners(functions, size, c, g - 1);
      var more := if c in Shingles(functions[g - 1], size) then before + {g - 1} else before;
      OneMoreOwner(functions, size, c, g, more);
      AddSize(before, g - 1);
    }
  }

  lemma OneMoreOwner(functions: Functions, size: nat, c: seq<string>, g: nat, more: set<nat>)
    requires 0 < g <= |functions|
    requires more == var before := EarlierOwners(functions, size, c, g - 1);
                     if c in Shingles(functions[g - 1], size) then before + {g - 1} else before
    ensures EarlierOwners(functions, size, c, g) == more
  {
    forall h: nat
      ensures h in EarlierOwners(functions, size, c, g) <==> h in more
    {
    }
  }

  lemma {:induction false} OwnersPrefix(functions: Functions, size: nat, c: seq<string>, g: nat, n: nat)
    requires g < n <= |functions|
    ensures Owners(functions, size, c, g) <= Owners(functions, size, c, n)
    ensures c in Shingles(functions[g], size) ==>
      var i := |Owners(functions, size, c, g)|; i < |Owners(functions, size, c, n)| && Owners(functions, size, c, n)[i] == g
  {
    if g < n - 1 {
      OwnersPrefix(functions, size, c, g, n - 1);
    }
  }

  /** The capped owner list holds exactly the listed owners. */
  lemma CappedOwners(functions: Functions, size: nat, cap: nat, c: seq<string>, g: nat)
    ensures g in Capped(Owners(functions, size, c, |functions|), cap) <==> ListedOwner(functions, size, cap, c, g)
  {
    var n := |functions|;
    var owners := Owners(functions, size, c, n);
    OwnersMembers(functions, size, c, n);
    assert g in Capped(owners, cap) ==> g in owners;
    if g < n && c in Shingles(functions[g], size) {
      OwnersCount(functions, size, c, g);
      OwnersPrefix(functions, size, c, g, n);
      var i := |Owners(functions, size, c, g)|;
      if g in Capped(owners, cap) {
        var k :| 0 <= k < |Capped(owners, cap)| && Capped(owners, cap)[k] == g;
        assert owners[k] == owners[i] && k == i;
      }
      if i < cap {
        assert Capped(owners, cap)[i] == g;
      }
    }
  }

  /** A similar pair is a candidate exactly when some shingle lists both functions. */
  lemma CandidateIsListed(functions: Functions, size: nat, stamp: seq<string> -> Fingerprint, index: Index, cap: nat,
                          shingles: seq<seq<ShingleIdentity>>, raw: seq<seq<ShingleIdentity>>, threshold: real, a: nat, b: nat)
    requires ShingleIndexed(functions, size, stamp, index, cap, shingles, raw, |functions|)
    requires a < b < |functions| && 0.0 < threshold <= Similarity(functions, size, a, b)
    ensures Candidate(index, shingles, threshold, (a, b)) <==> SharesListed(functions, size, cap, a, b)
  {
    if Candidate(index, shingles, threshold, (a, b)) {
      var p, v :| p in index && 0 <= v < |index[p]| && BucketPair(index[p][v], shingles, threshold, (a, b));
      assert VariantsOk(functions, size, stamp, p, index[p]);
      var c := Content(functions, size, index[p][v].representative);
      CappedOwners(functions, size, cap, c, a);
      CappedOwners(functions, size, cap, c, b);
    }
    if SharesListed(functions, size, cap, a, b) {
      var c :| ListedOwner(functions, size, cap, c, a) && ListedOwner(functions, size, cap, c, b);
      ListedIsCandidate(functions, size, stamp, index, cap, shingles, raw, threshold, a, b, c);
    }
  }

  lemma ListedIsCandidate(functions: Functions, size: nat, stamp: seq<string> -> Fingerprint, index: Index, cap: nat,
                          shingles: seq<seq<ShingleIdentity>>, raw: seq<seq<ShingleIdentity>>, threshold: real,
                          a: nat, b: nat, c: seq<string>)
    requires ShingleIndexed(functions, size, stamp, index, cap, shingles, raw, |functions|)
    requires a < b < |functions| && 0.0 < threshold <= Similarity(functions, size, a, b)
    requires ListedOwner(functions, size, cap, c, a) && ListedOwner(functions, size, cap, c, b)
    ensures Candidate(index, shingles, threshold, (a, b))
  {
    var left := Shingles(functions[a], size);
    SimilarPassesFilters(left, Shingles(functions[b], size), threshold);
    IdentitySimilarity(functions, size, stamp, index, cap, shingles, raw, a, b);
    IdentitySimilarity(functions, size, stamp, index, cap, shingles, raw, b, a);
    var t: nat :| t < |left| && left[t] == c;
    var id := raw[a][t];
    FiledOwners(functions, size, stamp, index, cap, shingles, raw, a, t);
    CappedOwners(functions, size, cap, c, a);
    CappedOwners(functions, size, cap, c, b);
    CappedListPair(functions, size, cap, c, a, b);
    assert BucketPair(index[id.fingerprint][id.variant], shingles, threshold, (a, b));
  }

  /** The bucket of a shingle lists its capped owners. */
  lemma FiledOwners(functions: Functions, size: nat, stamp: seq<string> -> Fingerprint, index: Index, cap: nat,
                    shingles: seq<seq<ShingleIdentity>>, raw: seq<seq<ShingleIdentity>>, a: nat, t: nat)
    requires ShingleIndexed(functions, size, stamp, index, cap, shingles, raw, |functions|)
    requires a < |functions| && t < |Shingles(functions[a], size)|
    ensures t < |raw[a]| && raw[a][t].fingerprint in index && raw[a][t].variant < |index[raw[a][t].fingerprint]|
    ensures (index[raw[a][t].fingerprint][raw[a][t].variant].functions
          == Capped(Owners(functions, size, Shingles(functions[a], size)[t], |functions|), cap))
  {
    assert Denotes(functions, size, index, raw[a][t], Shingles(functions[a], size)[t]);
  }

  lemma CappedListPair(functions: Functions, size: nat, cap: nat, c: seq<string>, a: nat, b: nat)
    requires a < b
    requires var o := Capped(Owners(functions, size, c, |functions|), cap); a in o && b in o
    ensures ListsPair(Capped(Owners(functions, size, c, |functions|), cap), a, b)
  {
    var owners := Owners(functions, size, c, |functions|);
    OwnersMembers(functions, size, c, |functions|);
    var o := Capped(owners, cap);
    var i :| 0 <= i < |o| && o[i] == a;
    var j :| 0 <= j < |o| && o[j] == b;
    assert owners[i] == a && owners[j] == b && i < j;
  }

  /** Without capped buckets every similar pair is listed. */
  lemma UncappedListed(functions: Functions, size: nat, cap: nat, threshold: real)
    requires UncappedShingles(functions, size, cap) && 0.0 < threshold
    ensures ListedPairs(functions, size, cap, threshold) == SimilarPairs(functions, size, threshold)
  {
    forall p | p in SimilarPairs(functions, size, threshold)
      ensures SharesListed(functions, size, cap, p.0, p.1)
    {
      var left, right := Shingles(functions[p.0], size), Shingles(functions[p.1], size);
      SimilarPassesFilters(left, right, threshold);
      var c :| c in left && c in right;
      OwnersMembers(functions, size, c, |functions|);
      CappedOwners(functions, size, cap, c, p.0);
      CappedOwners(functions, size, cap, c, p.1);
      assert Capped(Owners(functions, size, c, |functions|), cap) == Owners(functions, size, c, |functions|);
    }
  }

  // ----- accepted pairs and components -----

  datatype Accepted = Accepted(left: nat, right: nat, similarity: real)

  ghost function EdgesOf(accepted: seq<Accepted>): Edges {
    set t | t in accepted :: (t.left, t.right)
  }

  /** The pairs of `done` that reach the threshold, each with its similarity. */
  ghost predicate AcceptedExactly(accepted: seq<Accepted>, done: Edges, shingles: seq<seq<ShingleIdentity>>, threshold: real) {
    && (forall t :: t in accepted ==>
          && (t.left, t.right) in done && t.left < |shingles| && t.right < |shingles|
          && t.similarity == DiceOf(shingles[t.left], shingles[t.right]) >= threshold)
    && (forall a, b :: (a, b) in done && a < |shingles| && b < |shingles| && DiceOf(shingles[a], shingles[b]) >= threshold ==>
          Accepted(a, b, DiceOf(shingles[a], shingles[b])) in accepted)
  }

  predicate PairLeq(a: (nat, nat), b: (nat, nat)) {
    LexLeq([a.0, a.1], [b.0, b.1])
  }

  /** The ordered set of candidate pairs, listed. */
  method SortedPairs(pairs: set<(nat, nat)>) returns (order: seq<(nat, nat)>)
    ensures forall p :: p in order <==> p in pairs
    ensures SortedBy(order, PairLeq)
  {
    var pending := pairs;
    order := [];
    while pending != {}
      invariant forall p :: p in pairs <==> p in order || p in pending
      decreases pending
    {
      var p :| p in pending;
      pending := pending - {p};
      order := order + [p];
    }
    KeyOrder((a: (nat, nat)) => [a.0, a.1], PairLeq);
    SortCorrect(order, PairLeq);
    order := Sort(order, PairLeq);
  }

  ghost function Listed(order: seq<(nat, nat)>, n: nat): Edges
    requires n <= |order|
  {
    set k: nat | k < n :: order[k]
  }

  method AcceptFunctionPairs(candidates: set<(nat, nat)>, shingles: seq<seq<ShingleIdentity>>, threshold: real, work: Work)
    returns (r: Result<seq<Accepted>, DryError>, components: DisjointSet)
    requires 0.0 < threshold
    requires forall p :: p in candidates ==> p.0 < |shingles| && p.1 < |shingles|
    requires forall g :: 0 <= g < |shingles| ==> SortedBy(shingles[g], IdentityLeq) && 2 * |shingles[g]| <= U32_MAX
    modifies work
    ensures fresh(components) && fresh(components.parents) && components.parents.Length == |shingles|
    ensures r.Success? ==>
      && AcceptedExactly(r.value, candidates, shingles, threshold)
      && Represents(components.parents[..], EdgesOf(r.value))
    ensures r.Failure? ==> Exhausted(r.error, work.limit)
  {
    components := new DisjointSet(|shingles|);
    FreshRepresents(components.parents[..]);
    var accepted := [];
    var order := SortedPairs(candidates);
    assert EdgesOf(accepted) == {};
    for k := 0 to |order|
      invariant AcceptedExactly(accepted, Listed(order, k), shingles, threshold)
      invariant Represents(components.parents[..], EdgesOf(accepted))
    {
      var (left, right) := order[k];
      assert order[k] in candidates;
      var result := DiceSimilarity(shingles[left], shingles[right], threshold, work);
      if result.Failure? {
        return Failure(result.error), components;
      }
      ListedStep(order, k, accepted, shingles, threshold);
      if result.value >= threshold {
        ghost var before := components.parents[..];
        components.Union(left, right);
        JoinedRepresents(before, components.parents[..], EdgesOf(accepted), left, right);
        EdgesOfAppend(accepted, Accepted(left, right, result.value));
        accepted := accepted + [Accepted(left, right, result.value)];
      }
    }
    assert Listed(order, |order|) == candidates by {
      forall p | p in candidates
        ensures p in Listed(order, |order|)
      {
        assert p in order;
        var k :| 0 <= k < |order| && order[k] == p;
      }
      forall p | p in Listed(order, |order|)
        ensures p in candidates
      {
        assert p in order;
      }
    }
    return Success(accepted), components;
  }

  lemma EdgesOfAppend(accepted: seq<Accepted>, t: Accepted)
    ensures EdgesOf(accepted + [t]) == EdgesOf(accepted) + {(t.left, t.right)}
  {
    assert t in accepted + [t];
    forall e | e in EdgesOf(accepted)
      ensures e in EdgesOf(accepted + [t])
    {
      var u :| u in accepted && e == (u.left, u.right);
      assert u in accepted + [t];
    }
  }

  lemma ListedStep(order: seq<(nat, nat)>, k: nat, accepted: seq<Accepted>, shingles: seq<seq<ShingleIdentity>>, threshold: real)
    requires k < |order| && order[k].0 < |shingles| && order[k].1 < |shingles|
    requires AcceptedExactly(accepted, Listed(order, k), shingles, threshold)
    ensures var similarity := DiceOf(shingles[order[k].0], shingles[order[k].1]);
            AcceptedExactly(
              if similarity >= threshold then accepted + [Accepted(order[k].0, order[k].1, similarity)] else accepted,
              Listed(order, k + 1), shingles, threshold)
  {
    assert Listed(order, k + 1) == Listed(order, k) + {order[k]};
  }

  /** The members of the class of `root` among the first `n` indices, in order. */
  ghost function ClassOf(parents: seq<nat>, root: nat, n: nat): seq<nat>
    requires Forest(parents) && n <= |parents|
  {
    if n == 0 then
      []
    else
      ClassOf(parents, root, n - 1) + (if RootOf(parents, n - 1) == root then [n - 1] else [])
  }

  lemma {:induction false} ClassMembers(parents: seq<nat>, root: nat, n: nat)
    requires Forest(parents) && n <= |parents|
    ensures forall i :: i in ClassOf(parents, root, n) <==> 0 <= i < n && RootOf(parents, i) == root
    ensures Increasing(ClassOf(parents, root, n))
  {
    if n > 0 {
      ClassMembers(parents, root, n - 1);
      var front := ClassOf(parents, root, n - 1);
      forall i | 0 <= i < |front|
        ensures front[i] < n - 1
      {
        assert front[i] in front;
      }
    }
  }

  method ComponentMembers(components: DisjointSet) returns (members: map<nat, seq<nat>>)
    requires components.Valid()
    modifies components.parents
    ensures components.Valid() && SameRoots(old(components.parents[..]), components.parents[..])
    ensures var p, n := old(components.parents[..]), components.parents.Length;
            n == |p| && MembersListed(members, p)
  {
    ghost var p := components.parents[..];
    members := map[];
    for i := 0 to components.parents.Length
      invariant components.Valid() && SameRoots(p, components.parents[..])
      invariant MembersBelow(members, p, i)
    {
      var root := components.Root(i);
      MembersStep(members, p, i);
      members := WithMember(members, root, i);
    }
  }

  function WithMember(members: map<nat, seq<nat>>, root: nat, i: nat): map<nat, seq<nat>> {
    members[root := (if root in members then members[root] else []) + [i]]
  }

  /** Each root among the first `n` indices lists its class so far. */
  ghost predicate MembersBelow(members: map<nat, seq<nat>>, parents: seq<nat>, n: nat)
    requires Forest(parents) && n <= |parents|
  {
    forall root :: (root in members <==> ClassOf(parents, root, n) != []) &&
                   (root in members ==> members[root] == ClassOf(parents, root, n))
  }

  lemma MembersStep(members: map<nat, seq<nat>>, parents: seq<nat>, i: nat)
    requires Forest(parents) && i < |parents| && MembersBelow(members, parents, i)
    ensures MembersBelow(WithMember(members, RootOf(parents, i), i), parents, i + 1)
  {
  }

  /** `least` is the smallest similarity of the accepted pairs whose root is `root`. */
  ghost predicate LeastSimilarity(roots: seq<nat>, accepted: seq<Accepted>, root: nat, least: real)
    requires forall t :: t in accepted ==> t.left < |roots|
  {
    && (exists t :: t in accepted && roots[t.left] == root && t.similarity == least)
    && (forall t :: t in accepted && roots[t.left] == root ==> least <= t.similarity)
  }

  ghost predicate LeastsListed(roots: seq<nat>, accepted: seq<Accepted>, least: map<nat, real>)
    requires forall t :: t in accepted ==> t.left < |roots|
  {
    && (forall t :: t in accepted ==> roots[t.left] in least)
    && (forall root :: root in least ==> LeastSimilarity(roots, accepted, root, least[root]))
  }

  function WithLeast(least: map<nat, real>, root: nat, similarity: real): map<nat, real> {
    least[root := if root in least && least[root] <= similarity then least[root] else similarity]
  }

  method ComponentSimilarities(accepted: seq<Accepted>, components: DisjointSet) returns (least: map<nat, real>)
    requires components.Valid()
    requires forall t :: t in accepted ==> t.left < components.parents.Length
    modifies components.parents
    ensures components.Valid() && SameRoots(old(components.parents[..]), components.parents[..])
    ensures LeastsListed(Roots(old(components.parents[..])), accepted, least)
  {
    ghost var p := components.parents[..];
    ghost var roots := Roots(p);
    least := map[];
    for k := 0 to |accepted|
      invariant components.Valid() && SameRoots(p, components.parents[..])
      invariant LeastsListed(roots, accepted[..k], least)
    {
      assert accepted[k] in accepted && accepted[k].left < |roots|;
      var root := components.Root(accepted[k].left);
      var similarity := accepted[k].similarity;
      LeastStep(roots, accepted[..k], accepted[k], least);
      assert accepted[..k + 1] == accepted[..k] + [accepted[k]];
      least := WithLeast(least, root, similarity);
    }
    assert accepted[..|accepted|] == accepted;
  }

  lemma LeastStep(roots: seq<nat>, front: seq<Accepted>, last: Accepted, before: map<nat, real>)
    requires (forall t :: t in front ==> t.left < |roots|) && last.left < |roots|
    requires LeastsListed(roots, front, before)
    ensures var root := roots[last.left];
            LeastsListed(roots, front + [last], WithLeast(before, root, last.similarity))
  {
    var all := front + [last];
    var root := roots[last.left];
    var least := WithLeast(before, root, last.similarity);
    assert last in all;
    forall r | r in least
      ensures LeastSimilarity(roots, all, r, least[r])
    {
      if r in before {
        var t :| t in front && roots[t.left] == r && t.similarity == before[r];
        assert t in all;
      }
    }
  }

  // ----- groups -----

  datatype Group = Group(members: seq<nat>, similarity: real)

  /** The members are all functions connected to any one of them. */
  ghost predicate IsClass(pairs: Edges, count: nat, members: seq<nat>) {
    && |members| >= 2 && Increasing(members)
    && (forall x :: x in members ==> x < count)
    && (forall x: nat, y: nat :: x in members && y < count ==> (Connected(pairs, x, y) <==> y in members))
  }

  /** The least similarity over the similar pairs inside the class. */
  ghost predicate IsLeastSimilarity(functions: Functions, size: nat, pairs: Edges, members: seq<nat>, least: real)
    requires forall p :: p in pairs ==> p.0 < |functions| && p.1 < |functions|
  {
    && (exists p :: p in pairs && p.0 in members && Similarity(functions, size, p.0, p.1) == least)
    && (forall p :: p in pairs && p.0 in members ==> least <= Similarity(functions, size, p.0, p.1))
  }

  /** The group is one connected component, and its similarity is the least of its similar pairs. */
  ghost predicate IsComponent(functions: Functions, size: nat, pairs: Edges, g: Group)
    requires forall p :: p in pairs ==> p.0 < |functions| && p.1 < |functions|
  {
    && IsClass(pairs, |functions|, g.members)
    && IsLeastSimilarity(functions, size, pairs, g.members, g.similarity)
  }

  ghost predicate ByLeastMember(groups: seq<Group>) {
    && (forall g :: g in groups ==> g.members != [])
    && forall i, j :: 0 <= i < j < |groups| ==> groups[i].members[0] < groups[j].members[0]
  }

  /** Some group holds both functions. */
  ghost predicate Together(groups: seq<Group>, a: nat, b: nat) {
    exists g :: g in groups && a in g.members && b in g.members
  }

  /** The groups are exactly the components of at least two functions, each once, by least member. */
  ghost predicate GroupsExact(functions: Functions, size: nat, pairs: Edges, groups: seq<Group>)
    requires forall p :: p in pairs ==> p.0 < |functions| && p.1 < |functions|
  {
    && (forall g :: g in groups ==> IsComponent(functions, size, pairs, g))
    && ByLeastMember(groups)
    && (forall a: nat, b: nat :: a < |functions| && b < |functions| && a != b ==>
          (Together(groups, a, b) <==> Connected(pairs, a, b)))
  }

  /** The accepted list holds the pairs of `pairs`, each with its reference similarity. */
  ghost predicate AcceptedSimilarities(functions: Functions, size: nat, pairs: Edges, accepted: seq<Accepted>) {
    && (forall p :: p in pairs ==> p.0 < |functions| && p.1 < |functions|)
    && (forall t :: t in accepted ==> (t.left, t.right) in pairs && t.similarity == Similarity(functions, size, t.left, t.right))
    && (forall p :: p in pairs ==> Accepted(p.0, p.1, Similarity(functions, size, p.0, p.1)) in accepted)
  }

  /** What the accept loop leaves behind. */
  ghost predicate Linked(functions: Functions, size: nat, pairs: Edges, accepted: seq<Accepted>, parents: seq<nat>) {
    && |parents| == |functions|
    && Represents(parents, pairs)
    && AcceptedSimilarities(functions, size, pairs, accepted)
  }

  /** The accepted pairs are exactly the similar ones that some shingle lists. */
  lemma AcceptedAreSimilar(functions: Functions, size: nat, stamp: seq<string> -> Fingerprint, index: Index, cap: nat,
                           shingles: seq<seq<ShingleIdentity>>, raw: seq<seq<ShingleIdentity>>, threshold: real,
                           candidates: Edges, accepted: seq<Accepted>)
    requires ShingleIndexed(functions, size, stamp, index, cap, shingles, raw, |functions|)
    requires 0.0 < threshold
    requires forall pair :: pair in candidates <==> Candidate(index, shingles, threshold, pair)
    requires AcceptedExactly(accepted, candidates, shingles, threshold)
    ensures EdgesOf(accepted) == ListedPairs(functions, size, cap, threshold)
    ensures AcceptedSimilarities(functions, size, EdgesOf(accepted), accepted)
  {
    forall t | t in accepted
      ensures (t.left, t.right) in ListedPairs(functions, size, cap, threshold)
      ensures t.similarity == Similarity(functions, size, t.left, t.right)
    {
      assert (t.left, t.right) in candidates;
      CandidateInOrder(functions, size, stamp, index, cap, shingles, raw, threshold, (t.left, t.right));
      IdentitySimilarity(functions, size, stamp, index, cap, shingles, raw, t.left, t.right);
      CandidateIsListed(functions, size, stamp, index, cap, shingles, raw, threshold, t.left, t.right);
    }
    forall a, b | (a, b) in ListedPairs(functions, size, cap, threshold)
      ensures (a, b) in EdgesOf(accepted)
    {
      CandidateIsListed(functions, size, stamp, index, cap, shingles, raw, threshold, a, b);
      IdentitySimilarity(functions, size, stamp, index, cap, shingles, raw, a, b);
      assert (a, b) in candidates;
      assert Accepted(a, b, Similarity(functions, size, a, b)) in accepted;
    }
  }

  /** A class of two or more functions has an accepted pair. */
  lemma ClassHasLink(functions: Functions, size: nat, pairs: Edges, accepted: seq<Accepted>, parents: seq<nat>, root: nat)
    requires Linked(functions, size, pairs, accepted, parents)
    requires |ClassOf(parents, root, |parents|)| >= 2
    ensures exists t :: t in accepted && RootOf(parents, t.left) == root
  {
    var cls := ClassOf(parents, root, |parents|);
    ClassMembers(parents, root, |parents|);
    var a, b := cls[0], cls[1];
    assert a in cls && b in cls && a < b;
    SameRootIffConnected(parents, pairs, a, b);
    var path :| IsPath(pairs, path) && path[0] == a && path[|path| - 1] == b;
    assert Adjacent(pairs, path[0], path[0 + 1]);
    var (x, y) := if (path[0], path[1]) in pairs then (path[0], path[1]) else (path[1], path[0]);
    assert (x, y) in pairs;
    assert Accepted(x, y, Similarity(functions, size, x, y)) in accepted;
  }

  lemma ClassIsClass(pairs: Edges, parents: seq<nat>, root: nat)
    requires Represents(parents, pairs) && |ClassOf(parents, root, |parents|)| >= 2
    ensures IsClass(pairs, |parents|, ClassOf(parents, root, |parents|))
    ensures ClassOf(parents, root, |parents|)[0] == root
  {
    var members := ClassOf(parents, root, |parents|);
    ClassMembers(parents, root, |parents|);
    assert members[0] in members;
    assert root in members;
    forall x: nat, y: nat | x in members && y < |parents|
      ensures Connected(pairs, x, y) <==> y in members
    {
      SameRootIffConnected(parents, pairs, x, y);
    }
  }

  lemma ClassLeastSimilarity(functions: Functions, size: nat, pairs: Edges, accepted: seq<Accepted>, parents: seq<nat>,
                             root: nat, least: real)
    requires Linked(functions, size, pairs, accepted, parents)
    requires LeastSimilarity(Roots(parents), accepted, root, least)
    ensures IsLeastSimilarity(functions, size, pairs,
                              ClassOf(parents, root, |parents|), least)
  {
    var members := ClassOf(parents, root, |parents|);
    ClassMembers(parents, root, |parents|);
    var t :| t in accepted && RootOf(parents, t.left) == root && t.similarity == least;
    assert (t.left, t.right) in pairs && t.left in members;
    forall p | p in pairs && p.0 in members
      ensures least <= Similarity(functions, size, p.0, p.1)
    {
      assert Accepted(p.0, p.1, Similarity(functions, size, p.0, p.1)) in accepted;
    }
  }

  ghost predicate MembersListed(members: map<nat, seq<nat>>, parents: seq<nat>)
    requires Forest(parents)
  {
    MembersBelow(members, parents, |parents|)
  }

  /** The groups of all classes whose root is below `n`. */
  ghost predicate GroupsBelow(groups: seq<Group>, parents: seq<nat>, least: map<nat, real>, n: nat)
    requires Forest(parents)
  {
    && (forall g :: g in groups ==>
          exists root: nat :: root < n && IsGroup(g, parents, least, root))
    && (forall root: nat :: root < n && root in least && |ClassOf(parents, root, |parents|)| >= 2 ==>
          Group(ClassOf(parents, root, |parents|), least[root]) in groups)
  }

  ghost predicate IsGroup(g: Group, parents: seq<nat>, least: map<nat, real>, root: nat)
    requires Forest(parents)
  {
    |g.members| >= 2 && root in least && g == Group(ClassOf(parents, root, |parents|), least[root])
  }

  method FunctionGroups(functionCount: nat, members: map<nat, seq<nat>>, least: map<nat, real>, ghost parents: seq<nat>)
    returns (groups: seq<Group>)
    requires Forest(parents) && MembersListed(members, parents)
    requires functionCount == |parents|
    ensures GroupsBelow(groups, parents, least, |parents|) && ByLeastMember(groups)
  {
    groups := [];
    for root := 0 to functionCount
      invariant GroupsBelow(groups, parents, least, root) && LedBelow(groups, root)
    {
      GroupsBelowStep(groups, parents, least, root);
      if root in members && |members[root]| >= 2 && root in least {
        ClassFirst(parents, root);
        ByLeastMemberAppend(groups, Group(members[root], least[root]), root);
        groups := groups + [Group(members[root], least[root])];
      }
    }
  }

  /** The groups are ordered by least member, all below `n`. */
  ghost predicate LedBelow(groups: seq<Group>, n: nat) {
    ByLeastMember(groups) && forall g :: g in groups ==> g.members[0] < n
  }

  lemma ByLeastMemberAppend(groups: seq<Group>, g: Group, n: nat)
    requires LedBelow(groups, n) && g.members != [] && g.members[0] == n
    ensures LedBelow(groups + [g], n + 1)
  {
  }

  lemma GroupsBelowStep(groups: seq<Group>, parents: seq<nat>, least: map<nat, real>, root: nat)
    requires Forest(parents) && GroupsBelow(groups, parents, least, root)
    ensures var members := ClassOf(parents, root, |parents|);
            GroupsBelow(if |members| >= 2 && root in least then groups + [Group(members, least[root])] else groups,
                        parents, least, root + 1)
  {
    var members := ClassOf(parents, root, |parents|);
    var next := if |members| >= 2 && root in least then groups + [Group(members, least[root])] else groups;
    forall g | g in next
      ensures exists r: nat :: r < root + 1 && IsGroup(g, parents, least, r)
    {
      if g in groups {
        var r: nat :| r < root && IsGroup(g, parents, least, r);
      } else {
        assert IsGroup(g, parents, least, root);
      }
    }
    forall r: nat | r < root + 1 && r in least && |ClassOf(parents, r, |parents|)| >= 2
      ensures Group(ClassOf(parents, r, |parents|), least[r]) in next
    {
      assert r < root ==> Group(ClassOf(parents, r, |parents|), least[r]) in groups;
    }
  }

  lemma ClassFirst(parents: seq<nat>, root: nat)
    requires Forest(parents) && ClassOf(parents, root, |parents|) != []
    ensures ClassOf(parents, root, |parents|)[0] == root
  {
    var members := ClassOf(parents, root, |parents|);
    ClassMembers(parents, root, |parents|);
    assert members[0] in members;
    assert root in members;
  }

  lemma GroupIsComponent(functions: Functions, size: nat, pairs: Edges, accepted: seq<Accepted>, parents: seq<nat>,
                         least: map<nat, real>, g: Group, root: nat)
    requires Linked(functions, size, pairs, accepted, parents) && LeastsListed(Roots(parents), accepted, least)
    requires IsGroup(g, parents, least, root)
    ensures IsComponent(functions, size, pairs, g)
  {
    ClassIsClass(pairs, parents, root);
    ClassLeastSimilarity(functions, size, pairs, accepted, parents, root, least[root]);
  }

  lemma ConnectedTogether(functions: Functions, size: nat, pairs: Edges, accepted: seq<Accepted>, parents: seq<nat>,
                          least: map<nat, real>, groups: seq<Group>, a: nat, b: nat)
    requires Linked(functions, size, pairs, accepted, parents) && LeastsListed(Roots(parents), accepted, least)
    requires GroupsBelow(groups, parents, least, |parents|)
    requires a < |functions| && b < |functions| && a != b
    requires Connected(pairs, a, b)
    ensures Together(groups, a, b)
  {
    var root := RootOf(parents, a);
    var members := ClassOf(parents, root, |parents|);
    SameRootIffConnected(parents, pairs, a, b);
    ClassMembers(parents, root, |parents|);
    TwoMembers(members, a, b);
    ClassHasLink(functions, size, pairs, accepted, parents, root);
    assert Group(members, least[root]) in groups;
  }

  lemma GroupsAreComponents(functions: Functions, size: nat, pairs: Edges, accepted: seq<Accepted>, parents: seq<nat>,
                            least: map<nat, real>, groups: seq<Group>)
    requires Linked(functions, size, pairs, accepted, parents) && LeastsListed(Roots(parents), accepted, least)
    requires GroupsBelow(groups, parents, least, |parents|) && ByLeastMember(groups)
    ensures GroupsExact(functions, size, pairs, groups)
  {
    forall g | g in groups
      ensures IsComponent(functions, size, pairs, g)
    {
      var root: nat :| root < |parents| && IsGroup(g, parents, least, root);
      GroupIsComponent(functions, size, pairs, accepted, parents, least, g, root);
    }
    forall a: nat, b: nat | a < |functions| && b < |functions| && a != b
      ensures Together(groups, a, b) <==> Connected(pairs, a, b)
    {
      if Connected(pairs, a, b) {
        ConnectedTogether(functions, size, pairs, accepted, parents, least, groups, a, b);
      }
      if Together(groups, a, b) {
        var g :| g in groups && a in g.members && b in g.members;
        assert IsClass(pairs, |functions|, g.members);
      }
    }
  }

  lemma TwoMembers(s: seq<nat>, a: nat, b: nat)
    requires a in s && b in s && a != b
    ensures |s| >= 2
  {
  }

  /**
   A successful run returns exactly the connected components of the similar pairs that share a shingle for which both
   are among the first `cap` owners; when no shingle has more owners these are all similar pairs, whatever the hasher.
   */
  method FindFunctionGroups(functions: Functions, size: nat, cap: nat, threshold: real, budget: Budget,
                            hasher: string -> Fingerprint)
    returns (r: Result<seq<Group>, DryError>, ghost pairs: Edges)
    requires size >= 1 && 0.0 < threshold <= 1.0
    requires forall g :: 0 <= g < |functions| ==> 2 * |Shingles(functions[g], size)| <= U32_MAX
    ensures pairs <= SimilarPairs(functions, size, threshold)
    ensures r.Success? ==> pairs == ListedPairs(functions, size, cap, threshold)
    ensures r.Success? && UncappedShingles(functions, size, cap) ==> pairs == SimilarPairs(functions, size, threshold)
    ensures r.Success? ==> GroupsExact(functions, size, pairs, r.value)
    ensures r.Failure? ==> IndexExceeds(functions, size, budget, r.error) || Exhausted(r.error, budget.maxCandidateWork)
  {
    pairs := {};
    var work := new Work(budget.maxCandidateWork);
    var built, raw := BuildFunctionShingleIndex(functions, size, cap, budget, hasher, work);
    if built.Failure? {
      return Failure(built.error), pairs;
    }
    var (shingles, index) := built.value;
    ghost var stamp := StampOf(hasher);
    IndexOwnersInRange(functions, size, stamp, index, cap, shingles, raw);
    var candidates := FunctionCandidatePairs(index, shingles, threshold, work);
    if candidates.Failure? {
      return Failure(candidates.error), pairs;
    }
    forall p | p in candidates.value
      ensures p.0 < p.1 < |functions|
    {
      CandidateInOrder(functions, size, stamp, index, cap, shingles, raw, threshold, p);
    }
    forall g | 0 <= g < |functions|
      ensures |shingles[g]| == |Shingles(functions[g], size)|
    {
      IdentitySimilarity(functions, size, stamp, index, cap, shingles, raw, g, g);
    }
    var accepted, components := AcceptFunctionPairs(candidates.value, shingles, threshold, work);
    if accepted.Failure? {
      return Failure(accepted.error), pairs;
    }
    AcceptedAreSimilar(functions, size, stamp, index, cap, shingles, raw, threshold, candidates.value, accepted.value);
    pairs := EdgesOf(accepted.value);
    if UncappedShingles(functions, size, cap) {
      UncappedListed(functions, size, cap, threshold);
    }
    var groups := ComponentGroups(accepted.value, components, functions, size, pairs);
    return Success(groups), pairs;
  }

  /** Collects the members and the least similarity of every component. */
  method ComponentGroups(accepted: seq<Accepted>, components: DisjointSet,
                         ghost functions: Functions, ghost size: nat, ghost pairs: Edges)
    returns (groups: seq<Group>)
    requires Linked(functions, size, pairs, accepted, components.parents[..])
    modifies components.parents
    ensures GroupsExact(functions, size, pairs, groups)
  {
    ghost var parents := components.parents[..];
    var members := ComponentMembers(components);
    assert Roots(components.parents[..]) == Roots(parents);
    var least := ComponentSimilarities(accepted, components);
    groups := FunctionGroups(components.parents.Length, members, least, parents);
    GroupsAreComponents(functions, size, pairs, accepted, parents, least, groups);
  }
}
