/**
 The shingle index of whole functions, with exact variants behind every fingerprint
 (crates/analysis-dry/src/lib.rs, `build_function_shingle_index`).
 */
module ShingleIndex {
  import opened Basics
  import opened Wrappers
  import opened WorkBudget
  import opened RollingHash
  import opened Sorting
  import opened Regions
  import opened Dice
  import opened FiniteSets

  /** The normalized tokens of the eligible functions. */
  type Functions = seq<seq<string>>

  datatype FunctionShingle = FunctionShingle(functionIndex: nat, start: nat)

  datatype ShingleBucket = ShingleBucket(representative: FunctionShingle, functions: seq<nat>)

  type Index = map<Fingerprint, seq<ShingleBucket>>

  // ----- reference: shingles as token sequences -----

  ghost function Shingles(tokens: seq<string>, size: nat): seq<seq<string>> {
    seq(WindowCount(|tokens|, size), t requires 0 <= t < WindowCount(|tokens|, size) => tokens[t..t + size])
  }

  ghost predicate IsShingle(functions: Functions, size: nat, s: FunctionShingle) {
    s.functionIndex < |functions| && s.start + size <= |functions[s.functionIndex]|
  }

  ghost function Content(functions: Functions, size: nat, s: FunctionShingle): seq<string>
    requires IsShingle(functions, size, s)
  {
    functions[s.functionIndex][s.start..s.start + size]
  }

  /** The functions among the first `n` that have the shingle, in order. */
  ghost function Owners(functions: Functions, size: nat, c: seq<string>, n: nat): seq<nat>
    requires n <= |functions|
  {
    if n == 0 then
      []
    else
      Owners(functions, size, c, n - 1) + (if c in Shingles(functions[n - 1], size) then [n - 1] else [])
  }

  ghost predicate Increasing(s: seq<nat>) {
    forall i, j :: 0 <= i < j < |s| ==> s[i] < s[j]
  }

  lemma {:induction false} OwnersMembers(functions: Functions, size: nat, c: seq<string>, n: nat)
    requires n <= |functions|
    ensures forall g :: g in Owners(functions, size, c, n) <==> 0 <= g < n && c in Shingles(functions[g], size)
    ensures Increasing(Owners(functions, size, c, n))
  {
    if n > 0 {
      OwnersMembers(functions, size, c, n - 1);
      var front := Owners(functions, size, c, n - 1);
      forall i | 0 <= i < |front|
        ensures front[i] < n - 1
      {
        assert front[i] in front;
      }
    }
  }

  // ----- index invariants -----

  /** Representatives are shingles filed under their fingerprint, and variants differ. */
  ghost predicate Representatives(functions: Functions, size: nat, stamp: seq<string> -> Fingerprint, index: Index) {
    forall p :: p in index ==> VariantsOk(functions, size, stamp, p, index[p])
  }

  ghost predicate VariantsOk(functions: Functions, size: nat, stamp: seq<string> -> Fingerprint, p: Fingerprint,
                             variants: seq<ShingleBucket>)
  {
    && (forall v :: 0 <= v < |variants| ==>
          && IsShingle(functions, size, variants[v].representative)
          && stamp(Content(functions, size, variants[v].representative)) == p)
    && (forall v, w :: 0 <= v < |variants| && 0 <= w < |variants| && v != w ==>
          Content(functions, size, variants[v].representative) != Content(functions, size, variants[w].representative))
  }

  /** The identity names the shingle `c`. */
  ghost predicate Denotes(functions: Functions, size: nat, index: Index, id: ShingleIdentity, c: seq<string>) {
    && id.fingerprint in index && id.variant < |index[id.fingerprint]|
    && IsShingle(functions, size, index[id.fingerprint][id.variant].representative)
    && Content(functions, size, index[id.fingerprint][id.variant].representative) == c
  }

  /** Two denoted shingles are equal exactly when their identities are. */
  lemma DenotesInjective(functions: Functions, size: nat, stamp: seq<string> -> Fingerprint, index: Index,
                         a: ShingleIdentity, c: seq<string>, b: ShingleIdentity, d: seq<string>)
    requires Representatives(functions, size, stamp, index)
    requires Denotes(functions, size, index, a, c) && Denotes(functions, size, index, b, d)
    ensures a == b <==> c == d
  {
  }

  /** Buckets are only added at the end of a variant list, and representatives never change. */
  ghost predicate Extends(before: Index, after: Index) {
    forall p :: p in before ==>
      && p in after && |before[p]| <= |after[p]|
      && forall v :: 0 <= v < |before[p]| ==> before[p][v].representative == after[p][v].representative
  }

  lemma DenotesExtends(functions: Functions, size: nat, before: Index, after: Index, id: ShingleIdentity, c: seq<string>)
    requires Extends(before, after) && Denotes(functions, size, before, id, c)
    ensures Denotes(functions, size, after, id, c)
  {
  }

  ghost predicate DenotesAll(functions: Functions, size: nat, index: Index, ids: seq<ShingleIdentity>, contents: seq<seq<string>>) {
    |ids| == |contents| && forall t :: 0 <= t < |ids| ==> Denotes(functions, size, index, ids[t], contents[t])
  }

  lemma DenotesAllExtends(functions: Functions, size: nat, before: Index, after: Index,
                          ids: seq<ShingleIdentity>, contents: seq<seq<string>>)
    requires Extends(before, after) && DenotesAll(functions, size, before, ids, contents)
    ensures DenotesAll(functions, size, after, ids, contents)
  {
    forall t | 0 <= t < |ids|
      ensures Denotes(functions, size, after, ids[t], contents[t])
    {
      DenotesExtends(functions, size, before, after, ids[t], contents[t]);
    }
  }

  /** The functions that own shingle `c` once the first `s` shingles of function `f` are indexed. */
  ghost function OwnersAt(functions: Functions, size: nat, c: seq<string>, f: nat, s: nat): seq<nat>
    requires f < |functions| && s <= |Shingles(functions[f], size)|
  {
    Owners(functions, size, c, f) + (if c in Shingles(functions[f], size)[..s] then [f] else [])
  }

  ghost predicate OwnersOk(functions: Functions, size: nat, index: Index, cap: nat, f: nat, s: nat)
    requires f < |functions| && s <= |Shingles(functions[f], size)|
  {
    forall p, v :: p in index && 0 <= v < |index[p]| && IsShingle(functions, size, index[p][v].representative) ==>
      index[p][v].functions ==
      Capped(OwnersAt(functions, size, Content(functions, size, index[p][v].representative), f, s), cap)
  }

  ghost predicate OwnersDone(functions: Functions, size: nat, index: Index, cap: nat, n: nat)
    requires n <= |functions|
  {
    forall p, v :: p in index && 0 <= v < |index[p]| && IsShingle(functions, size, index[p][v].representative) ==>
      index[p][v].functions ==
      Capped(Owners(functions, size, Content(functions, size, index[p][v].representative), n), cap)
  }

  // ----- indexing one shingle -----

  method ContentsEqual(functions: Functions, size: nat, left: FunctionShingle, right: FunctionShingle, work: Work)
    returns (r: Result<bool, DryError>)
    requires IsShingle(functions, size, left) && IsShingle(functions, size, right)
    modifies work
    ensures r.Success? ==> r.value == (Content(functions, size, left) == Content(functions, size, right))
    ensures r.Failure? ==> Exhausted(r.error, work.limit)
  {
    var a, b := functions[left.functionIndex][left.start..left.start + size],
                functions[right.functionIndex][right.start..right.start + size];
    for i := 0 to size
      invariant a[..i] == b[..i]
    {
      var _ :- work.Consume(1);
      if a[i] != b[i] {
        return Success(false);
      }
    }
    assert a == a[..size] && b == b[..size];
    return Success(true);
  }

  method FindVariant(functions: Functions, size: nat, variants: seq<ShingleBucket>, shingle: FunctionShingle, work: Work)
    returns (r: Result<Option<nat>, DryError>)
    requires IsShingle(functions, size, shingle)
    requires forall b :: b in variants ==> IsShingle(functions, size, b.representative)
    modifies work
    ensures r.Success? && r.value.Some? ==>
      && r.value.value < |variants|
      && Content(functions, size, variants[r.value.value].representative) == Content(functions, size, shingle)
    ensures r.Success? && r.value.None? ==> forall v :: 0 <= v < |variants| ==>
      Content(functions, size, variants[v].representative) != Content(functions, size, shingle)
    ensures r.Failure? ==> Exhausted(r.error, work.limit)
  {
    for v := 0 to |variants|
      invariant forall w :: 0 <= w < v ==>
        Content(functions, size, variants[w].representative) != Content(functions, size, shingle)
    {
      var equal :- ContentsEqual(functions, size, variants[v].representative, shingle, work);
      if equal {
        return Success(Some(v));
      }
    }
    return Success(None);
  }

  function AddOwner(owners: seq<nat>, f: nat, cap: nat): seq<nat> {
    if (owners == [] || owners[|owners| - 1] != f) && |owners| < cap then owners + [f] else owners
  }

  function WithBucket(index: Index, p: Fingerprint, v: nat, bucket: ShingleBucket): Index
    requires v <= if p in index then |index[p]| else 0
  {
    var variants := if p in index then index[p] else [];
    index[p := if v == |variants| then variants + [bucket] else variants[v := bucket]]
  }

  /** Pushing the current function keeps a bucket's capped owner list. */
  lemma AddOwnerStep(functions: Functions, size: nat, cap: nat, f: nat, s: nat)
    requires f < |functions| && s < |Shingles(functions[f], size)|
    ensures var c := Shingles(functions[f], size)[s];
            (AddOwner(Capped(OwnersAt(functions, size, c, f, s), cap), f, cap)
             == Capped(OwnersAt(functions, size, c, f, s + 1), cap))
  {
    var shingles := Shingles(functions[f], size);
    var c := shingles[s];
    OwnersMembers(functions, size, c, f);
    assert shingles[..s + 1] == shingles[..s] + [c];
    AddOwnerCapped(Owners(functions, size, c, f), f, cap);
  }

  lemma AddOwnerCapped(owners: seq<nat>, f: nat, cap: nat)
    requires f !in owners
    ensures AddOwner(Capped(owners + [], cap), f, cap) == Capped(owners + [f], cap)
    ensures AddOwner(Capped(owners + [f], cap), f, cap) == Capped(owners + [f], cap)
  {
    assert owners + [] == owners;
  }

  lemma OtherOwnersStep(functions: Functions, size: nat, c: seq<string>, f: nat, s: nat)
    requires f < |functions| && s < |Shingles(functions[f], size)|
    requires c != Shingles(functions[f], size)[s]
    ensures OwnersAt(functions, size, c, f, s + 1) == OwnersAt(functions, size, c, f, s)
  {
    var shingles := Shingles(functions[f], size);
    assert shingles[..s + 1] == shingles[..s] + [shingles[s]];
  }

  /** A shingle owned by nobody so far: it is not among those already denoted. */
  lemma NewShingleUnowned(functions: Functions, size: nat, stamp: seq<string> -> Fingerprint, index: Index,
                          raw: seq<seq<ShingleIdentity>>, ids: seq<ShingleIdentity>, f: nat, s: nat, c: seq<string>)
    requires Representatives(functions, size, stamp, index)
    requires f < |functions| && s < |Shingles(functions[f], size)| && c == Shingles(functions[f], size)[s]
    requires |raw| == f && forall g :: 0 <= g < f ==> DenotesAll(functions, size, index, raw[g], Shingles(functions[g], size))
    requires DenotesAll(functions, size, index, ids, Shingles(functions[f], size)[..s])
    requires stamp(c) in index ==> forall v :: 0 <= v < |index[stamp(c)]| ==>
      Content(functions, size, index[stamp(c)][v].representative) != c
    ensures OwnersAt(functions, size, c, f, s) == []
  {
    var shingles := Shingles(functions[f], size);
    forall t | 0 <= t < s
      ensures shingles[..s][t] != c
    {
      assert Denotes(functions, size, index, ids[t], shingles[..s][t]);
    }
    forall g, t | 0 <= g < f && 0 <= t < |Shingles(functions[g], size)|
      ensures Shingles(functions[g], size)[t] != c
    {
      assert Denotes(functions, size, index, raw[g][t], Shingles(functions[g], size)[t]);
    }
    OwnersMembers(functions, size, c, f);
    var owners := Owners(functions, size, c, f);
    assert forall g :: g in owners <==> g in multiset(owners);
    assert c !in shingles[..s];
    assert owners == [];
  }

  /** Shingle `s` of function `f` may be filed as `bucket` under variant `v` of its fingerprint. */
  ghost predicate Fileable(functions: Functions, size: nat, stamp: seq<string> -> Fingerprint, index: Index, cap: nat,
                           f: nat, s: nat, v: nat, bucket: ShingleBucket)
    requires f < |functions| && s < |Shingles(functions[f], size)|
    requires Representatives(functions, size, stamp, index)
  {
    var c := Shingles(functions[f], size)[s];
    var variants := if stamp(c) in index then index[stamp(c)] else [];
    && v <= |variants|
    && IsShingle(functions, size, bucket.representative)
    && Content(functions, size, bucket.representative) == c
    && (v < |variants| ==> variants[v].representative == bucket.representative)
    && (v == |variants| ==> forall w :: 0 <= w < v ==> Content(functions, size, variants[w].representative) != c)
    && bucket.functions == Capped(OwnersAt(functions, size, c, f, s + 1), cap)
  }

  lemma FileRepresentatives(functions: Functions, size: nat, stamp: seq<string> -> Fingerprint, index: Index, cap: nat,
                            f: nat, s: nat, v: nat, bucket: ShingleBucket)
    requires f < |functions| && s < |Shingles(functions[f], size)|
    requires Representatives(functions, size, stamp, index)
    requires Fileable(functions, size, stamp, index, cap, f, s, v, bucket)
    ensures var c := Shingles(functions[f], size)[s];
            var index' := WithBucket(index, stamp(c), v, bucket);
            && Representatives(functions, size, stamp, index')
            && Extends(index, index')
            && Denotes(functions, size, index', ShingleIdentity(stamp(c), v), c)
  {
    var c := Shingles(functions[f], size)[s];
    var variants := if stamp(c) in index then index[stamp(c)] else [];
    assert VariantsOk(functions, size, stamp, stamp(c), variants);
    VariantsStep(functions, size, stamp, stamp(c), variants, v, bucket);
  }

  lemma VariantsStep(functions: Functions, size: nat, stamp: seq<string> -> Fingerprint, p: Fingerprint,
                     variants: seq<ShingleBucket>, v: nat, bucket: ShingleBucket)
    requires VariantsOk(functions, size, stamp, p, variants) && v <= |variants|
    requires IsShingle(functions, size, bucket.representative)
    requires stamp(Content(functions, size, bucket.representative)) == p
    requires v < |variants| ==> variants[v].representative == bucket.representative
    requires v == |variants| ==> forall w :: 0 <= w < v ==>
      Content(functions, size, variants[w].representative) != Content(functions, size, bucket.representative)
    ensures VariantsOk(functions, size, stamp, p, if v == |variants| then variants + [bucket] else variants[v := bucket])
  {
  }

  lemma FileOwners(functions: Functions, size: nat, stamp: seq<string> -> Fingerprint, index: Index, cap: nat,
                   f: nat, s: nat, v: nat, bucket: ShingleBucket)
    requires f < |functions| && s < |Shingles(functions[f], size)|
    requires Representatives(functions, size, stamp, index)
    requires OwnersOk(functions, size, index, cap, f, s)
    requires Fileable(functions, size, stamp, index, cap, f, s, v, bucket)
    ensures OwnersOk(functions, size, WithBucket(index, stamp(Shingles(functions[f], size)[s]), v, bucket), cap, f, s + 1)
  {
    var c := Shingles(functions[f], size)[s];
    var index': Index := WithBucket(index, stamp(c), v, bucket);
    forall p: Fingerprint, w: nat | p in index' && w < |index'[p]| && IsShingle(functions, size, index'[p][w].representative)
      ensures index'[p][w].functions ==
              Capped(OwnersAt(functions, size, Content(functions, size, index'[p][w].representative), f, s + 1), cap)
    {
      if p != stamp(c) || w != v {
        assert p in index && w < |index[p]| && index'[p][w] == index[p][w];
        OtherContent(functions, size, stamp, index, cap, f, s, v, bucket, p, w);
        OtherOwnersStep(functions, size, Content(functions, size, index[p][w].representative), f, s);
      }
    }
  }

  lemma OtherContent(functions: Functions, size: nat, stamp: seq<string> -> Fingerprint, index: Index, cap: nat,
                     f: nat, s: nat, v: nat, bucket: ShingleBucket, p: Fingerprint, w: nat)
    requires f < |functions| && s < |Shingles(functions[f], size)|
    requires Representatives(functions, size, stamp, index)
    requires Fileable(functions, size, stamp, index, cap, f, s, v, bucket)
    requires p in index && w < |index[p]| && (p != stamp(Shingles(functions[f], size)[s]) || w != v)
    ensures IsShingle(functions, size, index[p][w].representative)
    ensures Content(functions, size, index[p][w].representative) != Shingles(functions[f], size)[s]
  {
  }

  // ----- indexing all functions -----

  function HashAll(tokens: seq<string>, hasher: string -> Fingerprint): seq<Fingerprint> {
    seq(|tokens|, i requires 0 <= i < |tokens| => hasher(tokens[i]))
  }

  ghost function StampOf(hasher: string -> Fingerprint): seq<string> -> Fingerprint {
    c => Direct(HashAll(c, hasher))
  }

  /** Shingle fingerprints of one function, each equal to the direct fingerprint of the shingle's tokens. */
  method ShingleKeys(tokens: seq<string>, size: nat, hasher: string -> Fingerprint) returns (keys: seq<Fingerprint>)
    requires size >= 1
    ensures |keys| == |Shingles(tokens, size)|
    ensures forall t :: 0 <= t < |keys| ==> keys[t] == StampOf(hasher)(Shingles(tokens, size)[t])
  {
    keys := WindowFingerprints(HashAll(tokens, hasher), size);
    forall t | 0 <= t < |keys|
      ensures keys[t] == StampOf(hasher)(Shingles(tokens, size)[t])
    {
      assert HashAll(tokens, hasher)[t..t + size] == HashAll(tokens[t..t + size], hasher);
    }
  }

  /** Everything the index promises once the first `s` shingles of function `f` are filed. */
  ghost predicate Indexed(functions: Functions, size: nat, stamp: seq<string> -> Fingerprint, index: Index, cap: nat,
                          raw: seq<seq<ShingleIdentity>>, ids: seq<ShingleIdentity>, f: nat, s: nat)
    requires f < |functions| && s <= |Shingles(functions[f], size)|
  {
    && Representatives(functions, size, stamp, index)
    && OwnersOk(functions, size, index, cap, f, s)
    && |raw| == f
    && (forall g :: 0 <= g < f ==> DenotesAll(functions, size, index, raw[g], Shingles(functions[g], size)))
    && DenotesAll(functions, size, index, ids, Shingles(functions[f], size)[..s])
  }

  lemma IndexedStep(functions: Functions, size: nat, stamp: seq<string> -> Fingerprint, index: Index, cap: nat,
                    raw: seq<seq<ShingleIdentity>>, ids: seq<ShingleIdentity>, f: nat, s: nat, v: nat, bucket: ShingleBucket)
    requires f < |functions| && s < |Shingles(functions[f], size)|
    requires Indexed(functions, size, stamp, index, cap, raw, ids, f, s)
    requires Fileable(functions, size, stamp, index, cap, f, s, v, bucket)
    ensures var p := stamp(Shingles(functions[f], size)[s]);
            Indexed(functions, size, stamp, WithBucket(index, p, v, bucket), cap, raw, ids + [ShingleIdentity(p, v)], f, s + 1)
  {
    var shingles := Shingles(functions[f], size);
    var p := stamp(shingles[s]);
    var index' := WithBucket(index, p, v, bucket);
    FileRepresentatives(functions, size, stamp, index, cap, f, s, v, bucket);
    FileOwners(functions, size, stamp, index, cap, f, s, v, bucket);
    forall g | 0 <= g < f
      ensures DenotesAll(functions, size, index', raw[g], Shingles(functions[g], size))
    {
      DenotesAllExtends(functions, size, index, index', raw[g], Shingles(functions[g], size));
    }
    DenotesAllExtends(functions, size, index, index', ids, shingles[..s]);
    DenotesAllAppend(functions, size, index', ids, shingles[..s], ShingleIdentity(p, v), shingles[s]);
    assert shingles[..s] + [shingles[s]] == shingles[..s + 1];
  }

  lemma DenotesAllAppend(functions: Functions, size: nat, index: Index, ids: seq<ShingleIdentity>,
                         contents: seq<seq<string>>, id: ShingleIdentity, c: seq<string>)
    requires DenotesAll(functions, size, index, ids, contents) && Denotes(functions, size, index, id, c)
    ensures DenotesAll(functions, size, index, ids + [id], contents + [c])
  {
  }

  /** The variant and bucket the program chooses for a shingle. */
  method ChooseBucket(functions: Functions, size: nat, index: Index, cap: nat, p: Fingerprint, f: nat, s: nat, work: Work,
                      ghost stamp: seq<string> -> Fingerprint,
                      ghost raw: seq<seq<ShingleIdentity>>, ghost ids: seq<ShingleIdentity>)
    returns (r: Result<(nat, ShingleBucket), DryError>)
    requires f < |functions| && s < |Shingles(functions[f], size)|
    requires Indexed(functions, size, stamp, index, cap, raw, ids, f, s)
    requires p == stamp(Shingles(functions[f], size)[s])
    modifies work
    ensures r.Success? ==> Fileable(functions, size, stamp, index, cap, f, s, r.value.0, r.value.1)
    ensures r.Failure? ==> Exhausted(r.error, work.limit)
  {
    var shingle := FunctionShingle(f, s);
    var variants := if p in index then index[p] else [];
    ghost var c := Shingles(functions[f], size)[s];
    var found :- FindVariant(functions, size, variants, shingle, work);
    if found.Some? {
      var v := found.value;
      KnownFileable(functions, size, stamp, index, cap, f, s, v);
      return Success((v, variants[v].(functions := AddOwner(variants[v].functions, f, cap))));
    }
    NewFileable(functions, size, stamp, index, cap, raw, ids, f, s);
    return Success((|variants|, ShingleBucket(shingle, AddOwner([], f, cap))));
  }

  /** The variant with the shingle's content, its owner list pushed. */
  lemma KnownFileable(functions: Functions, size: nat, stamp: seq<string> -> Fingerprint, index: Index, cap: nat,
                      f: nat, s: nat, v: nat)
    requires f < |functions| && s < |Shingles(functions[f], size)|
    requires Representatives(functions, size, stamp, index) && OwnersOk(functions, size, index, cap, f, s)
    requires stamp(Shingles(functions[f], size)[s]) in index && v < |index[stamp(Shingles(functions[f], size)[s])]|
    requires var b := index[stamp(Shingles(functions[f], size)[s])][v];
      && IsShingle(functions, size, b.representative)
      && Content(functions, size, b.representative) == Shingles(functions[f], size)[s]
    ensures var b := index[stamp(Shingles(functions[f], size)[s])][v];
            Fileable(functions, size, stamp, index, cap, f, s, v, b.(functions := AddOwner(b.functions, f, cap)))
  {
    AddOwnerStep(functions, size, cap, f, s);
  }

  /** No variant has the shingle's content: a new one, owned by nobody before. */
  lemma NewFileable(functions: Functions, size: nat, stamp: seq<string> -> Fingerprint, index: Index, cap: nat,
                    raw: seq<seq<ShingleIdentity>>, ids: seq<ShingleIdentity>, f: nat, s: nat)
    requires f < |functions| && s < |Shingles(functions[f], size)|
    requires Indexed(functions, size, stamp, index, cap, raw, ids, f, s)
    requires var c := Shingles(functions[f], size)[s];
      stamp(c) in index ==> forall v :: 0 <= v < |index[stamp(c)]| ==>
        Content(functions, size, index[stamp(c)][v].representative) != c
    ensures var c := Shingles(functions[f], size)[s];
            Fileable(functions, size, stamp, index, cap, f, s, if stamp(c) in index then |index[stamp(c)]| else 0,
                     ShingleBucket(FunctionShingle(f, s), AddOwner([], f, cap)))
  {
    NewShingleUnowned(functions, size, stamp, index, raw, ids, f, s, Shingles(functions[f], size)[s]);
    AddOwnerStep(functions, size, cap, f, s);
  }

  // ----- the number of buckets is the number of distinct shingles -----

  ghost function Elements(shingles: seq<seq<string>>): set<seq<string>> {
    set c | c in shingles
  }

  /** The distinct shingles of the first `n` functions. */
  ghost function Distinct(functions: Functions, size: nat, n: nat): set<seq<string>>
    requires n <= |functions|
  {
    if n == 0 then {} else Distinct(functions, size, n - 1) + Elements(Shingles(functions[n - 1], size))
  }

  ghost function DistinctAt(functions: Functions, size: nat, f: nat, s: nat): set<seq<string>>
    requires f < |functions| && s <= |Shingles(functions[f], size)|
  {
    Distinct(functions, size, f) + Elements(Shingles(functions[f], size)[..s])
  }

  ghost predicate RepresentsOnly(functions: Functions, size: nat, index: Index, seen: set<seq<string>>) {
    forall p, v :: p in index && 0 <= v < |index[p]| && IsShingle(functions, size, index[p][v].representative) ==>
      Content(functions, size, index[p][v].representative) in seen
  }

  lemma {:induction false} DistinctSource(functions: Functions, size: nat, n: nat, c: seq<string>)
    requires n <= |functions| && c in Distinct(functions, size, n)
    ensures exists g :: 0 <= g < n && c in Shingles(functions[g], size)
  {
    if c !in Shingles(functions[n - 1], size) {
      DistinctSource(functions, size, n - 1, c);
    }
  }

  lemma {:induction false} DistinctGrows(functions: Functions, size: nat, n: nat, m: nat)
    requires n <= m <= |functions|
    ensures Distinct(functions, size, n) <= Distinct(functions, size, m)
    decreases m
  {
    if n < m {
      DistinctGrows(functions, size, n, m - 1);
    }
  }

  lemma DistinctAtGrows(functions: Functions, size: nat, f: nat, s: nat)
    requires f < |functions| && s <= |Shingles(functions[f], size)|
    ensures DistinctAt(functions, size, f, s) <= Distinct(functions, size, |functions|)
    ensures |DistinctAt(functions, size, f, s)| <= |Distinct(functions, size, |functions|)|
  {
    DistinctGrows(functions, size, f + 1, |functions|);
    SubsetSize(DistinctAt(functions, size, f, s), Distinct(functions, size, |functions|));
  }

  /** No variant has the shingle's content: it has not occurred before. */
  lemma NewShingleUnseen(functions: Functions, size: nat, stamp: seq<string> -> Fingerprint, index: Index, cap: nat,
                         raw: seq<seq<ShingleIdentity>>, ids: seq<ShingleIdentity>, f: nat, s: nat)
    requires f < |functions| && s < |Shingles(functions[f], size)|
    requires Indexed(functions, size, stamp, index, cap, raw, ids, f, s)
    requires var c := Shingles(functions[f], size)[s];
      stamp(c) in index ==> forall v :: 0 <= v < |index[stamp(c)]| ==>
        Content(functions, size, index[stamp(c)][v].representative) != c
    ensures Shingles(functions[f], size)[s] !in DistinctAt(functions, size, f, s)
  {
    var c := Shingles(functions[f], size)[s];
    NewShingleUnowned(functions, size, stamp, index, raw, ids, f, s, c);
    OwnersMembers(functions, size, c, f);
    if c in Distinct(functions, size, f) {
      DistinctSource(functions, size, f, c);
    }
  }

  /** Every bucket stands for one of the distinct shingles so far, and they are as many. */
  ghost predicate Counted(functions: Functions, size: nat, index: Index, f: nat, s: nat, buckets: nat)
    requires f < |functions| && s <= |Shingles(functions[f], size)|
  {
    && RepresentsOnly(functions, size, index, DistinctAt(functions, size, f, s))
    && buckets == |DistinctAt(functions, size, f, s)|
  }

  lemma DistinctStep(functions: Functions, size: nat, f: nat, s: nat)
    requires f < |functions| && s < |Shingles(functions[f], size)|
    ensures DistinctAt(functions, size, f, s + 1) == DistinctAt(functions, size, f, s) + {Shingles(functions[f], size)[s]}
  {
    var shingles := Shingles(functions[f], size);
    assert shingles[..s + 1] == shingles[..s] + [shingles[s]];
  }

  lemma RepresentsStep(functions: Functions, size: nat, index: Index, seen: set<seq<string>>, p: Fingerprint, v: nat,
                       bucket: ShingleBucket)
    requires RepresentsOnly(functions, size, index, seen) && IsShingle(functions, size, bucket.representative)
    requires v <= if p in index then |index[p]| else 0
    ensures RepresentsOnly(functions, size, WithBucket(index, p, v, bucket),
                           seen + {Content(functions, size, bucket.representative)})
  {
  }

  function Variants(index: Index, p: Fingerprint): nat {
    if p in index then |index[p]| else 0
  }

  /** A bucket is added exactly for a shingle that has not occurred before. */
  lemma CountedStep(functions: Functions, size: nat, stamp: seq<string> -> Fingerprint, index: Index, cap: nat,
                    raw: seq<seq<ShingleIdentity>>, ids: seq<ShingleIdentity>, f: nat, s: nat, v: nat,
                    bucket: ShingleBucket, buckets: nat)
    requires f < |functions| && s < |Shingles(functions[f], size)|
    requires Indexed(functions, size, stamp, index, cap, raw, ids, f, s)
    requires Fileable(functions, size, stamp, index, cap, f, s, v, bucket)
    requires Counted(functions, size, index, f, s, buckets)
    ensures var p := stamp(Shingles(functions[f], size)[s]);
            Counted(functions, size, WithBucket(index, p, v, bucket), f, s + 1,
                    buckets + if v == Variants(index, p) then 1 else 0)
  {
    var c := Shingles(functions[f], size)[s];
    var seen := DistinctAt(functions, size, f, s);
    DistinctStep(functions, size, f, s);
    RepresentsStep(functions, size, index, seen, stamp(c), v, bucket);
    AddSize(seen, c);
    if v == Variants(index, stamp(c)) {
      NewShingleUnseen(functions, size, stamp, index, cap, raw, ids, f, s);
    } else {
      assert index[stamp(c)][v].representative == bucket.representative;
    }
  }

  ghost predicate TooManyShingles(functions: Functions, size: nat, limit: nat, error: DryError) {
    && error == WorkBudgetExceeded(FingerprintBuckets, limit, limit + 1)
    && |Distinct(functions, size, |functions|)| > limit
  }

  /** A count beyond the limit at any point is one beyond the limit in the end. */
  lemma CountedBeyond(functions: Functions, size: nat, index: Index, f: nat, s: nat, limit: nat)
    requires f < |functions| && s <= |Shingles(functions[f], size)|
    requires Counted(functions, size, index, f, s, limit + 1)
    ensures TooManyShingles(functions, size, limit, WorkBudgetExceeded(FingerprintBuckets, limit, limit + 1))
  {
    DistinctAtGrows(functions, size, f, s);
  }

  method CountBucket(functions: Functions, size: nat, ghost index: Index, f: nat, s: nat, limit: nat, buckets: nat,
                     isNew: bool)
    returns (r: Result<nat, DryError>)
    requires f < |functions| && s <= |Shingles(functions[f], size)| && buckets <= limit
    requires Counted(functions, size, index, f, s, buckets + if isNew then 1 else 0)
    ensures r.Success? ==> Counted(functions, size, index, f, s, r.value) && r.value <= limit
    ensures r.Failure? ==> TooManyShingles(functions, size, limit, r.error)
  {
    if !isNew {
      return Success(buckets);
    }
    var check := EnsureWithinBudget(FingerprintBuckets, limit, buckets + 1);
    if check.Failure? {
      CountedBeyond(functions, size, index, f, s, limit);
      return Failure(check.error);
    }
    return Success(buckets + 1);
  }

  method FileShingle(functions: Functions, size: nat, cap: nat, bucketLimit: nat, p: Fingerprint, f: nat, s: nat,
                     index: Index, buckets: nat, work: Work, ghost stamp: seq<string> -> Fingerprint,
                     ghost raw: seq<seq<ShingleIdentity>>, ghost ids: seq<ShingleIdentity>)
    returns (r: Result<(Index, ShingleIdentity, nat), DryError>)
    requires f < |functions| && s < |Shingles(functions[f], size)|
    requires Indexed(functions, size, stamp, index, cap, raw, ids, f, s)
    requires Counted(functions, size, index, f, s, buckets) && buckets <= bucketLimit
    requires p == stamp(Shingles(functions[f], size)[s])
    modifies work
    ensures r.Success? ==>
      && Indexed(functions, size, stamp, r.value.0, cap, raw, ids + [r.value.1], f, s + 1)
      && Counted(functions, size, r.value.0, f, s + 1, r.value.2) && r.value.2 <= bucketLimit
    ensures r.Failure? ==> Exhausted(r.error, work.limit) || TooManyShingles(functions, size, bucketLimit, r.error)
  {
    var choice :- ChooseBucket(functions, size, index, cap, p, f, s, work, stamp, raw, ids);
    var (v, bucket) := choice;
    CountedStep(functions, size, stamp, index, cap, raw, ids, f, s, v, bucket, buckets);
    IndexedStep(functions, size, stamp, index, cap, raw, ids, f, s, v, bucket);
    var counted := CountBucket(functions, size, WithBucket(index, p, v, bucket), f, s + 1, bucketLimit, buckets,
                               v == Variants(index, p));
    if counted.Failure? {
      return Failure(counted.error);
    }
    return Success((WithBucket(index, p, v, bucket), ShingleIdentity(p, v), counted.value));
  }

  method IndexFunction(functions: Functions, size: nat, hasher: string -> Fingerprint, cap: nat, bucketLimit: nat,
                       f: nat, before: Index, bucketsBefore: nat, work: Work, ghost raw: seq<seq<ShingleIdentity>>)
    returns (r: Result<(Index, seq<ShingleIdentity>, nat), DryError>)
    requires size >= 1 && f < |functions|
    requires Indexed(functions, size, StampOf(hasher), before, cap, raw, [], f, 0)
    requires Counted(functions, size, before, f, 0, bucketsBefore) && bucketsBefore <= bucketLimit
    modifies work
    ensures r.Success? ==>
      && Indexed(functions, size, StampOf(hasher), r.value.0, cap, raw, r.value.1, f, |Shingles(functions[f], size)|)
      && Counted(functions, size, r.value.0, f, |Shingles(functions[f], size)|, r.value.2) && r.value.2 <= bucketLimit
    ensures r.Failure? ==> Exhausted(r.error, work.limit) || TooManyShingles(functions, size, bucketLimit, r.error)
  {
    var keys := ShingleKeys(functions[f], size, hasher);
    var index: Index, ids: seq<ShingleIdentity>, buckets: nat := before, [], bucketsBefore;
    for s := 0 to |keys|
      invariant Indexed(functions, size, StampOf(hasher), index, cap, raw, ids, f, s)
      invariant Counted(functions, size, index, f, s, buckets) && buckets <= bucketLimit
    {
      var filed :- FileShingle(functions, size, cap, bucketLimit, keys[s], f, s, index, buckets, work, StampOf(hasher), raw, ids);
      index, ids, buckets := filed.0, ids + [filed.1], filed.2;
    }
    return Success((index, ids, buckets));
  }

  /** A finished function's owners are those of one more complete function. */
  lemma OwnersFinish(functions: Functions, size: nat, index: Index, cap: nat, f: nat)
    requires f < |functions| && OwnersOk(functions, size, index, cap, f, |Shingles(functions[f], size)|)
    ensures OwnersDone(functions, size, index, cap, f + 1)
  {
    assert Shingles(functions[f], size)[..|Shingles(functions[f], size)|] == Shingles(functions[f], size);
  }

  lemma OwnersStart(functions: Functions, size: nat, index: Index, cap: nat, f: nat)
    requires f < |functions| && OwnersDone(functions, size, index, cap, f)
    ensures OwnersOk(functions, size, index, cap, f, 0)
  {
    forall c
      ensures OwnersAt(functions, size, c, f, 0) == Owners(functions, size, c, f)
    {
    }
  }

  /** The finished index: `shingles[g]` lists, sorted, identities that denote the shingles of function `g`. */
  ghost predicate ShingleIndexed(functions: Functions, size: nat, stamp: seq<string> -> Fingerprint, index: Index, cap: nat,
                                 shingles: seq<seq<ShingleIdentity>>, raw: seq<seq<ShingleIdentity>>, n: nat)
    requires n <= |functions|
  {
    && Representatives(functions, size, stamp, index)
    && OwnersDone(functions, size, index, cap, n)
    && |raw| == n && SortedLists(shingles, raw)
    && (forall g :: 0 <= g < n ==> DenotesAll(functions, size, index, raw[g], Shingles(functions[g], size)))
  }

  ghost predicate SortedLists(shingles: seq<seq<ShingleIdentity>>, raw: seq<seq<ShingleIdentity>>) {
    && |shingles| == |raw|
    && forall g :: 0 <= g < |raw| ==> SortedBy(shingles[g], IdentityLeq) && multiset(shingles[g]) == multiset(raw[g])
  }

  lemma SortedListsAppend(shingles: seq<seq<ShingleIdentity>>, raw: seq<seq<ShingleIdentity>>, ids: seq<ShingleIdentity>)
    requires SortedLists(shingles, raw)
    ensures SortedLists(shingles + [Sort(ids, IdentityLeq)], raw + [ids])
  {
    IdentityOrder();
    SortCorrect(ids, IdentityLeq);
  }

  lemma StartFunction(functions: Functions, size: nat, stamp: seq<string> -> Fingerprint, index: Index, cap: nat,
                      shingles: seq<seq<ShingleIdentity>>, raw: seq<seq<ShingleIdentity>>, f: nat)
    requires f < |functions| && ShingleIndexed(functions, size, stamp, index, cap, shingles, raw, f)
    ensures Indexed(functions, size, stamp, index, cap, raw, [], f, 0)
  {
    OwnersStart(functions, size, index, cap, f);
  }

  lemma FinishFunction(functions: Functions, size: nat, stamp: seq<string> -> Fingerprint, index: Index, cap: nat,
                       shingles: seq<seq<ShingleIdentity>>, raw: seq<seq<ShingleIdentity>>, ids: seq<ShingleIdentity>, f: nat)
    requires f < |functions| && SortedLists(shingles, raw)
    requires Indexed(functions, size, stamp, index, cap, raw, ids, f, |Shingles(functions[f], size)|)
    ensures ShingleIndexed(functions, size, stamp, index, cap, shingles + [Sort(ids, IdentityLeq)], raw + [ids], f + 1)
  {
    OwnersFinish(functions, size, index, cap, f);
    SortedListsAppend(shingles, raw, ids);
    assert Shingles(functions[f], size)[..|Shingles(functions[f], size)|] == Shingles(functions[f], size);
    var raw' := raw + [ids];
    forall g | 0 <= g < f + 1
      ensures DenotesAll(functions, size, index, raw'[g], Shingles(functions[g], size))
    {
      if g < f {
        assert raw'[g] == raw[g];
      }
    }
  }

  function CountShingles(functions: Functions, size: nat, n: nat): nat
    requires n <= |functions|
  {
    if n == 0 then
      0
    else
      CountShingles(functions, size, n - 1)
      + (if |functions[n - 1]| < size then 0 else |functions[n - 1]| - size) + 1
  }

  /** The program's count is the number of shingles when every function has at least one. */
  lemma {:induction false} CountShinglesIsTotal(functions: Functions, size: nat, n: nat)
    requires n <= |functions|
    ensures TotalShingles(functions, size, n) <= CountShingles(functions, size, n)
    ensures ((forall g :: 0 <= g < n ==> |functions[g]| >= size) <==>
      TotalShingles(functions, size, n) == CountShingles(functions, size, n))
  {
    if n > 0 {
      CountShinglesIsTotal(functions, size, n - 1);
    }
  }

  ghost function TotalShingles(functions: Functions, size: nat, n: nat): nat
    requires n <= |functions|
  {
    if n == 0 then 0 else TotalShingles(functions, size, n - 1) + |Shingles(functions[n - 1], size)|
  }

  lemma DistinctEnds(functions: Functions, size: nat, f: nat)
    requires f < |functions|
    ensures DistinctAt(functions, size, f, 0) == Distinct(functions, size, f)
    ensures DistinctAt(functions, size, f, |Shingles(functions[f], size)|) == Distinct(functions, size, f + 1)
  {
    var shingles := Shingles(functions[f], size);
    assert shingles[..|shingles|] == shingles;
  }

  /** The error names a budget of the index that is really exceeded. */
  ghost predicate IndexExceeds(functions: Functions, size: nat, budget: Budget, error: DryError) {
    var required := CountShingles(functions, size, |functions|);
    || (error == WorkBudgetExceeded(TotalWindows, budget.maxTotalWindows, required) && required > budget.maxTotalWindows)
    || TooManyShingles(functions, size, budget.maxFingerprintBuckets, error)
  }

  method BuildFunctionShingleIndex(functions: Functions, size: nat, cap: nat, budget: Budget,
                                   hasher: string -> Fingerprint, work: Work)
    returns (r: Result<(seq<seq<ShingleIdentity>>, Index), DryError>, ghost raw: seq<seq<ShingleIdentity>>)
    requires size >= 1
    modifies work
    ensures r.Success? ==>
      ShingleIndexed(functions, size, StampOf(hasher), r.value.1, cap, r.value.0, raw, |functions|)
    ensures r.Success? ==>
      && CountShingles(functions, size, |functions|) <= budget.maxTotalWindows
      && |Distinct(functions, size, |functions|)| <= budget.maxFingerprintBuckets
    ensures r.Failure? ==> IndexExceeds(functions, size, budget, r.error) || Exhausted(r.error, work.limit)
  {
    raw := [];
    var required := CountShingles(functions, size, |functions|);
    var windowCheck := EnsureWithinBudget(TotalWindows, budget.maxTotalWindows, required);
    if windowCheck.Failure? {
      return Failure(windowCheck.error), raw;
    }
    var index: Index, shingles, buckets := map[], [], 0;
    for f := 0 to |functions|
      invariant ShingleIndexed(functions, size, StampOf(hasher), index, cap, shingles, raw, f)
      invariant RepresentsOnly(functions, size, index, Distinct(functions, size, f))
      invariant buckets == |Distinct(functions, size, f)| <= budget.maxFingerprintBuckets
    {
      DistinctEnds(functions, size, f);
      StartFunction(functions, size, StampOf(hasher), index, cap, shingles, raw, f);
      var result := IndexFunction(functions, size, hasher, cap, budget.maxFingerprintBuckets, f, index, buckets, work, raw);
      if result.Failure? {
        return Failure(result.error), raw;
      }
      var ids := result.value.1;
      FinishFunction(functions, size, StampOf(hasher), result.value.0, cap, shingles, raw, ids, f);
      index, buckets := result.value.0, result.value.2;
      shingles := shingles + [Sort(ids, IdentityLeq)];
      raw := raw + [ids];
    }
    return Success((shingles, index)), raw;
  }
}
