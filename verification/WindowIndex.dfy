/**
 The index from window fingerprints to capped occurrence lists
 (crates/analysis-dry/src/lib.rs, `build_window_index`).
 */
module WindowIndex {
  import opened Basics
  import opened FiniteSets
  import opened Wrappers
  import opened WorkBudget
  import opened RollingHash

  datatype TokenRecord = TokenRecord(value: string, line: nat)

  /** Token lists in the order of the token map; files are named by their position in it. */
  type Files = seq<seq<TokenRecord>>

  datatype Occurrence = Occurrence(file: nat, start: nat)

  ghost predicate IsWindow(files: Files, o: Occurrence, size: nat) {
    o.file < |files| && o.start + size <= |files[o.file]|
  }

  /** Occurrences are met file by file and, in a file, from left to right. */
  predicate Before(a: Occurrence, b: Occurrence) {
    a.file < b.file || (a.file == b.file && a.start < b.start)
  }

  ghost predicate Ordered(s: seq<Occurrence>) {
    forall i, j :: 0 <= i < j < |s| ==> Before(s[i], s[j])
  }

  function Hashes(tokens: seq<TokenRecord>, hasher: string -> Fingerprint): (h: seq<Fingerprint>)
  {
    seq(|tokens|, i requires 0 <= i < |tokens| => hasher(tokens[i].value))
  }

  ghost function Key(files: Files, size: nat, hasher: string -> Fingerprint, o: Occurrence): Fingerprint {
    if IsWindow(files, o, size) then
      Direct(Hashes(files[o.file], hasher)[o.start..o.start + size])
    else
      ZERO
  }

  ghost function KeyOf(files: Files, size: nat, hasher: string -> Fingerprint): Occurrence -> Fingerprint {
    o => Key(files, size, hasher, o)
  }

  ghost function FileWindows(file: nat, count: nat): seq<Occurrence> {
    if count == 0 then [] else FileWindows(file, count - 1) + [Occurrence(file, count - 1)]
  }

  /** All windows of the first `n` files, in order. */
  ghost function Windows(files: Files, size: nat, n: nat): seq<Occurrence>
    requires n <= |files|
  {
    if n == 0 then
      []
    else
      Windows(files, size, n - 1) + FileWindows(n - 1, WindowCount(|files[n - 1]|, size))
  }

  ghost function AllWindows(files: Files, size: nat): seq<Occurrence> {
    Windows(files, size, |files|)
  }

  /** The windows of `order` whose fingerprint is `fp`, in order. */
  ghost function Bucket(order: seq<Occurrence>, key: Occurrence -> Fingerprint, fp: Fingerprint): seq<Occurrence> {
    if order == [] then
      []
    else
      var last := order[|order| - 1];
      Bucket(order[..|order| - 1], key, fp) + (if key(last) == fp then [last] else [])
  }

  ghost function Fingerprints(order: seq<Occurrence>, key: Occurrence -> Fingerprint): set<Fingerprint> {
    set o | o in order :: key(o)
  }

  ghost predicate Indexes(windows: map<Fingerprint, seq<Occurrence>>, order: seq<Occurrence>,
                          key: Occurrence -> Fingerprint, cap: nat) {
    && windows.Keys == Fingerprints(order, key)
    && forall fp :: fp in windows ==> windows[fp] == Capped(Bucket(order, key, fp), cap)
  }

  // ----- the window list -----

  lemma {:induction false} FileWindowsAt(file: nat, count: nat)
    ensures |FileWindows(file, count)| == count
    ensures forall i :: 0 <= i < count ==> FileWindows(file, count)[i] == Occurrence(file, i)
  {
    if count > 0 {
      FileWindowsAt(file, count - 1);
    }
  }

  lemma {:induction false} WindowsMembers(files: Files, size: nat, n: nat)
    requires n <= |files|
    ensures forall o :: o in Windows(files, size, n) <==> IsWindow(files, o, size) && o.file < n
  {
    if n > 0 {
      WindowsMembers(files, size, n - 1);
      var count := WindowCount(|files[n - 1]|, size);
      FileWindowsAt(n - 1, count);
      var own := FileWindows(n - 1, count);
      forall o
        ensures o in own <==> IsWindow(files, o, size) && o.file == n - 1
      {
        if IsWindow(files, o, size) && o.file == n - 1 {
          assert own[o.start] == o;
        }
      }
      assert Windows(files, size, n) == Windows(files, size, n - 1) + own;
    }
  }

  lemma {:induction false} WindowsOrdered(files: Files, size: nat, n: nat)
    requires n <= |files|
    ensures Ordered(Windows(files, size, n))
  {
    if n > 0 {
      WindowsOrdered(files, size, n - 1);
      WindowsMembers(files, size, n - 1);
      var count := WindowCount(|files[n - 1]|, size);
      FileWindowsAt(n - 1, count);
      var front, own := Windows(files, size, n - 1), FileWindows(n - 1, count);
      forall i | 0 <= i < |front|
        ensures front[i].file < n - 1
      {
        assert front[i] in front;
      }
      assert Windows(files, size, n) == front + own;
    }
  }

  // ----- buckets -----

  lemma {:induction false} BucketMembers(order: seq<Occurrence>, key: Occurrence -> Fingerprint, fp: Fingerprint)
    ensures forall o :: o in Bucket(order, key, fp) <==> o in order && key(o) == fp
  {
    if order != [] {
      BucketMembers(order[..|order| - 1], key, fp);
      assert order == order[..|order| - 1] + [order[|order| - 1]];
    }
  }

  lemma {:induction false} BucketOrdered(order: seq<Occurrence>, key: Occurrence -> Fingerprint, fp: Fingerprint)
    requires Ordered(order)
    ensures Ordered(Bucket(order, key, fp))
  {
    if order != [] {
      var n := |order| - 1;
      var front := Bucket(order[..n], key, fp);
      BucketOrdered(order[..n], key, fp);
      BucketMembers(order[..n], key, fp);
      forall i | 0 <= i < |front|
        ensures Before(front[i], order[n])
      {
        assert front[i] in front && front[i] in order[..n];
        var k :| 0 <= k < n && order[..n][k] == front[i];
        assert Before(order[k], order[n]);
      }
    }
  }

  lemma FingerprintsStep(order: seq<Occurrence>, key: Occurrence -> Fingerprint, o: Occurrence)
    ensures Fingerprints(order + [o], key) == Fingerprints(order, key) + {key(o)}
  {
    var order' := order + [o];
    forall x | x in Fingerprints(order, key) + {key(o)}
      ensures x in Fingerprints(order', key)
    {
      if x == key(o) {
        assert o in order';
      } else {
        var p :| p in order && key(p) == x;
        assert p in order';
      }
    }
  }

  lemma {:induction false} BucketEmpty(order: seq<Occurrence>, key: Occurrence -> Fingerprint, fp: Fingerprint)
    requires fp !in Fingerprints(order, key)
    ensures Bucket(order, key, fp) == []
  {
    if order != [] {
      var front := order[..|order| - 1];
      assert order == front + [order[|order| - 1]];
      FingerprintsStep(front, key, order[|order| - 1]);
      BucketEmpty(front, key, fp);
    }
  }

  /** The recorded list after one more occurrence of its fingerprint. */
  function Record(windows: map<Fingerprint, seq<Occurrence>>, fp: Fingerprint, cap: nat, o: Occurrence): seq<Occurrence> {
    var known := if fp in windows then windows[fp] else [];
    if |known| < cap then known + [o] else known
  }

  /** Recording one more occurrence extends the index by one step of the specification. */
  lemma IndexStep(windows: map<Fingerprint, seq<Occurrence>>, order: seq<Occurrence>,
                  key: Occurrence -> Fingerprint, cap: nat, o: Occurrence)
    requires Indexes(windows, order, key, cap)
    ensures Indexes(windows[key(o) := Record(windows, key(o), cap, o)], order + [o], key, cap)
  {
    FingerprintsStep(order, key, o);
    RecordedBucket(windows, order, key, cap, o);
    OtherBuckets(windows, order, key, cap, o);
    assert windows[key(o) := Record(windows, key(o), cap, o)].Keys == windows.Keys + {key(o)};
  }

  lemma OtherBuckets(windows: map<Fingerprint, seq<Occurrence>>, order: seq<Occurrence>,
                     key: Occurrence -> Fingerprint, cap: nat, o: Occurrence)
    requires Indexes(windows, order, key, cap)
    ensures forall fp :: fp in windows && fp != key(o) ==> windows[fp] == Capped(Bucket(order + [o], key, fp), cap)
  {
    forall fp | fp in windows && fp != key(o)
      ensures windows[fp] == Capped(Bucket(order + [o], key, fp), cap)
    {
      BucketStep(order, key, o, fp);
    }
  }

  lemma RecordedBucket(windows: map<Fingerprint, seq<Occurrence>>, order: seq<Occurrence>,
                       key: Occurrence -> Fingerprint, cap: nat, o: Occurrence)
    requires Indexes(windows, order, key, cap)
    ensures Record(windows, key(o), cap, o) == Capped(Bucket(order + [o], key, key(o)), cap)
  {
    BucketStep(order, key, o, key(o));
    BucketOf(windows, order, key, cap, key(o));
    RecordCapped(windows, Bucket(order, key, key(o)), key(o), cap, o);
  }

  lemma BucketOf(windows: map<Fingerprint, seq<Occurrence>>, order: seq<Occurrence>,
                 key: Occurrence -> Fingerprint, cap: nat, fp: Fingerprint)
    requires Indexes(windows, order, key, cap)
    ensures (if fp in windows then windows[fp] else []) == Capped(Bucket(order, key, fp), cap)
  {
    if fp !in windows {
      BucketEmpty(order, key, fp);
    }
  }

  lemma BucketStep(order: seq<Occurrence>, key: Occurrence -> Fingerprint, o: Occurrence, fp: Fingerprint)
    ensures Bucket(order + [o], key, fp) == Bucket(order, key, fp) + (if fp == key(o) then [o] else [])
  {
    assert (order + [o])[..|order|] == order;
  }

  lemma RecordCapped(windows: map<Fingerprint, seq<Occurrence>>, bucket: seq<Occurrence>, fp: Fingerprint, cap: nat,
                     o: Occurrence)
    requires (if fp in windows then windows[fp] else []) == Capped(bucket, cap)
    ensures Record(windows, fp, cap, o) == Capped(bucket + [o], cap)
  {
  }

  function CountWindows(files: Files, size: nat, n: nat): nat
    requires n <= |files|
  {
    if n == 0 then
      0
    else
      CountWindows(files, size, n - 1) + (if |files[n - 1]| < size then 0 else |files[n - 1]| - size + 1)
  }

  lemma {:induction false} CountWindowsIsLength(files: Files, size: nat, n: nat)
    requires n <= |files|
    ensures CountWindows(files, size, n) == |Windows(files, size, n)|
  {
    if n > 0 {
      CountWindowsIsLength(files, size, n - 1);
      FileWindowsAt(n - 1, WindowCount(|files[n - 1]|, size));
    }
  }

  /** The index exists exactly when the window and bucket budgets suffice; a failure names the budget that did not. */
  method BuildWindowIndex(files: Files, size: nat, cap: nat, budget: Budget, hasher: string -> Fingerprint)
    returns (r: Result<map<Fingerprint, seq<Occurrence>>, DryError>)
    requires size >= 1
    ensures var all, key := AllWindows(files, size), KeyOf(files, size, hasher);
            match r
            case Success(windows) =>
              && Indexes(windows, all, key, cap)
              && |all| <= budget.maxTotalWindows
              && |Fingerprints(all, key)| <= budget.maxFingerprintBuckets
            case Failure(error) =>
              && error.WorkBudgetExceeded?
              && ((error.kind == TotalWindows && |all| > budget.maxTotalWindows)
                  || (error.kind == FingerprintBuckets && |Fingerprints(all, key)| > budget.maxFingerprintBuckets))
  {
    var required := CountWindows(files, size, |files|);
    CountWindowsIsLength(files, size, |files|);
    var _ :- EnsureWithinBudget(TotalWindows, budget.maxTotalWindows, required);
    r := IndexFiles(files, size, cap, budget, hasher, KeyOf(files, size, hasher));
  }

  method IndexFiles(files: Files, size: nat, cap: nat, budget: Budget, hasher: string -> Fingerprint,
                    ghost key: Occurrence -> Fingerprint)
    returns (r: Result<map<Fingerprint, seq<Occurrence>>, DryError>)
    requires size >= 1 && key == KeyOf(files, size, hasher)
    ensures r.Success? ==>
      && Indexes(r.value, AllWindows(files, size), key, cap)
      && |Fingerprints(AllWindows(files, size), key)| <= budget.maxFingerprintBuckets
    ensures r.Failure? ==>
      && r.error.WorkBudgetExceeded? && r.error.kind == FingerprintBuckets
      && |Fingerprints(AllWindows(files, size), key)| > budget.maxFingerprintBuckets
  {
    var windows: map<Fingerprint, seq<Occurrence>> := map[];
    NothingIndexed(key, cap);
    for file := 0 to |files|
      invariant Indexes(windows, Windows(files, size, file), key, cap)
      invariant |windows| <= budget.maxFingerprintBuckets
    {
      var keys := WindowKeys(files, size, hasher, file);
      windows :- IndexFile(files, size, cap, budget, file, keys, windows, key);
    }
    assert |windows| == |windows.Keys|;
    return Success(windows);
  }

  lemma NothingIndexed(key: Occurrence -> Fingerprint, cap: nat)
    ensures Indexes(map[], [], key, cap)
  {
  }

  method WindowKeys(files: Files, size: nat, hasher: string -> Fingerprint, file: nat)
    returns (keys: seq<Fingerprint>)
    requires size >= 1 && file < |files|
    ensures |keys| == WindowCount(|files[file]|, size)
    ensures forall start :: 0 <= start < |keys| ==>
      keys[start] == KeyOf(files, size, hasher)(Occurrence(file, start))
  {
    keys := WindowFingerprints(Hashes(files[file], hasher), size);
  }

  method IndexFile(files: Files, size: nat, cap: nat, budget: Budget, file: nat, keys: seq<Fingerprint>,
                   before: map<Fingerprint, seq<Occurrence>>, ghost key: Occurrence -> Fingerprint)
    returns (r: Result<map<Fingerprint, seq<Occurrence>>, DryError>)
    requires file < |files| && |keys| == WindowCount(|files[file]|, size)
    requires forall start :: 0 <= start < |keys| ==> keys[start] == key(Occurrence(file, start))
    requires Indexes(before, Windows(files, size, file), key, cap)
    requires |before| <= budget.maxFingerprintBuckets
    ensures match r
            case Success(windows) =>
              && Indexes(windows, Windows(files, size, file + 1), key, cap)
              && |windows| <= budget.maxFingerprintBuckets
            case Failure(error) =>
              && error.WorkBudgetExceeded? && error.kind == FingerprintBuckets
              && |Fingerprints(AllWindows(files, size), key)| > budget.maxFingerprintBuckets
  {
    ghost var order := Windows(files, size, file);
    var windows := before;
    assert order + FileWindows(file, 0) == order;
    for start := 0 to |keys|
      invariant Indexes(windows, order + FileWindows(file, start), key, cap)
      invariant |windows| <= budget.maxFingerprintBuckets
    {
      if keys[start] !in windows {
        TooManyBuckets(files, size, key, file, start);
        var _ :- EnsureWithinBudget(FingerprintBuckets, budget.maxFingerprintBuckets, |windows| + 1);
      }
      IndexFileStep(files, size, key, file, start, windows, cap);
      windows := windows[keys[start] := Record(windows, keys[start], cap, Occurrence(file, start))];
    }
    return Success(windows);
  }

  lemma IndexFileStep(files: Files, size: nat, key: Occurrence -> Fingerprint, file: nat, start: nat,
                      windows: map<Fingerprint, seq<Occurrence>>, cap: nat)
    requires file < |files|
    requires Indexes(windows, Windows(files, size, file) + FileWindows(file, start), key, cap)
    ensures var o := Occurrence(file, start);
            Indexes(windows[key(o) := Record(windows, key(o), cap, o)],
                    Windows(files, size, file) + FileWindows(file, start + 1), key, cap)
  {
    var o, order := Occurrence(file, start), Windows(files, size, file);
    IndexStep(windows, order + FileWindows(file, start), key, cap, o);
    assert order + FileWindows(file, start) + [o] == order + FileWindows(file, start + 1);
  }

  lemma TooManyBuckets(files: Files, size: nat, key: Occurrence -> Fingerprint, file: nat, start: nat)
    requires file < |files| && start < WindowCount(|files[file]|, size)
    requires key(Occurrence(file, start)) !in Fingerprints(Windows(files, size, file) + FileWindows(file, start), key)
    ensures |Fingerprints(AllWindows(files, size), key)|
          > |Fingerprints(Windows(files, size, file) + FileWindows(file, start), key)|
  {
    var seen := Windows(files, size, file) + FileWindows(file, start);
    var o := Occurrence(file, start);
    FingerprintsStep(seen, key, o);
    WindowsMembers(files, size, |files|);
    WindowsMembers(files, size, file);
    FileWindowsAt(file, start);
    forall p | p in seen + [o]
      ensures p in AllWindows(files, size)
    {
    }
    SubsetSize(Fingerprints(seen + [o], key), Fingerprints(AllWindows(files, size), key));
  }

  ghost predicate EqualValues(left: seq<TokenRecord>, i: nat, right: seq<TokenRecord>, j: nat, n: nat) {
    && i + n <= |left| && j + n <= |right|
    && forall k :: i <= k < i + n ==> left[k].value == right[k - i + j].value
  }

  /** Equal windows have equal fingerprints, whatever the token hasher. */
  lemma EqualWindowsEqualKeys(files: Files, size: nat, hasher: string -> Fingerprint, a: Occurrence, b: Occurrence)
    requires IsWindow(files, a, size) && IsWindow(files, b, size)
    requires EqualValues(files[a.file], a.start, files[b.file], b.start, size)
    ensures Key(files, size, hasher, a) == Key(files, size, hasher, b)
  {
    var left := Hashes(files[a.file], hasher)[a.start..a.start + size];
    var right := Hashes(files[b.file], hasher)[b.start..b.start + size];
    forall k | 0 <= k < size
      ensures left[k] == right[k]
    {
      assert files[a.file][a.start + k].value == files[b.file][(a.start + k) - a.start + b.start].value;
    }
    assert left == right;
  }
}
