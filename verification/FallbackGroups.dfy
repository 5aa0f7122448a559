/**
 Consolidation of exact duplicates into groups of equal token sequences, and the selection of groups that are
 independently reportable (crates/analysis-dry/src/lib.rs, `exact_fallback_groups`,
 `select_independent_exact_groups`). The group identity hash is not modelled.
 */
module FallbackGroups {
  import opened Basics
  import opened Wrappers
  import opened Sorting
  import opened Candidates
  import opened WindowIndex
  import opened Regions
  import opened ExactDuplicates
  import opened Evidence

  /** The normalized token values of every file. */
  type Tokens = seq<seq<Text>>

  datatype Group = Group(tokenCount: nat, locations: seq<Location>)

  datatype GroupKey = GroupKey(tokenCount: nat, evidence: Text)

  // ----- grouping by evidence -----

  predicate InTokens(tokens: Tokens, l: Location) {
    l.file < |tokens| && l.startToken <= l.endToken <= |tokens[l.file]|
  }

  function ValuesAt(tokens: Tokens, l: Location): seq<Text>
    requires InTokens(tokens, l)
  {
    tokens[l.file][l.startToken..l.endToken]
  }

  function LocationEvidence(tokens: Tokens, l: Location): Option<Text> {
    if InTokens(tokens, l) then Some(Encoded(ValuesAt(tokens, l))) else None
  }

  predicate Belongs(tokens: Tokens, d: Duplicate, key: GroupKey) {
    d.tokenCount == key.tokenCount && LocationEvidence(tokens, d.first) == Some(key.evidence)
  }

  ghost function Collected(tokens: Tokens, exact: seq<Duplicate>, key: GroupKey): seq<Location> {
    if exact == [] then
      []
    else
      var last := exact[|exact| - 1];
      Collected(tokens, exact[..|exact| - 1], key) + if Belongs(tokens, last, key) then [last.first, last.second] else []
  }

  ghost predicate GroupedBy(tokens: Tokens, exact: seq<Duplicate>, grouped: map<GroupKey, seq<Location>>) {
    forall key :: GroupedAt(tokens, exact, grouped, key)
  }

  ghost predicate GroupedAt(tokens: Tokens, exact: seq<Duplicate>, grouped: map<GroupKey, seq<Location>>, key: GroupKey) {
    && (key in grouped <==> exists d :: d in exact && Belongs(tokens, d, key))
    && (key in grouped ==> grouped[key] == Collected(tokens, exact, key))
  }

  method GroupByEvidence(exact: seq<Duplicate>, tokens: Tokens) returns (grouped: map<GroupKey, seq<Location>>)
    ensures GroupedBy(tokens, exact, grouped)
  {
    grouped := map[];
    for n := 0 to |exact|
      invariant GroupedBy(tokens, exact[..n], grouped)
    {
      var d := exact[n];
      var evidence := LocationEvidence(tokens, d.first);
      GroupStep(tokens, exact[..n], d, grouped);
      assert exact[..n + 1] == exact[..n] + [d];
      if evidence.None? {
        continue;
      }
      var key := GroupKey(d.tokenCount, evidence.value);
      grouped := AddTo(grouped, key, d);
    }
    assert exact[..|exact|] == exact;
  }

  function AddTo(grouped: map<GroupKey, seq<Location>>, key: GroupKey, d: Duplicate): map<GroupKey, seq<Location>> {
    grouped[key := (if key in grouped then grouped[key] else []) + [d.first, d.second]]
  }

  lemma GroupStep(tokens: Tokens, exact: seq<Duplicate>, d: Duplicate, grouped: map<GroupKey, seq<Location>>)
    requires GroupedBy(tokens, exact, grouped)
    ensures LocationEvidence(tokens, d.first).None? ==> GroupedBy(tokens, exact + [d], grouped)
    ensures LocationEvidence(tokens, d.first).Some? ==>
      GroupedBy(tokens, exact + [d], AddTo(grouped, GroupKey(d.tokenCount, LocationEvidence(tokens, d.first).value), d))
  {
    forall key
      ensures LocationEvidence(tokens, d.first).None? ==> GroupedAt(tokens, exact + [d], grouped, key)
      ensures LocationEvidence(tokens, d.first).Some? ==>
        GroupedAt(tokens, exact + [d], AddTo(grouped, GroupKey(d.tokenCount, LocationEvidence(tokens, d.first).value), d), key)
    {
      assert GroupedAt(tokens, exact, grouped, key);
      CollectedStep(tokens, exact, d, key);
      if key !in grouped {
        CollectedNothing(tokens, exact, key);
      }
    }
  }

  lemma CollectedStep(tokens: Tokens, exact: seq<Duplicate>, d: Duplicate, key: GroupKey)
    ensures (Collected(tokens, exact + [d], key)
          == Collected(tokens, exact, key) + if Belongs(tokens, d, key) then [d.first, d.second] else [])
    ensures (exists e :: e in exact + [d] && Belongs(tokens, e, key))
      <==> (exists e :: e in exact && Belongs(tokens, e, key)) || Belongs(tokens, d, key)
  {
    assert (exact + [d])[..|exact|] == exact;
    assert d in exact + [d];
  }

  lemma {:induction false} CollectedNothing(tokens: Tokens, exact: seq<Duplicate>, key: GroupKey)
    requires forall d :: d in exact ==> !Belongs(tokens, d, key)
    ensures Collected(tokens, exact, key) == []
  {
    if exact != [] {
      CollectedNothing(tokens, exact[..|exact| - 1], key);
    }
  }

  lemma {:induction false} CollectedMembers(tokens: Tokens, exact: seq<Duplicate>, key: GroupKey, l: Location)
    ensures l in Collected(tokens, exact, key)
      <==> exists d :: d in exact && Belongs(tokens, d, key) && (l == d.first || l == d.second)
  {
    if exact != [] {
      var front, last := exact[..|exact| - 1], exact[|exact| - 1];
      CollectedMembers(tokens, front, key, l);
      assert exact == front + [last];
      assert last in exact && forall d :: d in front ==> d in exact;
    }
  }

  // ----- sorted, distinct locations -----

  predicate LocationLeq(a: Location, b: Location) {
    LexLeq(LocationOutputKey(a), LocationOutputKey(b))
  }

  lemma LocationOrder()
    ensures TotalPreorder(LocationLeq) && Antisymmetric(LocationLeq)
  {
    KeyOrder(LocationOutputKey, LocationLeq);
    forall x, y | LocationOutputKey(x) == LocationOutputKey(y)
      ensures x == y
    {
      var a, b := LocationOutputKey(x), LocationOutputKey(y);
      assert a[0] == b[0] && a[1] == b[1] && a[2] == b[2] && a[3] == b[3] && a[4] == b[4];
    }
  }

  predicate SameTokens(a: Location, b: Location) {
    a.file == b.file && a.startToken == b.startToken && a.endToken == b.endToken
  }

  /** A location's lines follow from its tokens. */
  ghost predicate LinesFollow(s: seq<Location>) {
    forall i, j :: 0 <= i < |s| && 0 <= j < |s| && SameTokens(s[i], s[j]) ==> s[i] == s[j]
  }

  ghost predicate Distinct(s: seq<Location>) {
    forall i, j :: 0 <= i < j < |s| ==> !SameTokens(s[i], s[j])
  }

  /** Adjacent repetitions removed, as from a sorted list. */
  method Deduplicate(s: seq<Location>) returns (r: seq<Location>)
    requires SortedBy(s, LocationLeq) && LinesFollow(s)
    ensures forall l :: l in r <==> l in s
    ensures SortedBy(r, LocationLeq) && Distinct(r)
  {
    LocationOrder();
    r := [];
    for i := 0 to |s|
      invariant forall l :: l in r <==> l in s[..i]
      invariant SortedBy(r, LocationLeq) && Distinct(r)
      invariant i > 0 ==> r != [] && r[|r| - 1] == s[i - 1]
    {
      assert s[..i + 1] == s[..i] + [s[i]];
      DedupStep(s, i, r);
      if r == [] || !SameTokens(r[|r| - 1], s[i]) {
        r := r + [s[i]];
      }
    }
    assert s[..|s|] == s;
  }

  lemma DedupStep(s: seq<Location>, i: nat, r: seq<Location>)
    requires i < |s| && SortedBy(s, LocationLeq) && LinesFollow(s)
    requires forall l :: l in r <==> l in s[..i]
    requires SortedBy(r, LocationLeq) && Distinct(r)
    requires i > 0 ==> r != [] && r[|r| - 1] == s[i - 1]
    ensures r != [] && SameTokens(r[|r| - 1], s[i]) ==> r[|r| - 1] == s[i]
    ensures r == [] || !SameTokens(r[|r| - 1], s[i]) ==> SortedBy(r + [s[i]], LocationLeq) && Distinct(r + [s[i]])
  {
    LocationOrder();
    assert r != [] ==> r[|r| - 1] in s[..i];
    forall k | 0 <= k < |r|
      ensures LocationLeq(r[k], s[i])
      ensures !SameTokens(r[|r| - 1], s[i]) ==> !SameTokens(r[k], s[i])
    {
      assert r[k] in s[..i];
      var j :| 0 <= j < i && s[j] == r[k];
      assert LocationLeq(s[j], s[i]);
      assert k < |r| - 1 ==> LocationLeq(r[k], r[|r| - 1]);
      assert LocationLeq(s[i - 1], s[i]);
    }
  }

  // ----- the groups -----

  /** A duplicate whose two locations hold the same tokens, with lines that follow from the tokens. */
  ghost predicate SoundExact(tokens: Tokens, exact: seq<Duplicate>) {
    && (forall d :: d in exact ==>
          && InTokens(tokens, d.first) && InTokens(tokens, d.second)
          && ValuesAt(tokens, d.first) == ValuesAt(tokens, d.second)
          && !SameTokens(d.first, d.second))
    && (forall d, e, l, m :: (d in exact && e in exact && l in [d.first, d.second] && m in [e.first, e.second]
                              && SameTokens(l, m)) ==> l == m)
  }

  ghost predicate Reports(d: Duplicate, tokenCount: nat, l: Location) {
    d.tokenCount == tokenCount && l in [d.first, d.second]
  }

  /** All locations of one length reported for one token sequence, each once, in output order. */
  ghost predicate IsTokenClass(tokens: Tokens, exact: seq<Duplicate>, g: Group, values: seq<Text>) {
    && |g.locations| >= 2 && SortedBy(g.locations, LocationLeq) && Distinct(g.locations)
    && forall l :: l in g.locations <==>
         InTokens(tokens, l) && ValuesAt(tokens, l) == values && exists d :: d in exact && Reports(d, g.tokenCount, l)
  }

  /** The groups are exactly the classes of reported locations by length and token sequence. */
  ghost predicate GroupsAreClasses(tokens: Tokens, exact: seq<Duplicate>, groups: seq<Group>) {
    && (forall g :: g in groups ==> exists values :: IsTokenClass(tokens, exact, g, values))
    && (forall d, l :: d in exact && l in [d.first, d.second] ==>
          exists g :: g in groups && g.tokenCount == d.tokenCount && l in g.locations)
    && (forall i, j :: 0 <= i < j < |groups| ==> groups[i] != groups[j])
  }

  /** The locations collected under a key are those with the key's token sequence: the encoding is injective. */
  lemma CollectedValues(tokens: Tokens, exact: seq<Duplicate>, key: GroupKey, d: Duplicate, l: Location)
    requires SoundExact(tokens, exact)
    requires d in exact && Belongs(tokens, d, key)
    ensures l in Collected(tokens, exact, key) <==>
      InTokens(tokens, l) && ValuesAt(tokens, l) == ValuesAt(tokens, d.first)
      && exists e :: e in exact && Reports(e, key.tokenCount, l)
  {
    CollectedMembers(tokens, exact, key, l);
    if l in Collected(tokens, exact, key) {
      var e :| e in exact && Belongs(tokens, e, key) && (l == e.first || l == e.second);
      EncodedInjective(ValuesAt(tokens, e.first), ValuesAt(tokens, d.first));
      assert Reports(e, key.tokenCount, l);
    }
    forall e | e in exact && Reports(e, key.tokenCount, l) && ValuesAt(tokens, l) == ValuesAt(tokens, d.first)
      ensures Belongs(tokens, e, key) && (l == e.first || l == e.second)
    {
    }
  }

  lemma CollectedLines(tokens: Tokens, exact: seq<Duplicate>, key: GroupKey)
    requires SoundExact(tokens, exact)
    ensures LinesFollow(Collected(tokens, exact, key))
  {
    var all := Collected(tokens, exact, key);
    forall i, j | 0 <= i < |all| && 0 <= j < |all| && SameTokens(all[i], all[j])
      ensures all[i] == all[j]
    {
      CollectedMembers(tokens, exact, key, all[i]);
      CollectedMembers(tokens, exact, key, all[j]);
    }
  }

  method GroupOf(key: GroupKey, locations: seq<Location>, ghost tokens: Tokens, ghost exact: seq<Duplicate>,
                 ghost d: Duplicate) returns (g: Group)
    requires SoundExact(tokens, exact) && d in exact && Belongs(tokens, d, key)
    requires locations == Collected(tokens, exact, key)
    ensures g.tokenCount == key.tokenCount && IsTokenClass(tokens, exact, g, ValuesAt(tokens, d.first))
    ensures forall l :: l in g.locations <==> l in locations
  {
    LocationOrder();
    SortCorrect(locations, LocationLeq);
    CollectedLines(tokens, exact, key);
    SortedLines(locations);
    var distinct := Deduplicate(Sort(locations, LocationLeq));
    g := Group(key.tokenCount, distinct);
    forall l
      ensures l in g.locations <==>
        InTokens(tokens, l) && ValuesAt(tokens, l) == ValuesAt(tokens, d.first)
        && exists e :: e in exact && Reports(e, g.tokenCount, l)
    {
      CollectedValues(tokens, exact, key, d, l);
    }
    CollectedMembers(tokens, exact, key, d.first);
    CollectedMembers(tokens, exact, key, d.second);
    TwoLocations(distinct, d.first, d.second);
  }

  lemma SortedLines(locations: seq<Location>)
    requires LinesFollow(locations)
    ensures LinesFollow(Sort(locations, LocationLeq))
  {
    var s := Sort(locations, LocationLeq);
    LocationOrder();
    SortCorrect(locations, LocationLeq);
    forall i, j | 0 <= i < |s| && 0 <= j < |s| && SameTokens(s[i], s[j])
      ensures s[i] == s[j]
    {
      assert s[i] in locations && s[j] in locations;
    }
  }

  lemma TwoLocations(s: seq<Location>, a: Location, b: Location)
    requires a in s && b in s && a != b
    ensures |s| >= 2
  {
  }

  function GroupOutputKey(g: Group): seq<int> {
    [-(g.tokenCount as int)] + LocationsKey(g.locations)
  }

  function LocationsKey(s: seq<Location>): (r: seq<int>)
    ensures |r| == 5 * |s|
  {
    if s == [] then [] else LocationOutputKey(s[0]) + LocationsKey(s[1..])
  }

  /** Longest first, then by the locations in order, a list before its extensions. */
  predicate GroupLeq(a: Group, b: Group) {
    LexLeq(GroupOutputKey(a), GroupOutputKey(b))
  }

  /** The same without keys: more tokens first, then location by location, a list before its extensions. */
  ghost predicate GroupFirst(a: Group, b: Group) {
    a.tokenCount > b.tokenCount || (a.tokenCount == b.tokenCount && LocationsFirst(a.locations, b.locations))
  }

  ghost predicate LocationsFirst(a: seq<Location>, b: seq<Location>) {
    || a == []
    || (b != [] && (LocationFirst(a[0], b[0]) || (a[0] == b[0] && LocationsFirst(a[1..], b[1..]))))
  }

  lemma {:induction false} LocationsOrder(a: seq<Location>, b: seq<Location>)
    ensures LexLeq(LocationsKey(a), LocationsKey(b)) <==> LocationsFirst(a, b)
    decreases |a|
  {
    if a != [] && b != [] {
      LocationLex(a[0], b[0], LocationsKey(a[1..]), LocationsKey(b[1..]));
      LocationsOrder(a[1..], b[1..]);
    }
  }

  lemma GroupOrder(a: Group, b: Group)
    ensures GroupLeq(a, b) <==> GroupFirst(a, b)
  {
    LexCons(-(a.tokenCount as int), LocationsKey(a.locations), -(b.tokenCount as int), LocationsKey(b.locations));
    LocationsOrder(a.locations, b.locations);
  }

  /** Groups of equal token sequences, longest first. */
  method ExactFallbackGroups(exact: seq<Duplicate>, tokens: Tokens) returns (groups: seq<Group>)
    requires SoundExact(tokens, exact)
    ensures GroupsAreClasses(tokens, exact, groups) && SortedBy(groups, GroupLeq)
  {
    var grouped := GroupByEvidence(exact, tokens);
    groups := [];
    var pending := grouped.Keys;
    ghost var keys: seq<GroupKey>, members: seq<Duplicate> := [], [];
    while pending != {}
      invariant forall key :: key in grouped <==> key in keys || key in pending
      invariant forall key :: key in pending ==> key !in keys
      invariant ClassesOf(tokens, exact, groups, keys, members)
      decreases pending
    {
      var key :| key in pending;
      pending := pending - {key};
      ghost var d := FiledUnder(tokens, exact, grouped, key);
      var g := GroupOf(key, grouped[key], tokens, exact, d);
      ClassesStep(tokens, exact, groups, keys, members, g, key, d);
      keys, members := keys + [key], members + [d];
      if |g.locations| >= 2 {
        groups := groups + [g];
      }
    }
    AllClasses(tokens, exact, grouped, groups, keys, members);
    SortedGroups(tokens, exact, groups);
    groups := Sort(groups, GroupLeq);
  }

  lemma FiledUnder(tokens: Tokens, exact: seq<Duplicate>, grouped: map<GroupKey, seq<Location>>, key: GroupKey)
    returns (d: Duplicate)
    requires GroupedBy(tokens, exact, grouped) && key in grouped
    ensures d in exact && Belongs(tokens, d, key) && grouped[key] == Collected(tokens, exact, key)
  {
    assert GroupedAt(tokens, exact, grouped, key);
    d :| d in exact && Belongs(tokens, d, key);
  }

  /** Group `i` is the class of key `keys[i]`, to which `members[i]` belongs; keys are not repeated. */
  ghost predicate ClassesOf(tokens: Tokens, exact: seq<Duplicate>, groups: seq<Group>,
                            keys: seq<GroupKey>, members: seq<Duplicate>)
  {
    && |keys| == |groups| == |members|
    && (forall i :: 0 <= i < |groups| ==> IsClassOf(tokens, exact, groups[i], keys[i], members[i]))
    && (forall i, j :: 0 <= i < j < |keys| ==> keys[i] != keys[j])
  }

  ghost predicate IsClassOf(tokens: Tokens, exact: seq<Duplicate>, g: Group, key: GroupKey, d: Duplicate) {
    && d in exact && Belongs(tokens, d, key) && InTokens(tokens, d.first)
    && g.tokenCount == key.tokenCount
    && IsTokenClass(tokens, exact, g, ValuesAt(tokens, d.first))
  }

  lemma ClassesStep(tokens: Tokens, exact: seq<Duplicate>, groups: seq<Group>,
                    keys: seq<GroupKey>, members: seq<Duplicate>, g: Group, key: GroupKey, d: Duplicate)
    requires ClassesOf(tokens, exact, groups, keys, members)
    requires IsClassOf(tokens, exact, g, key, d) && key !in keys
    ensures ClassesOf(tokens, exact, groups + [g], keys + [key], members + [d])
  {
    assert forall i :: 0 <= i < |keys| ==> keys[i] in keys;
  }

  /** Two keys of one location with the same length are the same key. */
  lemma SameClassSameKey(tokens: Tokens, exact: seq<Duplicate>, g: Group,
                         key: GroupKey, d: Duplicate, other: GroupKey, e: Duplicate)
    requires SoundExact(tokens, exact)
    requires IsClassOf(tokens, exact, g, key, d) && IsClassOf(tokens, exact, g, other, e)
    ensures key == other
  {
    assert Reports(d, g.tokenCount, d.first);
    assert d.first in g.locations;
  }

  lemma ClassHolds(tokens: Tokens, exact: seq<Duplicate>, g: Group, key: GroupKey, d: Duplicate, e: Duplicate, l: Location)
    requires SoundExact(tokens, exact)
    requires IsClassOf(tokens, exact, g, key, d)
    requires e in exact && Belongs(tokens, e, key) && l in [e.first, e.second]
    ensures l in g.locations
  {
    EncodedInjective(ValuesAt(tokens, d.first), ValuesAt(tokens, e.first));
    assert Reports(e, g.tokenCount, l);
  }

  lemma ReportedInGroup(tokens: Tokens, exact: seq<Duplicate>, grouped: map<GroupKey, seq<Location>>, groups: seq<Group>,
                        keys: seq<GroupKey>, members: seq<Duplicate>, d: Duplicate, l: Location)
    requires SoundExact(tokens, exact) && GroupedBy(tokens, exact, grouped)
    requires ClassesOf(tokens, exact, groups, keys, members)
    requires forall key :: key in grouped ==> key in keys
    requires d in exact && l in [d.first, d.second]
    ensures exists g :: g in groups && g.tokenCount == d.tokenCount && l in g.locations
  {
    var key := GroupKey(d.tokenCount, Encoded(ValuesAt(tokens, d.first)));
    assert Belongs(tokens, d, key) && GroupedAt(tokens, exact, grouped, key);
    var i :| 0 <= i < |keys| && keys[i] == key;
    ClassHolds(tokens, exact, groups[i], key, members[i], d, l);
    assert groups[i] in groups;
  }

  lemma GroupsDiffer(tokens: Tokens, exact: seq<Duplicate>, groups: seq<Group>,
                     keys: seq<GroupKey>, members: seq<Duplicate>, i: nat, j: nat)
    requires SoundExact(tokens, exact) && ClassesOf(tokens, exact, groups, keys, members)
    requires i < j < |groups|
    ensures groups[i] != groups[j]
  {
    if groups[i] == groups[j] {
      SameClassSameKey(tokens, exact, groups[i], keys[i], members[i], keys[j], members[j]);
    }
  }

  lemma AllClasses(tokens: Tokens, exact: seq<Duplicate>, grouped: map<GroupKey, seq<Location>>, groups: seq<Group>,
                   keys: seq<GroupKey>, members: seq<Duplicate>)
    requires SoundExact(tokens, exact) && GroupedBy(tokens, exact, grouped)
    requires ClassesOf(tokens, exact, groups, keys, members)
    requires forall key :: key in grouped ==> key in keys
    ensures GroupsAreClasses(tokens, exact, groups)
  {
    forall d, l | d in exact && l in [d.first, d.second]
      ensures exists g :: g in groups && g.tokenCount == d.tokenCount && l in g.locations
    {
      ReportedInGroup(tokens, exact, grouped, groups, keys, members, d, l);
    }
    forall g | g in groups
      ensures exists values :: IsTokenClass(tokens, exact, g, values)
    {
      var i :| 0 <= i < |groups| && groups[i] == g;
      assert IsTokenClass(tokens, exact, g, ValuesAt(tokens, members[i].first));
    }
    forall i, j | 0 <= i < j < |groups|
      ensures groups[i] != groups[j]
    {
      GroupsDiffer(tokens, exact, groups, keys, members, i, j);
    }
  }

  lemma SortedGroups(tokens: Tokens, exact: seq<Duplicate>, groups: seq<Group>)
    requires GroupsAreClasses(tokens, exact, groups)
    ensures GroupsAreClasses(tokens, exact, Sort(groups, GroupLeq)) && SortedBy(Sort(groups, GroupLeq), GroupLeq)
  {
    KeyOrder(GroupOutputKey, GroupLeq);
    SortCorrect(groups, GroupLeq);
    DistinctPermutation(groups, Sort(groups, GroupLeq));
  }

  // ----- the detector's output is sound input -----

  /** The tokens of the detector's files as text. */
  ghost function TokensOf(files: Files, text: string -> Text): Tokens {
    seq(|files|, f requires 0 <= f < |files| =>
      seq(|files[f]|, i requires 0 <= i < |files[f]| => text(files[f][i].value)))
  }

  /** Whatever the exact detector reports can be consolidated. */
  lemma ReportedAreSound(files: Files, min: nat, text: string -> Text, exact: seq<Duplicate>)
    requires min >= 1 && forall d :: d in exact ==> Reportable(files, min, d)
    ensures SoundExact(TokensOf(files, text), exact)
  {
    forall d | d in exact
      ensures InTokens(TokensOf(files, text), d.first) && InTokens(TokensOf(files, text), d.second)
      ensures ValuesAt(TokensOf(files, text), d.first) == ValuesAt(TokensOf(files, text), d.second)
      ensures !SameTokens(d.first, d.second)
    {
      ReportedIsSound(files, min, text, d);
    }
    forall d, e, l, m | (d in exact && e in exact && l in [d.first, d.second] && m in [e.first, e.second]
                         && SameTokens(l, m))
      ensures l == m
    {
      ReportedLines(files, min, d);
      ReportedLines(files, min, e);
    }
  }

  ghost predicate LinesOfTokens(files: Files, l: Location) {
    && l.file < |files| && l.startToken < l.endToken <= |files[l.file]|
    && l.startLine == files[l.file][l.startToken].line && l.endLine == files[l.file][l.endToken - 1].line
  }

  lemma ReportedLines(files: Files, min: nat, d: Duplicate)
    requires min >= 1 && Reportable(files, min, d)
    ensures LinesOfTokens(files, d.first) && LinesOfTokens(files, d.second)
  {
  }

  lemma ReportedIsSound(files: Files, min: nat, text: string -> Text, d: Duplicate)
    requires min >= 1 && Reportable(files, min, d)
    ensures InTokens(TokensOf(files, text), d.first) && InTokens(TokensOf(files, text), d.second)
    ensures ValuesAt(TokensOf(files, text), d.first) == ValuesAt(TokensOf(files, text), d.second)
    ensures !SameTokens(d.first, d.second)
  {
    var r :| Maximal(files, min, r) && !SelfOverlapping(r) && d == DuplicateOf(files, r);
    EqualText(files, text, r.leftFile, r.leftStart, r.rightFile, r.rightStart, r.size);
  }

  lemma EqualText(files: Files, text: string -> Text, f: nat, i: nat, g: nat, j: nat, n: nat)
    requires f < |files| && g < |files| && EqualValues(files[f], i, files[g], j, n)
    ensures TokensOf(files, text)[f][i..i + n] == TokensOf(files, text)[g][j..j + n]
  {
    var a, b := TokensOf(files, text)[f][i..i + n], TokensOf(files, text)[g][j..j + n];
    forall k | 0 <= k < n
      ensures a[k] == b[k]
    {
      assert files[f][i + k].value == files[g][i + k - i + j].value;
    }
  }

  // ----- independently reportable groups -----

  type Spans = map<nat, seq<(nat, nat)>>

  predicate DisjointLines(l: Location, start: nat, end: nat) {
    l.endLine < start || end < l.startLine
  }

  /** The line spans already reported in the location's file leave the location untouched. */
  predicate Uncovered(covered: Spans, l: Location) {
    l.file in covered ==> forall k | 0 <= k < |covered[l.file]| ::
      DisjointLines(l, covered[l.file][k].0, covered[l.file][k].1)
  }

  /** The reference: the location shares no line with any location of the chosen groups in its file. */
  ghost predicate Independent(chosen: seq<Group>, l: Location) {
    forall g, m :: g in chosen && m in g.locations && m.file == l.file ==> DisjointLines(l, m.startLine, m.endLine)
  }

  ghost function IndependentCount(chosen: seq<Group>, locations: seq<Location>): nat {
    if locations == [] then
      0
    else
      IndependentCount(chosen, locations[..|locations| - 1])
      + if Independent(chosen, locations[|locations| - 1]) then 1 else 0
  }

  /** Each group is kept when at least two of its locations are independent of the groups kept before it. */
  ghost function Kept(groups: seq<Group>): seq<Group> {
    if groups == [] then
      []
    else
      var last := groups[|groups| - 1];
      var chosen := Kept(groups[..|groups| - 1]);
      if IndependentCount(chosen, last.locations) >= 2 then chosen + [last] else chosen
  }

  /** The spans recorded per file are those of the chosen groups. */
  ghost predicate Covers(covered: Spans, chosen: seq<Group>) {
    forall l: Location :: Uncovered(covered, l) <==> Independent(chosen, l)
  }

  method IndependentOccurrenceCount(g: Group, covered: Spans, ghost chosen: seq<Group>) returns (count: nat)
    requires Covers(covered, chosen)
    ensures count == IndependentCount(chosen, g.locations)
  {
    count := 0;
    for i := 0 to |g.locations|
      invariant count == IndependentCount(chosen, g.locations[..i])
    {
      assert g.locations[..i + 1][..i] == g.locations[..i];
      if Uncovered(covered, g.locations[i]) {
        count := count + 1;
      }
    }
    assert g.locations[..|g.locations|] == g.locations;
  }

  function Remember(covered: Spans, m: Location): Spans {
    covered[m.file := (if m.file in covered then covered[m.file] else []) + [(m.startLine, m.endLine)]]
  }

  lemma RememberOne(covered: Spans, m: Location, l: Location)
    ensures Uncovered(Remember(covered, m), l)
      <==> Uncovered(covered, l) && (m.file == l.file ==> DisjointLines(l, m.startLine, m.endLine))
  {
    var spans := if m.file in covered then covered[m.file] else [];
    var all := spans + [(m.startLine, m.endLine)];
    assert all[|spans|] == (m.startLine, m.endLine) && forall k :: 0 <= k < |spans| ==> all[k] == spans[k];
  }

  method RememberGroupOccurrences(g: Group, covered: Spans, ghost chosen: seq<Group>) returns (after: Spans)
    requires Covers(covered, chosen)
    ensures Covers(after, chosen + [g])
  {
    after := covered;
    for i := 0 to |g.locations|
      invariant forall l: Location :: (Uncovered(after, l) <==>
        Independent(chosen, l) && forall k :: 0 <= k < i && g.locations[k].file == l.file ==>
          DisjointLines(l, g.locations[k].startLine, g.locations[k].endLine))
    {
      forall l: Location
        ensures (Uncovered(Remember(after, g.locations[i]), l)
            <==> && Uncovered(after, l)
                 && (g.locations[i].file == l.file ==> DisjointLines(l, g.locations[i].startLine, g.locations[i].endLine)))
      {
        RememberOne(after, g.locations[i], l);
      }
      after := Remember(after, g.locations[i]);
    }
    forall l: Location
      ensures Uncovered(after, l) <==> Independent(chosen + [g], l)
    {
      IndependentAppend(chosen, g, l);
    }
  }

  lemma IndependentAppend(chosen: seq<Group>, g: Group, l: Location)
    ensures Independent(chosen + [g], l) <==>
      Independent(chosen, l) && forall k :: 0 <= k < |g.locations| && g.locations[k].file == l.file ==>
        DisjointLines(l, g.locations[k].startLine, g.locations[k].endLine)
  {
    assert g in chosen + [g] && forall h :: h in chosen ==> h in chosen + [g];
    forall k | 0 <= k < |g.locations| && Independent(chosen + [g], l) && g.locations[k].file == l.file
      ensures DisjointLines(l, g.locations[k].startLine, g.locations[k].endLine)
    {
      assert g.locations[k] in g.locations;
    }
  }

  // ----- the same by positions, without the recursion -----

  /** The two locations share no line: the one ends before the other starts. */
  ghost predicate Apart(l: Location, m: Location) {
    l.file != m.file || l.endLine < m.startLine || m.endLine < l.startLine
  }

  ghost predicate HasLine(l: Location, file: nat, line: nat) {
    l.file == file && l.startLine <= line <= l.endLine
  }

  lemma ApartSharesNoLine(l: Location, m: Location)
    requires l.startLine <= l.endLine && m.startLine <= m.endLine
    ensures Apart(l, m) <==> forall file, line :: !(HasLine(l, file, line) && HasLine(m, file, line))
  {
    var line := Max(l.startLine, m.startLine);
    assert !Apart(l, m) ==> HasLine(l, l.file, line) && HasLine(m, l.file, line);
  }

  /** The location shares no line with any location of the groups at the kept positions below `n`. */
  ghost predicate FreeAt(groups: seq<Group>, kept: seq<nat>, n: nat, l: Location) {
    forall p, m :: p in kept && p < n && p < |groups| && m in groups[p].locations ==> Apart(l, m)
  }

  /** At least two locations of the group at position `n` are free there. */
  ghost predicate TwoFree(groups: seq<Group>, kept: seq<nat>, n: nat)
    requires n < |groups|
  {
    exists a, b ::
      && 0 <= a < b < |groups[n].locations|
      && FreeAt(groups, kept, n, groups[n].locations[a]) && FreeAt(groups, kept, n, groups[n].locations[b])
  }

  /** The selection lists the groups at increasing positions. */
  ghost predicate ListsKept(groups: seq<Group>, kept: seq<nat>, selected: seq<Group>) {
    && |kept| == |selected|
    && (forall k :: 0 <= k < |kept| ==> kept[k] < |groups| && selected[k] == groups[kept[k]])
    && forall j, k :: 0 <= j < k < |kept| ==> kept[j] < kept[k]
  }

  /** Of the first `n` positions exactly those are kept at which two locations are free. */
  ghost predicate KeepsFree(groups: seq<Group>, kept: seq<nat>, n: nat)
    requires n <= |groups|
  {
    && (forall p :: p in kept ==> p < n)
    && forall p :: 0 <= p < n ==> (p in kept <==> TwoFree(groups, kept, p))
  }

  lemma FreeIsIndependent(groups: seq<Group>, kept: seq<nat>, selected: seq<Group>, n: nat, l: Location)
    requires n <= |groups| && ListsKept(groups, kept, selected) && forall p :: p in kept ==> p < n
    ensures FreeAt(groups, kept, n, l) <==> Independent(selected, l)
  {
    if Independent(selected, l) {
      forall p, m | p in kept && m in groups[p].locations
        ensures Apart(l, m)
      {
        var k :| 0 <= k < |kept| && kept[k] == p;
        assert selected[k] in selected;
      }
    }
    if FreeAt(groups, kept, n, l) {
      forall g, m | g in selected && m in g.locations && m.file == l.file
        ensures DisjointLines(l, m.startLine, m.endLine)
      {
        var k :| 0 <= k < |selected| && selected[k] == g;
        assert kept[k] in kept && Apart(l, m);
      }
    }
  }

  lemma {:induction false} AnyIndependent(chosen: seq<Group>, locations: seq<Location>)
    ensures (IndependentCount(chosen, locations) >= 1 <==>
      exists a :: 0 <= a < |locations| && Independent(chosen, locations[a]))
  {
    if locations != [] {
      AnyIndependent(chosen, locations[..|locations| - 1]);
    }
  }

  lemma {:induction false} TwoIndependent(chosen: seq<Group>, locations: seq<Location>)
    ensures (IndependentCount(chosen, locations) >= 2 <==>
      exists a, b :: 0 <= a < b < |locations| && Independent(chosen, locations[a]) && Independent(chosen, locations[b]))
  {
    if locations != [] {
      var n := |locations| - 1;
      var front := locations[..n];
      TwoIndependent(chosen, front);
      AnyIndependent(chosen, front);
      assert forall a :: 0 <= a < n ==> front[a] == locations[a];
    }
  }

  lemma CountIsTwoFree(groups: seq<Group>, kept: seq<nat>, selected: seq<Group>, n: nat)
    requires n < |groups| && ListsKept(groups, kept, selected) && forall p :: p in kept ==> p < n
    ensures IndependentCount(selected, groups[n].locations) >= 2 <==> TwoFree(groups, kept, n)
  {
    var locations := groups[n].locations;
    TwoIndependent(selected, locations);
    forall l
      ensures FreeAt(groups, kept, n, l) <==> Independent(selected, l)
    {
      FreeIsIndependent(groups, kept, selected, n, l);
    }
  }

  /** Keeping a later position changes nothing for an earlier one. */
  lemma LaterKept(groups: seq<Group>, kept: seq<nat>, n: nat, p: nat)
    requires p <= n < |groups|
    ensures TwoFree(groups, kept + [n], p) <==> TwoFree(groups, kept, p)
  {
    forall l
      ensures FreeAt(groups, kept + [n], p, l) <==> FreeAt(groups, kept, p, l)
    {
    }
  }

  lemma KeepStep(groups: seq<Group>, kept: seq<nat>, n: nat)
    requires n < |groups| && KeepsFree(groups, kept, n)
    ensures TwoFree(groups, kept, n) ==> KeepsFree(groups, kept + [n], n + 1)
    ensures !TwoFree(groups, kept, n) ==> KeepsFree(groups, kept, n + 1)
  {
    if TwoFree(groups, kept, n) {
      forall p | 0 <= p < n + 1
        ensures p in kept + [n] <==> TwoFree(groups, kept + [n], p)
      {
        LaterKept(groups, kept, n, p);
      }
    }
  }

  ghost predicate SelectedTo(groups: seq<Group>, kept: seq<nat>, selected: seq<Group>, n: nat)
    requires n <= |groups|
  {
    ListsKept(groups, kept, selected) && KeepsFree(groups, kept, n)
  }

  lemma SelectStep(groups: seq<Group>, kept: seq<nat>, selected: seq<Group>, n: nat)
    requires n < |groups| && SelectedTo(groups, kept, selected, n)
    ensures (if IndependentCount(selected, groups[n].locations) >= 2
             then SelectedTo(groups, kept + [n], selected + [groups[n]], n + 1)
             else SelectedTo(groups, kept, selected, n + 1))
  {
    CountIsTwoFree(groups, kept, selected, n);
    KeepStep(groups, kept, n);
    assert forall k :: 0 <= k < |kept| ==> kept[k] in kept;
  }

  /**
   The selection from a sorted list of groups: the groups at the kept positions in order, where a position is kept
   exactly when at least two locations share no line with the groups kept before it.
   */
  method SelectFromSorted(groups: seq<Group>) returns (selected: seq<Group>, ghost kept: seq<nat>)
    ensures ListsKept(groups, kept, selected) && KeepsFree(groups, kept, |groups|)
    ensures selected == Kept(groups)
  {
    var covered: Spans := map[];
    selected := [];
    kept := [];
    for i := 0 to |groups|
      invariant selected == Kept(groups[..i]) && Covers(covered, selected)
      invariant SelectedTo(groups, kept, selected, i)
    {
      assert groups[..i + 1][..i] == groups[..i];
      SelectStep(groups, kept, selected, i);
      var count := IndependentOccurrenceCount(groups[i], covered, selected);
      if count < 2 {
        continue;
      }
      covered := RememberGroupOccurrences(groups[i], covered, selected);
      selected := selected + [groups[i]];
      kept := kept + [i];
    }
    assert groups[..|groups|] == groups;
  }

  /** The groups sorted longest first, and the positions kept among them. */
  ghost predicate Selects(groups: seq<Group>, selected: seq<Group>) {
    exists sorted, kept ::
      && ListsKept(sorted, kept, selected)
      && multiset(sorted) == multiset(groups) && SortedBy(sorted, GroupFirst)
      && KeepsFree(sorted, kept, |sorted|)
  }

  /** Groups are considered in output order, longest first. */
  method SelectIndependentExactGroups(groups: seq<Group>) returns (selected: seq<Group>)
    ensures Selects(groups, selected)
    ensures selected == Kept(Sort(groups, GroupLeq))
  {
    var sorted := Sort(groups, GroupLeq);
    KeyOrder(GroupOutputKey, GroupLeq);
    SortCorrect(groups, GroupLeq);
    forall i, j | 0 <= i < j < |sorted|
      ensures GroupFirst(sorted[i], sorted[j])
    {
      GroupOrder(sorted[i], sorted[j]);
    }
    ghost var kept;
    selected, kept := SelectFromSorted(sorted);
    assert ListsKept(sorted, kept, selected);
  }

  /**
   What the selection promises: every kept group has two locations on lines no earlier kept group reports, and of
   every dropped group at most one location is on lines the kept groups leave free.
   */
  lemma {:induction false} SelectionIndependent(groups: seq<Group>)
    ensures forall i :: 0 <= i < |Kept(groups)| ==>
      IndependentCount(Kept(groups)[..i], Kept(groups)[i].locations) >= 2
    ensures forall g :: g in groups && g !in Kept(groups) ==> IndependentCount(Kept(groups), g.locations) <= 1
  {
    if groups != [] {
      var front, last := groups[..|groups| - 1], groups[|groups| - 1];
      var chosen, kept := Kept(front), Kept(groups);
      SelectionIndependent(front);
      assert groups == front + [last];
      assert kept[..|chosen|] == chosen;
      forall i | 0 <= i < |chosen|
        ensures kept[..i] == chosen[..i] && kept[i] == chosen[i]
      {
      }
      forall g | g in groups && g !in kept
        ensures IndependentCount(kept, g.locations) <= 1
      {
        assert g == last || (g in front && g !in chosen);
        MoreChosen(chosen, kept, g.locations);
      }
    }
  }

  /** Choosing more groups leaves fewer independent locations. */
  lemma {:induction false} MoreChosen(chosen: seq<Group>, more: seq<Group>, locations: seq<Location>)
    requires forall g :: g in chosen ==> g in more
    ensures IndependentCount(more, locations) <= IndependentCount(chosen, locations)
  {
    if locations != [] {
      MoreChosen(chosen, more, locations[..|locations| - 1]);
    }
  }
}
