/**
 Greedy selection of non-redundant groups
 (crates/analysis-dry/src/lib.rs, `select_non_redundant`).
 */
module Selection {
  import opened Sorting

  ghost predicate Transitive<G(!new)>(redundant: (G, G) -> bool) {
    forall a, b, c :: redundant(a, b) && redundant(b, c) ==> redundant(a, c)
  }

  /** Groups are distinct and no group is redundant with respect to a later one. */
  ghost predicate LargestFirst<G(!new)>(groups: seq<G>, redundant: (G, G) -> bool) {
    forall i, j :: 0 <= i < j < |groups| ==> groups[i] != groups[j] && !redundant(groups[i], groups[j])
  }

  function Take<G>(s: seq<G>, limit: nat): seq<G> {
    if |s| <= limit then s else s[..limit]
  }

  /** What the loop has selected after all of `groups`, were there no limit. */
  ghost function Greedy<G>(groups: seq<G>, redundant: (G, G) -> bool): seq<G> {
    if groups == [] then
      []
    else
      var last := groups[|groups| - 1];
      var selected := Greedy(groups[..|groups| - 1], redundant);
      if exists existing :: existing in selected && redundant(last, existing) then selected else selected + [last]
  }

  /** A group that is redundant with respect to no other group. */
  ghost predicate IsMaximal<G(!new)>(all: seq<G>, g: G, redundant: (G, G) -> bool) {
    forall h :: h in all && h != g ==> !redundant(g, h)
  }

  ghost function Maximals<G(!new)>(groups: seq<G>, all: seq<G>, redundant: (G, G) -> bool): seq<G> {
    if groups == [] then
      []
    else
      var last := groups[|groups| - 1];
      var front := Maximals(groups[..|groups| - 1], all, redundant);
      if IsMaximal(all, last, redundant) then front + [last] else front
  }

  method SelectNonRedundant<G(==)>(groups: seq<G>, limit: nat, redundant: (G, G) -> bool) returns (selected: seq<G>)
    requires limit > 0
    ensures selected == Take(Greedy(groups, redundant), limit)
  {
    selected := [];
    for i := 0 to |groups|
      invariant selected == Greedy(groups[..i], redundant)
      invariant |selected| < limit
    {
      assert groups[..i + 1][..i] == groups[..i];
      if exists existing :: existing in selected && redundant(groups[i], existing) {
        continue;
      }
      selected := selected + [groups[i]];
      if |selected| == limit {
        GreedyPrefix(groups, i + 1, redundant);
        return;
      }
    }
    assert groups[..|groups|] == groups;
  }

  lemma {:induction false} GreedyPrefix<G>(groups: seq<G>, n: nat, redundant: (G, G) -> bool)
    requires n <= |groups|
    ensures Greedy(groups[..n], redundant) <= Greedy(groups, redundant)
    decreases |groups| - n
  {
    if n == |groups| {
      assert groups[..n] == groups;
    } else {
      GreedyPrefix(groups, n + 1, redundant);
      assert groups[..n + 1][..n] == groups[..n];
    }
  }

  /** Every group is selected or redundant with respect to a selected one. */
  lemma {:induction false} GreedyCovers<G(!new)>(groups: seq<G>, g: G, redundant: (G, G) -> bool)
    requires g in groups
    ensures exists e :: e in Greedy(groups, redundant) && (e == g || redundant(g, e))
  {
    var n := |groups| - 1;
    var selected := Greedy(groups[..n], redundant);
    if g == groups[n] {
      if exists e :: e in selected && redundant(g, e) {
        var e :| e in selected && redundant(g, e);
        assert e in Greedy(groups, redundant);
      } else {
        assert Greedy(groups, redundant) == selected + [g];
        assert g in Greedy(groups, redundant);
      }
    } else {
      assert g in groups[..n];
      GreedyCovers(groups[..n], g, redundant);
      var e :| e in selected && (e == g || redundant(g, e));
      assert e in Greedy(groups, redundant);
    }
  }

  lemma {:induction false} GreedySubset<G(!new)>(groups: seq<G>, g: G, redundant: (G, G) -> bool)
    requires g in Greedy(groups, redundant)
    ensures g in groups
  {
    var n := |groups| - 1;
    if g in Greedy(groups[..n], redundant) {
      GreedySubset(groups[..n], g, redundant);
    }
  }

  /**
   On groups listed largest first and a transitive redundancy, the greedy loop selects exactly
   the maximal groups, in order.
   */
  lemma {:induction false} GreedyIsMaximals<G(!new)>(groups: seq<G>, n: nat, redundant: (G, G) -> bool)
    requires n <= |groups|
    requires Transitive(redundant) && LargestFirst(groups, redundant)
    ensures Greedy(groups[..n], redundant) == Maximals(groups[..n], groups, redundant)
  {
    if n > 0 {
      var prefix, last := groups[..n - 1], groups[n - 1];
      assert groups[..n][..n - 1] == prefix;
      GreedyIsMaximals(groups, n - 1, redundant);
      var selected := Greedy(prefix, redundant);
      if IsMaximal(groups, last, redundant) {
        forall e | e in selected
          ensures !redundant(last, e)
        {
          GreedySubset(prefix, e, redundant);
          var i :| 0 <= i < |prefix| && prefix[i] == e;
          assert groups[i] == e;
        }
      } else {
        NonMaximalCovered(groups, n - 1, redundant);
      }
    }
  }

  lemma NonMaximalCovered<G(!new)>(groups: seq<G>, n: nat, redundant: (G, G) -> bool)
    requires n < |groups| && !IsMaximal(groups, groups[n], redundant)
    requires Transitive(redundant) && LargestFirst(groups, redundant)
    ensures exists e :: e in Greedy(groups[..n], redundant) && redundant(groups[n], e)
  {
    var h :| h in groups && h != groups[n] && redundant(groups[n], h);
    var i :| 0 <= i < |groups| && groups[i] == h;
    assert i < n;
    assert h == groups[..n][i];
    GreedyCovers(groups[..n], h, redundant);
    var e :| e in Greedy(groups[..n], redundant) && (e == h || redundant(h, e));
    assert redundant(groups[n], e);
  }

  lemma {:induction false} MaximalsMembers<G(!new)>(groups: seq<G>, all: seq<G>, redundant: (G, G) -> bool)
    ensures forall g :: g in Maximals(groups, all, redundant) <==> g in groups && IsMaximal(all, g, redundant)
  {
    if groups != [] {
      var n := |groups| - 1;
      MaximalsMembers(groups[..n], all, redundant);
      assert groups == groups[..n] + [groups[n]];
    }
  }

  /** The maximal groups keep the order of the input. */
  lemma {:induction false} MaximalsOrdered<G(!new)>(groups: seq<G>, all: seq<G>, redundant: (G, G) -> bool, before: (G, G) -> bool)
    requires SortedBy(groups, before)
    ensures SortedBy(Maximals(groups, all, redundant), before)
  {
    if groups != [] {
      var n := |groups| - 1;
      MaximalsOrdered(groups[..n], all, redundant, before);
      MaximalsMembers(groups[..n], all, redundant);
      var front := Maximals(groups[..n], all, redundant);
      forall i | 0 <= i < |front|
        ensures before(front[i], groups[n])
      {
        assert front[i] in front && front[i] in groups[..n];
        var k :| 0 <= k < n && groups[..n][k] == front[i];
        assert before(groups[k], groups[n]);
      }
    }
  }
}
