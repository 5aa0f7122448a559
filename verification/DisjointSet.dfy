/**
 Union-find with path compression (crates/analysis-dry/src/lib.rs, `DisjointSet`),
 proved against connectivity by paths.
 */
module DisjointSets {

  /** Parents never point upward, so root search ends. */
  ghost predicate Forest(parents: seq<nat>) {
    forall i :: 0 <= i < |parents| ==> parents[i] <= i
  }

  ghost function RootOf(parents: seq<nat>, i: nat): (root: nat)
    requires Forest(parents) && i < |parents|
    ensures root <= i && parents[root] == root
    decreases i
  {
    if parents[i] == i then i else RootOf(parents, parents[i])
  }

  ghost function Roots(parents: seq<nat>): (roots: seq<nat>)
    requires Forest(parents)
    ensures |roots| == |parents| && forall i :: 0 <= i < |parents| ==> roots[i] == RootOf(parents, i)
  {
    seq(|parents|, i requires 0 <= i < |parents| => RootOf(parents, i))
  }

  ghost predicate SameRoots(a: seq<nat>, b: seq<nat>)
    requires Forest(a) && Forest(b)
  {
    |a| == |b| && forall i :: 0 <= i < |a| ==> RootOf(a, i) == RootOf(b, i)
  }

  lemma {:induction false} CompressKeepsRoots(parents: seq<nat>, node: nat, i: nat)
    requires Forest(parents) && node < |parents| && i < |parents|
    ensures Forest(parents[node := RootOf(parents, node)])
    ensures RootOf(parents[node := RootOf(parents, node)], i) == RootOf(parents, i)
    decreases i
  {
    var root := RootOf(parents, node);
    var compressed := parents[node := root];
    if i == node {
      assert compressed[root] == root;
    } else if parents[i] != i {
      CompressKeepsRoots(parents, node, parents[i]);
    }
  }

  lemma {:induction false} LinkRoots(parents: seq<nat>, root: nat, child: nat, i: nat)
    requires Forest(parents) && root < child < |parents| && i < |parents|
    requires parents[root] == root && parents[child] == child
    ensures Forest(parents[child := root])
    ensures RootOf(parents[child := root], i) == if RootOf(parents, i) == child then root else RootOf(parents, i)
    decreases i
  {
    if parents[i] != i {
      LinkRoots(parents, root, child, parents[i]);
    }
  }

  /** The roots after joining the classes of `left` and `right` under the smaller root. */
  ghost predicate Joined(before: seq<nat>, after: seq<nat>, left: nat, right: nat)
    requires Forest(before) && Forest(after) && left < |before| && right < |before|
  {
    var l, r := RootOf(before, left), RootOf(before, right);
    && |after| == |before|
    && forall i :: 0 <= i < |before| ==>
         RootOf(after, i) ==
         if RootOf(before, i) == l || RootOf(before, i) == r then (if l < r then l else r) else RootOf(before, i)
  }

  class DisjointSet {
    const parents: array<nat>

    ghost predicate Valid()
      reads this, parents
    {
      Forest(parents[..])
    }

    constructor (size: nat)
      ensures Valid() && fresh(parents) && parents.Length == size
      ensures forall i :: 0 <= i < size ==> parents[i] == i
    {
      parents := new nat[size](i => i);
    }

    method Root(node: nat) returns (root: nat)
      requires Valid() && node < parents.Length
      modifies parents
      ensures Valid() && root == RootOf(old(parents[..]), node)
      ensures SameRoots(old(parents[..]), parents[..])
    {
      ghost var start := parents[..];
      root := node;
      while parents[root] != root
        invariant root < parents.Length && RootOf(start, root) == RootOf(start, node)
        decreases root
      {
        root := parents[root];
      }
      var current: nat := node;
      while parents[current] != current
        invariant current < parents.Length && Forest(parents[..])
        invariant SameRoots(start, parents[..]) && RootOf(start, current) == root
        decreases current
      {
        var parent := parents[current];
        ghost var before := parents[..];
        assert RootOf(before, current) == root && RootOf(before, parent) == root;
        forall i | 0 <= i < |before|
          ensures Forest(before[current := root]) && RootOf(before[current := root], i) == RootOf(before, i)
        {
          CompressKeepsRoots(before, current, i);
        }
        parents[current] := root;
        assert parents[..] == before[current := root];
        current := parent;
      }
    }

    method Union(left: nat, right: nat)
      requires Valid() && left < parents.Length && right < parents.Length
      modifies parents
      ensures Valid() && Joined(old(parents[..]), parents[..], left, right)
    {
      var leftRoot := Root(left);
      var rightRoot := Root(right);
      if leftRoot == rightRoot {
        return;
      }
      var root: nat, child: nat := leftRoot, rightRoot;
      if rightRoot < leftRoot {
        root, child := rightRoot, leftRoot;
      }
      ghost var before := parents[..];
      assert RootOf(before, left) == leftRoot && RootOf(before, right) == rightRoot;
      forall i | 0 <= i < |before|
        ensures Forest(before[child := root])
        ensures RootOf(before[child := root], i) == if RootOf(before, i) == child then root else RootOf(before, i)
      {
        LinkRoots(before, root, child, i);
      }
      parents[child] := root;
      assert parents[..] == before[child := root];
    }
  }

  // ----- connectivity -----

  type Edges = set<(nat, nat)>

  ghost predicate Adjacent(edges: Edges, a: nat, b: nat) {
    (a, b) in edges || (b, a) in edges
  }

  ghost predicate IsPath(edges: Edges, path: seq<nat>) {
    path != [] && forall i :: 0 <= i < |path| - 1 ==> Adjacent(edges, path[i], path[i + 1])
  }

  ghost predicate Connected(edges: Edges, a: nat, b: nat) {
    exists path :: IsPath(edges, path) && path[0] == a && path[|path| - 1] == b
  }

  lemma ConnectedSelf(edges: Edges, a: nat)
    ensures Connected(edges, a, a)
  {
    assert IsPath(edges, [a]);
  }

  lemma ConnectedEdge(edges: Edges, a: nat, b: nat)
    requires Adjacent(edges, a, b)
    ensures Connected(edges, a, b)
  {
    var path := [a, b];
    assert IsPath(edges, path) && path[0] == a && path[|path| - 1] == b;
  }

  lemma ConnectedTransitive(edges: Edges, a: nat, b: nat, c: nat)
    requires Connected(edges, a, b) && Connected(edges, b, c)
    ensures Connected(edges, a, c)
  {
    var p :| IsPath(edges, p) && p[0] == a && p[|p| - 1] == b;
    var q :| IsPath(edges, q) && q[0] == b && q[|q| - 1] == c;
    var path := p + q[1..];
    forall i | 0 <= i < |path| - 1
      ensures Adjacent(edges, path[i], path[i + 1])
    {
      if i < |p| - 1 {
        assert Adjacent(edges, p[i], p[i + 1]);
      } else {
        var j := i - (|p| - 1);
        assert path[i] == q[j] && path[i + 1] == q[j + 1];
      }
    }
    assert IsPath(edges, path) && path[0] == a && path[|path| - 1] == c;
  }

  lemma ConnectedSymmetric(edges: Edges, a: nat, b: nat)
    requires Connected(edges, a, b)
    ensures Connected(edges, b, a)
  {
    var p :| IsPath(edges, p) && p[0] == a && p[|p| - 1] == b;
    var path := seq(|p|, i requires 0 <= i < |p| => p[|p| - 1 - i]);
    forall i | 0 <= i < |path| - 1
      ensures Adjacent(edges, path[i], path[i + 1])
    {
      assert Adjacent(edges, p[|p| - 2 - i], p[|p| - 2 - i + 1]);
    }
    assert IsPath(edges, path) && path[0] == b && path[|path| - 1] == a;
  }

  lemma ConnectedMonotone(edges: Edges, more: Edges, a: nat, b: nat)
    requires edges <= more && Connected(edges, a, b)
    ensures Connected(more, a, b)
  {
    var p :| IsPath(edges, p) && p[0] == a && p[|p| - 1] == b;
    forall i | 0 <= i < |p| - 1
      ensures Adjacent(more, p[i], p[i + 1])
    {
      assert Adjacent(edges, p[i], p[i + 1]);
    }
    assert IsPath(more, p);
  }

  // ----- union-find computes connectivity -----

  /** The forest after the unions of `edges`: endpoints agree, and roots are reachable. */
  ghost predicate Represents(parents: seq<nat>, edges: Edges) {
    && Forest(parents)
    && (forall e :: e in edges ==>
          e.0 < |parents| && e.1 < |parents| && RootOf(parents, e.0) == RootOf(parents, e.1))
    && forall i :: 0 <= i < |parents| ==> Connected(edges, i, RootOf(parents, i))
  }

  lemma FreshRepresents(parents: seq<nat>)
    requires forall i :: 0 <= i < |parents| ==> parents[i] == i
    ensures Represents(parents, {})
  {
    forall i | 0 <= i < |parents|
      ensures Connected({}, i, i)
    {
      ConnectedSelf({}, i);
    }
  }

  lemma JoinedRepresents(before: seq<nat>, after: seq<nat>, edges: Edges, left: nat, right: nat)
    requires Represents(before, edges) && Forest(after)
    requires left < |before| && right < |before| && Joined(before, after, left, right)
    ensures Represents(after, edges + {(left, right)})
  {
    var more := edges + {(left, right)};
    forall i | 0 <= i < |after|
      ensures Connected(more, i, RootOf(after, i))
    {
      JoinedConnected(before, after, edges, left, right, i);
    }
  }

  lemma JoinedConnected(before: seq<nat>, after: seq<nat>, edges: Edges, left: nat, right: nat, i: nat)
    requires Represents(before, edges) && Forest(after)
    requires left < |before| && right < |before| && Joined(before, after, left, right) && i < |before|
    ensures Connected(edges + {(left, right)}, i, RootOf(after, i))
  {
    var more := edges + {(left, right)};
    var l, r := RootOf(before, left), RootOf(before, right);
    ConnectedMonotone(edges, more, i, RootOf(before, i));
    ConnectedMonotone(edges, more, left, l);
    ConnectedMonotone(edges, more, right, r);
    ConnectedEdge(more, left, right);
    ConnectedTransitive(more, left, right, r);
    ConnectedSymmetric(more, left, l);
    ConnectedTransitive(more, l, left, r);
    ConnectedSymmetric(more, l, r);
    if RootOf(after, i) != RootOf(before, i) {
      ConnectedTransitive(more, i, RootOf(before, i), RootOf(after, i));
    }
  }

  lemma {:induction false} PathSameRoot(parents: seq<nat>, edges: Edges, path: seq<nat>)
    requires Represents(parents, edges) && IsPath(edges, path) && path[0] < |parents|
    ensures path[|path| - 1] < |parents|
    ensures RootOf(parents, path[0]) == RootOf(parents, path[|path| - 1])
  {
    if |path| > 1 {
      assert Adjacent(edges, path[0], path[1]);
      var rest := path[1..];
      forall i | 0 <= i < |rest| - 1
        ensures Adjacent(edges, rest[i], rest[i + 1])
      {
        assert Adjacent(edges, path[i + 1], path[i + 1 + 1]);
      }
      PathSameRoot(parents, edges, rest);
    }
  }

  /** Two indices share a root exactly when a path of unions joins them. */
  lemma SameRootIffConnected(parents: seq<nat>, edges: Edges, a: nat, b: nat)
    requires Represents(parents, edges) && a < |parents| && b < |parents|
    ensures RootOf(parents, a) == RootOf(parents, b) <==> Connected(edges, a, b)
  {
    if RootOf(parents, a) == RootOf(parents, b) {
      ConnectedSymmetric(edges, b, RootOf(parents, b));
      ConnectedTransitive(edges, a, RootOf(parents, a), b);
    }
    if Connected(edges, a, b) {
      var p :| IsPath(edges, p) && p[0] == a && p[|p| - 1] == b;
      PathSameRoot(parents, edges, p);
    }
  }

  /** The root is the least index of its class. */
  lemma RootIsLeast(parents: seq<nat>, edges: Edges, a: nat, b: nat)
    requires Represents(parents, edges) && a < |parents| && b < |parents| && Connected(edges, a, b)
    ensures RootOf(parents, a) <= b && Connected(edges, a, RootOf(parents, a))
  {
    SameRootIffConnected(parents, edges, a, b);
  }
}
