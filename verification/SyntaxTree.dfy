/**
 Traversals of syntax trees with an explicit stack (crates/adapter-tree-sitter/src/lib.rs): pruned preorder,
 visiting with a stateful decision, cyclomatic complexity and nesting depth.
 A node carries what the measures read of it; per-language kind tables are a `Grammar`.
 */
module SyntaxTree {
  import opened Basics
  import opened Wrappers

  datatype Node = Node(
    kind: string,
    text: string,
    previousNamed: Option<string>,
    hasCondition: bool,
    hasAlternative: bool,
    children: seq<Node>)

  datatype Grammar = Grammar(rust: bool, boundaries: set<string>, decisions: set<string>, nestings: set<string>)

  function SaturatingAdd(a: nat, b: nat): (r: nat)
    ensures r <= U32_MAX && (a <= U32_MAX ==> a <= r)
  {
    if a + b > U32_MAX then U32_MAX else a + b
  }

  function Boundary(g: Grammar): Node -> bool {
    (n: Node) => n.kind in g.boundaries
  }

  // ----- sizes and stacks -----

  /** The number of nodes of a forest, the termination measure of every traversal. */
  ghost function Size(forest: seq<Node>): nat {
    if forest == [] then 0 else 1 + Size(forest[0].children) + Size(forest[1..])
  }

  lemma {:induction false} SizeSplit(a: seq<Node>, b: seq<Node>)
    ensures Size(a + b) == Size(a) + Size(b)
  {
    if a == [] {
      assert a + b == b;
    } else {
      assert (a + b)[1..] == a[1..] + b;
      SizeSplit(a[1..], b);
    }
  }

  function Reverse<T>(s: seq<T>): seq<T> {
    if s == [] then [] else Reverse(s[1..]) + [s[0]]
  }

  /** The nodes of a list that are not stopped. */
  function Kept(nodes: seq<Node>, stop: Node -> bool): seq<Node> {
    if nodes == [] then [] else (if stop(nodes[0]) then [] else [nodes[0]]) + Kept(nodes[1..], stop)
  }

  lemma {:induction false} KeptSplit(a: seq<Node>, b: seq<Node>, stop: Node -> bool)
    ensures Kept(a + b, stop) == Kept(a, stop) + Kept(b, stop)
  {
    if a == [] {
      assert a + b == b;
    } else {
      assert (a + b)[1..] == a[1..] + b;
      KeptSplit(a[1..], b, stop);
    }
  }

  /** Filtering commutes with reversal, so a stack filled with the reversed children is popped in order. */
  lemma {:induction false} KeptReverse(nodes: seq<Node>, stop: Node -> bool)
    ensures Kept(Reverse(nodes), stop) == Reverse(Kept(nodes, stop))
  {
    if nodes != [] {
      KeptReverse(nodes[1..], stop);
      KeptSplit(Reverse(nodes[1..]), [nodes[0]], stop);
      if stop(nodes[0]) {
        assert Kept(nodes, stop) == Kept(nodes[1..], stop);
        assert Kept([nodes[0]], stop) == [];
      } else {
        assert Kept(nodes, stop)[1..] == Kept(nodes[1..], stop);
        assert Kept([nodes[0]], stop) == [nodes[0]];
      }
    }
  }

  lemma {:induction false} KeptSize(nodes: seq<Node>, stop: Node -> bool)
    ensures Size(Kept(nodes, stop)) <= Size(nodes)
  {
    if nodes != [] {
      KeptSize(nodes[1..], stop);
      SizeSplit(if stop(nodes[0]) then [] else [nodes[0]], Kept(nodes[1..], stop));
    }
  }

  lemma {:induction false} ReverseTwice<T>(s: seq<T>)
    ensures Reverse(Reverse(s)) == s
  {
    if s != [] {
      ReverseTwice(s[1..]);
      ReverseSplit(Reverse(s[1..]), [s[0]]);
      assert Reverse([s[0]]) == [s[0]];
    }
  }

  // ----- pruned preorder -----

  /** Each node before its descendants, siblings in order, nothing at or below a stopped descendant. */
  ghost function Preorder(forest: seq<Node>, stop: Node -> bool): seq<Node>
    decreases Size(forest)
  {
    if forest == [] then
      []
    else
      KeptSize(forest[0].children, stop);
      [forest[0]] + Preorder(Kept(forest[0].children, stop), stop) + Preorder(forest[1..], stop)
  }

  lemma {:induction false} PreorderSplit(a: seq<Node>, b: seq<Node>, stop: Node -> bool)
    ensures Preorder(a + b, stop) == Preorder(a, stop) + Preorder(b, stop)
  {
    if a == [] {
      assert a + b == b;
    } else {
      assert (a + b)[1..] == a[1..] + b;
      PreorderSplit(a[1..], b, stop);
    }
  }

  lemma PreorderOne(n: Node, stop: Node -> bool)
    ensures Preorder([n], stop) == [n] + Preorder(Kept(n.children, stop), stop)
  {
    assert [n][1..] == [];
    assert Preorder([], stop) == [];
  }

  lemma {:induction false} ReverseSplit<T>(a: seq<T>, b: seq<T>)
    ensures Reverse(a + b) == Reverse(b) + Reverse(a)
  {
    if a == [] {
      assert a + b == b;
    } else {
      assert (a + b)[1..] == a[1..] + b;
      ReverseSplit(a[1..], b);
    }
  }

  lemma Pop(rest: seq<Node>, node: Node)
    ensures Reverse(rest + [node]) == [node] + Reverse(rest)
    ensures Size(rest + [node]) == 1 + Size(node.children) + Size(rest)
  {
    ReverseSplit(rest, [node]);
    SizeSplit(rest, [node]);
    assert Reverse([node]) == [node];
    assert Size([node]) == 1 + Size(node.children) + Size([]);
  }

  /** Pushing the kept children in reverse makes them the next nodes to come out, in document order. */
  lemma Push(rest: seq<Node>, children: seq<Node>, stop: Node -> bool)
    ensures var stack := rest + Kept(Reverse(children), stop);
            && Reverse(stack) == Kept(children, stop) + Reverse(rest)
            && Size(stack) <= Size(rest) + Size(children)
  {
    var pushed := Kept(Reverse(children), stop);
    KeptReverse(children, stop);
    ReverseTwice(Kept(children, stop));
    ReverseSplit(rest, pushed);
    SizeSplit(rest, pushed);
    SizeReverse(Kept(children, stop));
    KeptSize(children, stop);
  }

  /** The stack-driven traversal lists the root and then its pruned descendants in document order. */
  method TraversedNodes(root: Node, stop: Node -> bool) returns (nodes: seq<Node>)
    ensures nodes == Preorder([root], stop)
  {
    nodes := [];
    var stack := [root];
    assert Reverse(stack) == [root];
    while stack != []
      invariant nodes + Preorder(Reverse(stack), stop) == Preorder([root], stop)
      decreases Size(stack)
    {
      var node := stack[|stack| - 1];
      var rest := stack[..|stack| - 1];
      assert stack == rest + [node];
      Pop(rest, node);
      PreorderStep(nodes, node, Reverse(rest), stop);
      Push(rest, node.children, stop);
      nodes := nodes + [node];
      stack := rest + Kept(Reverse(node.children), stop);
    }
  }

  lemma PreorderStep(done: seq<Node>, node: Node, rest: seq<Node>, stop: Node -> bool)
    ensures (done + Preorder([node] + rest, stop)
          == (done + [node]) + Preorder(Kept(node.children, stop) + rest, stop))
  {
    assert ([node] + rest)[1..] == rest;
    PreorderSplit(Kept(node.children, stop), rest, stop);
  }

  lemma {:induction false} SizeReverse(nodes: seq<Node>)
    ensures Size(Reverse(nodes)) == Size(nodes)
  {
    if nodes != [] {
      SizeReverse(nodes[1..]);
      SizeSplit(Reverse(nodes[1..]), [nodes[0]]);
    }
  }

  // ----- document order -----

  /** A position gives child indices from a forest down to a node. */
  predicate Located(forest: seq<Node>, at: seq<nat>)
    decreases |at|
  {
    at != [] && at[0] < |forest| && (|at| > 1 ==> Located(forest[at[0]].children, at[1..]))
  }

  function NodeAt(forest: seq<Node>, at: seq<nat>): Node
    requires Located(forest, at)
    decreases |at|
  {
    if |at| == 1 then forest[at[0]] else NodeAt(forest[at[0]].children, at[1..])
  }

  /** No node on the way to the position, itself included, is stopped. */
  predicate Open(forest: seq<Node>, at: seq<nat>, stop: Node -> bool)
    requires Located(forest, at)
    decreases |at|
  {
    !stop(forest[at[0]]) && (|at| > 1 ==> Open(forest[at[0]].children, at[1..], stop))
  }

  /** An ancestor is before its descendants, an earlier sibling before a later one. */
  predicate Before(a: seq<nat>, b: seq<nat>) {
    b != [] && (a == [] || a[0] < b[0] || (a[0] == b[0] && Before(a[1..], b[1..])))
  }

  ghost function Under(first: nat, positions: seq<seq<nat>>): (r: seq<seq<nat>>)
    ensures |r| == |positions| && forall k :: 0 <= k < |r| ==> r[k] == [first] + positions[k]
  {
    seq(|positions|, k requires 0 <= k < |positions| => [first] + positions[k])
  }

  /** The open positions from child `i` on. */
  ghost function Positions(forest: seq<Node>, i: nat, stop: Node -> bool): seq<seq<nat>>
    requires i <= |forest|
    decreases Size(forest[i..])
  {
    if i == |forest| then
      []
    else
      assert forest[i..][1..] == forest[i + 1..];
      (if stop(forest[i]) then [] else [[i]] + Under(i, Positions(forest[i].children, 0, stop)))
      + Positions(forest, i + 1, stop)
  }

  lemma {:induction false} PositionsOpen(forest: seq<Node>, i: nat, stop: Node -> bool, k: nat)
    requires i <= |forest| && k < |Positions(forest, i, stop)|
    ensures var at := Positions(forest, i, stop)[k];
            Located(forest, at) && at[0] >= i && Open(forest, at, stop)
    decreases Size(forest[i..])
  {
    assert forest[i..][1..] == forest[i + 1..];
    var below := Positions(forest[i].children, 0, stop);
    var own := if stop(forest[i]) then [] else [[i]] + Under(i, below);
    if k < |own| {
      if k > 0 {
        PositionsOpen(forest[i].children, 0, stop, k - 1);
        assert Positions(forest, i, stop)[k] == [i] + below[k - 1];
        assert ([i] + below[k - 1])[1..] == below[k - 1];
      }
    } else {
      PositionsOpen(forest, i + 1, stop, k - |own|);
      assert Positions(forest, i, stop)[k] == Positions(forest, i + 1, stop)[k - |own|];
    }
  }

  lemma {:induction false} OpenIsListed(forest: seq<Node>, i: nat, at: seq<nat>, stop: Node -> bool)
    requires i <= |forest| && Located(forest, at) && at[0] >= i && Open(forest, at, stop)
    ensures at in Positions(forest, i, stop)
    decreases Size(forest[i..])
  {
    assert forest[i..][1..] == forest[i + 1..];
    if at[0] > i {
      OpenIsListed(forest, i + 1, at, stop);
    } else {
      var below := Positions(forest[i].children, 0, stop);
      if |at| > 1 {
        OpenIsListed(forest[i].children, 0, at[1..], stop);
        var k :| 0 <= k < |below| && below[k] == at[1..];
        assert at == [i] + below[k] == Under(i, below)[k];
        assert at in [[i]] + Under(i, below);
      } else {
        assert at == [i];
      }
    }
  }

  ghost predicate Ordered(positions: seq<seq<nat>>) {
    forall k, l :: 0 <= k < l < |positions| ==> Before(positions[k], positions[l])
  }

  lemma OrderedJoin(i: nat, below: seq<seq<nat>>, later: seq<seq<nat>>)
    requires Ordered(below) && Ordered(later)
    requires forall k :: 0 <= k < |below| ==> below[k] != []
    requires forall k :: 0 <= k < |later| ==> later[k] != [] && later[k][0] > i
    ensures Ordered([[i]] + Under(i, below) + later)
  {
    var own := [[i]] + Under(i, below);
    forall k, l | 0 <= k < l < |own|
      ensures Before(own[k], own[l])
    {
      assert own[l] == [i] + below[l - 1] && own[l][1..] == below[l - 1];
      assert k > 0 ==> own[k] == [i] + below[k - 1] && own[k][1..] == below[k - 1];
    }
    assert forall k :: 0 <= k < |own| ==> own[k] != [] && own[k][0] == i;
  }

  lemma {:induction false} PositionsOrdered(forest: seq<Node>, i: nat, stop: Node -> bool)
    requires i <= |forest|
    ensures Ordered(Positions(forest, i, stop))
    decreases Size(forest[i..])
  {
    if i < |forest| {
      assert forest[i..][1..] == forest[i + 1..];
      var below := Positions(forest[i].children, 0, stop);
      var later := Positions(forest, i + 1, stop);
      PositionsOrdered(forest, i + 1, stop);
      PositionsOrdered(forest[i].children, 0, stop);
      forall k: nat | k < |below|
        ensures below[k] != []
      {
        PositionsOpen(forest[i].children, 0, stop, k);
      }
      forall k: nat | k < |later|
        ensures later[k] != [] && later[k][0] > i
      {
        PositionsOpen(forest, i + 1, stop, k);
      }
      OrderedJoin(i, below, later);
    }
  }

  /** The nodes of a list of positions. */
  ghost predicate NodesAre(forest: seq<Node>, positions: seq<seq<nat>>, nodes: seq<Node>) {
    && |nodes| == |positions|
    && forall k :: 0 <= k < |nodes| ==> Located(forest, positions[k]) && NodeAt(forest, positions[k]) == nodes[k]
  }

  lemma NodesUnder(forest: seq<Node>, i: nat, positions: seq<seq<nat>>, nodes: seq<Node>)
    requires i < |forest| && NodesAre(forest[i].children, positions, nodes)
    ensures NodesAre(forest, [[i]] + Under(i, positions), [forest[i]] + nodes)
  {
    var all := [[i]] + Under(i, positions);
    forall k | 0 < k < |all|
      ensures Located(forest, all[k]) && NodeAt(forest, all[k]) == nodes[k - 1]
    {
      assert all[k] == [i] + positions[k - 1];
      assert all[k][1..] == positions[k - 1];
    }
  }

  lemma {:induction false} PreorderPositions(forest: seq<Node>, i: nat, stop: Node -> bool)
    requires i <= |forest|
    ensures NodesAre(forest, Positions(forest, i, stop), Preorder(Kept(forest[i..], stop), stop))
    decreases Size(forest[i..])
  {
    if i < |forest| {
      var head := forest[i];
      PreorderFrom(forest, i, stop);
      PreorderPositions(forest, i + 1, stop);
      if !stop(head) {
        assert head.children[0..] == head.children;
        PreorderPositions(head.children, 0, stop);
        NodesUnder(forest, i, Positions(head.children, 0, stop), Preorder(Kept(head.children, stop), stop));
      }
    }
  }

  lemma PreorderFrom(forest: seq<Node>, i: nat, stop: Node -> bool)
    requires i < |forest|
    ensures Size(forest[i..]) == 1 + Size(forest[i].children) + Size(forest[i + 1..])
    ensures (Preorder(Kept(forest[i..], stop), stop)
          == (if stop(forest[i]) then [] else [forest[i]] + Preorder(Kept(forest[i].children, stop), stop))
             + Preorder(Kept(forest[i + 1..], stop), stop))
  {
    assert forest[i..] == [forest[i]] + forest[i + 1..];
    assert forest[i..][1..] == forest[i + 1..];
    if stop(forest[i]) {
      assert Kept(forest[i..], stop) == Kept(forest[i + 1..], stop);
    } else {
      assert Kept(forest[i..], stop) == [forest[i]] + Kept(forest[i + 1..], stop);
      PreorderSplit([forest[i]], Kept(forest[i + 1..], stop), stop);
      PreorderOne(forest[i], stop);
    }
  }

  /**
   What the traversal lists, without recursion over the tree: the nodes at exactly the positions no node on the
   way to which is stopped, each once, in document order.
   */
  lemma DocumentOrder(root: Node, stop: Node -> bool)
    ensures Preorder([root], stop)[0] == root
    ensures NodesAre(root.children, Positions(root.children, 0, stop), Preorder([root], stop)[1..])
    ensures forall at :: (at in Positions(root.children, 0, stop)
                          <==> Located(root.children, at) && Open(root.children, at, stop))
    ensures Ordered(Positions(root.children, 0, stop))
  {
    PreorderOne(root, stop);
    assert root.children[0..] == root.children;
    PreorderPositions(root.children, 0, stop);
    var positions := Positions(root.children, 0, stop);
    forall at | at in positions
      ensures Located(root.children, at) && Open(root.children, at, stop)
    {
      var k :| 0 <= k < |positions| && positions[k] == at;
      PositionsOpen(root.children, 0, stop, k);
    }
    forall at | Located(root.children, at) && Open(root.children, at, stop)
      ensures at in positions
    {
      OpenIsListed(root.children, 0, at, stop);
    }
    PositionsOrdered(root.children, 0, stop);
  }

  // ----- visiting with a stateful decision -----

  /** Every node joins the history; its children follow when `descend`, given the history, agrees. */
  ghost function Visits(history: seq<Node>, forest: seq<Node>, descend: (seq<Node>, Node) -> bool): seq<Node>
    decreases Size(forest)
  {
    if forest == [] then
      history
    else
      var below := if descend(history, forest[0]) then forest[0].children else [];
      Visits(Visits(history + [forest[0]], below, descend), forest[1..], descend)
  }

  lemma {:induction false} VisitsSplit(history: seq<Node>, a: seq<Node>, b: seq<Node>, descend: (seq<Node>, Node) -> bool)
    ensures Visits(history, a + b, descend) == Visits(Visits(history, a, descend), b, descend)
    decreases |a|
  {
    if a == [] {
      assert a + b == b;
    } else {
      assert (a + b)[1..] == a[1..] + b;
      var below := if descend(history, a[0]) then a[0].children else [];
      VisitsSplit(Visits(history + [a[0]], below, descend), a[1..], b, descend);
    }
  }

  /** The stack-driven visit calls `descend` on the same nodes in the same order as the recursion. */
  method VisitDescendants(root: Node, descend: (seq<Node>, Node) -> bool) returns (visited: seq<Node>)
    ensures visited == Visits([], root.children, descend)
  {
    visited := [];
    var stack := Reverse(root.children);
    ReverseTwice(root.children);
    while stack != []
      invariant Visits(visited, Reverse(stack), descend) == Visits([], root.children, descend)
      decreases Size(stack)
    {
      var node := stack[|stack| - 1];
      var rest := stack[..|stack| - 1];
      assert stack == rest + [node];
      Pop(rest, node);
      assert ([node] + Reverse(rest))[1..] == Reverse(rest);
      if descend(visited, node) {
        stack := rest + Reverse(node.children);
        ReverseSplit(rest, Reverse(node.children));
        ReverseTwice(node.children);
        SizeSplit(rest, Reverse(node.children));
        SizeReverse(node.children);
        VisitsSplit(visited + [node], node.children, Reverse(rest), descend);
      } else {
        stack := rest;
      }
      visited := visited + [node];
    }
  }

  // ----- owned nodes and nested functions -----

  /** The stopped nodes with no stopped node above them. */
  ghost function Outermost(forest: seq<Node>, stop: Node -> bool): seq<Node>
    decreases Size(forest)
  {
    if forest == [] then
      []
    else
      (if stop(forest[0]) then [forest[0]] else Outermost(forest[0].children, stop)) + Outermost(forest[1..], stop)
  }

  function Never(): Node -> bool {
    (n: Node) => false
  }

  function Not(stop: Node -> bool): Node -> bool {
    (n: Node) => !stop(n)
  }

  function StopAt(stop: Node -> bool): (seq<Node>, Node) -> bool {
    (history: seq<Node>, n: Node) => !stop(n)
  }

  lemma KeptHead(history: seq<Node>, head: Node, stop: Node -> bool)
    ensures Kept(history + [head], Not(stop)) == Kept(history, Not(stop)) + if stop(head) then [head] else []
  {
    KeptSplit(history, [head], Not(stop));
  }

  lemma OutermostHead(forest: seq<Node>, stop: Node -> bool)
    requires forest != []
    ensures (Outermost(forest, stop)
          == (if stop(forest[0]) then [forest[0]] else [])
             + Outermost(if stop(forest[0]) then [] else forest[0].children, stop) + Outermost(forest[1..], stop))
  {
  }

  /** Collecting the nodes at which a visit stops collects exactly the outermost ones, in document order. */
  lemma {:induction false} StoppedVisits(history: seq<Node>, forest: seq<Node>, stop: Node -> bool)
    ensures (Kept(Visits(history, forest, StopAt(stop)), Not(stop))
          == Kept(history, Not(stop)) + Outermost(forest, stop))
    decreases Size(forest)
  {
    if forest != [] {
      var head := forest[0];
      var below := if stop(head) then [] else head.children;
      KeptHead(history, head, stop);
      OutermostHead(forest, stop);
      StoppedVisits(history + [head], below, stop);
      StoppedVisits(Visits(history + [head], below, StopAt(stop)), forest[1..], stop);
    }
  }

  lemma {:induction false} KeptAll(nodes: seq<Node>)
    ensures Kept(nodes, Never()) == nodes
  {
    if nodes != [] {
      KeptAll(nodes[1..]);
    }
  }

  /** The nodes a traversal lists, with multiplicity. */
  ghost function Listed(forest: seq<Node>, stop: Node -> bool): multiset<Node> {
    multiset(Preorder(forest, stop))
  }

  lemma ListedSplit(a: seq<Node>, b: seq<Node>, stop: Node -> bool)
    ensures Listed(a + b, stop) == Listed(a, stop) + Listed(b, stop)
  {
    PreorderSplit(a, b, stop);
  }

  lemma ListedOne(n: Node, stop: Node -> bool)
    ensures Listed([n], stop) == multiset{n} + Listed(Kept(n.children, stop), stop)
  {
    PreorderOne(n, stop);
  }

  lemma NestedInHead(head: Node, stop: Node -> bool)
    requires Conserved(head.children, stop)
    ensures Conserved([head], stop)
  {
    ListedOne(head, Never());
    KeptAll(head.children);
    assert [head][1..] == [];
    if stop(head) {
      assert Outermost([head], stop) == [head];
      assert Kept([head], stop) == [];
    } else {
      ListedOne(head, stop);
      assert Outermost([head], stop) == Outermost(head.children, stop);
      assert Kept([head], stop) == [head];
    }
  }

  lemma {:induction false} OutermostSplit(a: seq<Node>, b: seq<Node>, stop: Node -> bool)
    ensures Outermost(a + b, stop) == Outermost(a, stop) + Outermost(b, stop)
    decreases |a|
  {
    if a == [] {
      assert a + b == b;
    } else {
      assert (a + b)[1..] == a[1..] + b;
      OutermostSplit(a[1..], b, stop);
    }
  }

  /** Every node of the forest is owned by it or lies in exactly one outermost nested function. */
  ghost predicate Conserved(forest: seq<Node>, stop: Node -> bool) {
    (Listed(forest, Never())
  == Listed(Kept(forest, stop), stop) + Listed(Outermost(forest, stop), Never()))
  }

  lemma OwnedAndNestedJoin(a: seq<Node>, b: seq<Node>, forest: seq<Node>, stop: Node -> bool)
    requires Conserved(a, stop) && Conserved(b, stop) && forest == a + b
    ensures Conserved(forest, stop)
  {
    ListedSplit(a, b, Never());
    KeptSplit(a, b, stop);
    ListedSplit(Kept(a, stop), Kept(b, stop), stop);
    OutermostSplit(a, b, stop);
    ListedSplit(Outermost(a, stop), Outermost(b, stop), Never());
  }

  /** Conservation, counted with multiplicity: owned nodes and nested functions divide the whole tree. */
  lemma {:induction false} OwnedAndNested(forest: seq<Node>, stop: Node -> bool)
    ensures Conserved(forest, stop)
    decreases Size(forest)
  {
    if forest == [] {
      ConservedEmpty(stop);
    } else {
      assert forest == [forest[0]] + forest[1..];
      OwnedAndNested(forest[0].children, stop);
      OwnedAndNested(forest[1..], stop);
      OwnedAndNestedStep(forest[0], forest[1..], forest, stop);
    }
  }

  lemma OwnedAndNestedStep(head: Node, tail: seq<Node>, forest: seq<Node>, stop: Node -> bool)
    requires Conserved(head.children, stop) && Conserved(tail, stop) && forest == [head] + tail
    ensures Conserved(forest, stop)
  {
    NestedInHead(head, stop);
    OwnedAndNestedJoin([head], tail, forest, stop);
  }

  lemma ConservedEmpty(stop: Node -> bool)
    ensures Conserved([], stop)
  {
  }

  // ----- cyclomatic complexity -----

  /** The decision a node itself contributes. A Rust match contributes one per arm after the first. */
  function DecisionIncrement(g: Grammar, n: Node): nat {
    if !g.rust then
      (if n.kind in g.decisions then 1 else 0)
    else if n.kind == "match_arm" then
      (if n.previousNamed == Some("match_arm") then 1 else 0)
    else if n.kind == "match_pattern" then
      (if n.hasCondition then 1 else 0)
    else if n.kind == "let_declaration" then
      (if n.hasAlternative then 1 else 0)
    else if n.kind == "try_expression" then
      1
    else
      (if n.kind in g.decisions then 1 else 0)
  }

  function Operators(nodes: seq<Node>): nat {
    if nodes == [] then 0 else (if nodes[0].text in {"&&", "||", "and", "or"} then 1 else 0) + Operators(nodes[1..])
  }

  ghost function Decisions(g: Grammar, nodes: seq<Node>): nat {
    if nodes == [] then
      0
    else
      DecisionIncrement(g, nodes[0]) + Operators(nodes[0].children) + Decisions(g, nodes[1..])
  }

  lemma {:induction false} DecisionsSplit(g: Grammar, a: seq<Node>, b: seq<Node>)
    ensures Decisions(g, a + b) == Decisions(g, a) + Decisions(g, b)
  {
    if a == [] {
      assert a + b == b;
    } else {
      assert (a + b)[1..] == a[1..] + b;
      DecisionsSplit(g, a[1..], b);
    }
  }

  /** The decisions of the nodes a list of children owns. */
  ghost function OwnedDecisions(g: Grammar, children: seq<Node>): nat {
    Decisions(g, Preorder(Kept(children, Boundary(g)), Boundary(g)))
  }

  lemma OwnedSplit(g: Grammar, a: seq<Node>, b: seq<Node>)
    ensures OwnedDecisions(g, a + b) == OwnedDecisions(g, a) + OwnedDecisions(g, b)
  {
    KeptSplit(a, b, Boundary(g));
    PreorderSplit(Kept(a, Boundary(g)), Kept(b, Boundary(g)), Boundary(g));
    DecisionsSplit(g, Preorder(Kept(a, Boundary(g)), Boundary(g)), Preorder(Kept(b, Boundary(g)), Boundary(g)));
  }

  lemma OwnedNode(g: Grammar, n: Node)
    ensures OwnedDecisions(g, [n]) ==
      if n.kind in g.boundaries then 0
      else DecisionIncrement(g, n) + Operators(n.children) + OwnedDecisions(g, n.children)
  {
    var kept := Kept(n.children, Boundary(g));
    if n.kind in g.boundaries {
      assert Kept([n], Boundary(g)) == [];
    } else {
      assert Kept([n], Boundary(g)) == [n];
      PreorderOne(n, Boundary(g));
      DecisionsSplit(g, [n], Preorder(kept, Boundary(g)));
    }
  }

  // ----- the same as counts of nodes -----

  /** The node is a decision of its language; in Rust four kinds are decisions only under a condition of their own. */
  ghost predicate IsDecision(g: Grammar, n: Node) {
    if g.rust && n.kind in {"match_arm", "match_pattern", "let_declaration", "try_expression"} then
      && (n.kind == "match_arm" ==> n.previousNamed == Some("match_arm"))
      && (n.kind == "match_pattern" ==> n.hasCondition)
      && (n.kind == "let_declaration" ==> n.hasAlternative)
    else
      n.kind in g.decisions
  }

  ghost predicate IsOperator(n: Node) {
    n.text == "&&" || n.text == "||" || n.text == "and" || n.text == "or"
  }

  /** The positions of the decisions in a list of nodes. */
  ghost function DecisionsAt(g: Grammar, nodes: seq<Node>): set<nat> {
    set k: nat | k < |nodes| && IsDecision(g, nodes[k])
  }

  /** The positions of the operators among their children. */
  ghost function OperatorsAt(nodes: seq<Node>): set<(nat, nat)> {
    set k: nat, j: nat | k < |nodes| && j < |nodes[k].children| && IsOperator(nodes[k].children[j]) :: (k, j)
  }

  ghost function OperatorsIn(children: seq<Node>): set<nat> {
    set j: nat | j < |children| && IsOperator(children[j])
  }

  lemma {:induction false} OperatorsCounted(children: seq<Node>)
    ensures Operators(children) == |OperatorsIn(children)|
  {
    if children != [] {
      var n := |children| - 1;
      var front, last := children[..n], children[n..];
      OperatorsCounted(front);
      assert children == front + last;
      OperatorsSplit(front, last);
      assert OperatorsIn(children) == OperatorsIn(front) + if IsOperator(children[n]) then {n} else {};
      assert Operators(last) == if IsOperator(children[n]) then 1 else 0;
    }
  }

  lemma {:induction false} OperatorsSplit(a: seq<Node>, b: seq<Node>)
    ensures Operators(a + b) == Operators(a) + Operators(b)
  {
    if a == [] {
      assert a + b == b;
    } else {
      assert (a + b)[1..] == a[1..] + b;
      OperatorsSplit(a[1..], b);
    }
  }

  ghost function Row(k: nat, columns: set<nat>): set<(nat, nat)> {
    set j | j in columns :: (k, j)
  }

  lemma {:induction false} RowSize(k: nat, columns: set<nat>)
    ensures |Row(k, columns)| == |columns|
  {
    if columns != {} {
      var j :| j in columns;
      RowSize(k, columns - {j});
      assert Row(k, columns) == Row(k, columns - {j}) + {(k, j)};
    }
  }

  /** The decisions of a list are its decision nodes and the operators among their children. */
  lemma {:induction false} DecisionsCounted(g: Grammar, nodes: seq<Node>)
    ensures Decisions(g, nodes) == |DecisionsAt(g, nodes)| + |OperatorsAt(nodes)|
  {
    if nodes == [] {
      assert DecisionsAt(g, nodes) == {} && OperatorsAt(nodes) == {};
    } else {
      var n := |nodes| - 1;
      var front, last := nodes[..n], nodes[n];
      DecisionsCounted(g, front);
      assert nodes == front + [last];
      DecisionsSplit(g, front, [last]);
      LastDecision(g, front, last);
      LastOperators(front, last);
      assert Decisions(g, [last]) == DecisionIncrement(g, last) + Operators(last.children);
    }
  }

  lemma LastDecision(g: Grammar, front: seq<Node>, last: Node)
    ensures |DecisionsAt(g, front + [last])| == |DecisionsAt(g, front)| + DecisionIncrement(g, last)
  {
    var more := if IsDecision(g, last) then {|front|} else {};
    assert DecisionsAt(g, front + [last]) == DecisionsAt(g, front) + more;
  }

  lemma LastOperators(front: seq<Node>, last: Node)
    ensures |OperatorsAt(front + [last])| == |OperatorsAt(front)| + Operators(last.children)
  {
    var columns := OperatorsIn(last.children);
    OperatorsCounted(last.children);
    RowSize(|front|, columns);
    assert OperatorsAt(front + [last]) == OperatorsAt(front) + Row(|front|, columns);
    assert OperatorsAt(front) !! Row(|front|, columns);
  }

  /** One more than the decisions of the owned nodes below the root, saturating, whatever order the stack gives. */
  method Complexity(g: Grammar, root: Node) returns (total: nat)
    ensures total == SaturatingAdd(1, Decisions(g, Preorder([root], Boundary(g))[1..]))
    ensures var owned := Preorder([root], Boundary(g))[1..];
            var count := 1 + |DecisionsAt(g, owned)| + |OperatorsAt(owned)|;
            total == if count <= U32_MAX then count else U32_MAX
  {
    total := 1;
    var stack := root.children;
    ghost var raw: nat := 1;
    while stack != []
      invariant total == SaturatingAdd(raw, 0)
      invariant raw + OwnedDecisions(g, stack) == 1 + OwnedDecisions(g, root.children)
      decreases Size(stack)
    {
      var node := stack[|stack| - 1];
      var rest := stack[..|stack| - 1];
      assert stack == rest + [node];
      Pop(rest, node);
      OwnedSplit(g, rest, [node]);
      OwnedNode(g, node);
      stack := rest;
      if node.kind in g.boundaries {
        continue;
      }
      total := SaturatingAdd(total, DecisionIncrement(g, node));
      total := SaturatingAdd(total, Operators(node.children));
      raw := raw + DecisionIncrement(g, node) + Operators(node.children);
      stack := rest + node.children;
      OwnedSplit(g, rest, node.children);
      SizeSplit(rest, node.children);
    }
    PreorderOne(root, Boundary(g));
    DecisionsCounted(g, Preorder([root], Boundary(g))[1..]);
  }

  // ----- nesting depth -----

  /** A chain of nodes from a child list down, each a child of the one before, none a function boundary. */
  ghost predicate OwnedChain(g: Grammar, children: seq<Node>, chain: seq<Node>) {
    && chain != []
    && chain[0] in children
    && chain[0].kind !in g.boundaries
    && (|chain| > 1 ==> OwnedChain(g, chain[0].children, chain[1..]))
  }

  function NestingOf(g: Grammar, n: Node): nat {
    if n.kind in g.nestings then 1 else 0
  }

  ghost function NestingCount(g: Grammar, chain: seq<Node>): nat {
    if chain == [] then 0 else NestingOf(g, chain[0]) + NestingCount(g, chain[1..])
  }

  /** No owned chain has more nesting nodes than `bound`. */
  ghost predicate Bounds(g: Grammar, children: seq<Node>, bound: nat) {
    forall chain :: OwnedChain(g, children, chain) ==> NestingCount(g, chain) <= bound
  }

  ghost predicate Attains(g: Grammar, children: seq<Node>, depth: nat) {
    depth == 0 || exists chain :: OwnedChain(g, children, chain) && NestingCount(g, chain) == depth
  }

  /** The deepest nesting below a child list. */
  ghost function Deepest(g: Grammar, children: seq<Node>): (depth: nat)
    decreases Size(children)
  {
    if children == [] then
      0
    else
      var head := children[0];
      Max(if head.kind in g.boundaries then 0 else NestingOf(g, head) + Deepest(g, head.children),
          Deepest(g, children[1..]))
  }

  lemma {:induction false} DeepestBounds(g: Grammar, children: seq<Node>, chain: seq<Node>)
    requires OwnedChain(g, children, chain)
    ensures NestingCount(g, chain) <= Deepest(g, children)
    decreases Size(children)
  {
    var head := children[0];
    if chain[0] == head {
      if |chain| > 1 {
        DeepestBounds(g, head.children, chain[1..]);
      }
    } else {
      assert chain[0] in children[1..];
      DeepestBounds(g, children[1..], chain);
    }
  }

  lemma {:induction false} DeepestAttained(g: Grammar, children: seq<Node>) returns (chain: seq<Node>)
    ensures Deepest(g, children) > 0 ==>
      OwnedChain(g, children, chain) && NestingCount(g, chain) == Deepest(g, children)
    decreases Size(children)
  {
    chain := [];
    if children != [] {
      var head := children[0];
      var here := if head.kind in g.boundaries then 0 else NestingOf(g, head) + Deepest(g, head.children);
      if Deepest(g, children[1..]) > here {
        chain := DeepestAttained(g, children[1..]);
      } else if head.kind !in g.boundaries {
        var below := DeepestAttained(g, head.children);
        chain := [head] + if Deepest(g, head.children) > 0 then below else [];
        assert chain[1..] == if Deepest(g, head.children) > 0 then below else [];
      }
    }
  }

  lemma {:induction false} DeepestSplit(g: Grammar, a: seq<Node>, b: seq<Node>)
    ensures Deepest(g, a + b) == Max(Deepest(g, a), Deepest(g, b))
    decreases |a|
  {
    if a == [] {
      assert a + b == b;
    } else {
      assert (a + b)[1..] == a[1..] + b;
      DeepestSplit(g, a[1..], b);
    }
  }

  /** What is still to come from a stack of nodes paired with the depth above them. */
  ghost function Remaining(g: Grammar, stack: seq<(Node, nat)>): nat {
    if stack == [] then
      0
    else
      var (node, above) := stack[0];
      Max(if node.kind in g.boundaries then 0 else SaturatingAdd(above, NestingOf(g, node) + Deepest(g, node.children)),
          Remaining(g, stack[1..]))
  }

  function Nodes(stack: seq<(Node, nat)>): (r: seq<Node>)
    ensures |r| == |stack| && forall i :: 0 <= i < |stack| ==> r[i] == stack[i].0
  {
    seq(|stack|, i requires 0 <= i < |stack| => stack[i].0)
  }

  function At(children: seq<Node>, depth: nat): (r: seq<(Node, nat)>)
    ensures Nodes(r) == children
  {
    seq(|children|, i requires 0 <= i < |children| => (children[i], depth))
  }

  lemma {:induction false} RemainingSplit(g: Grammar, a: seq<(Node, nat)>, b: seq<(Node, nat)>)
    ensures Remaining(g, a + b) == Max(Remaining(g, a), Remaining(g, b))
  {
    if a == [] {
      assert a + b == b;
    } else {
      assert (a + b)[1..] == a[1..] + b;
      RemainingSplit(g, a[1..], b);
    }
  }

  lemma {:induction false} RemainingAt(g: Grammar, children: seq<Node>, depth: nat)
    requires depth <= U32_MAX
    ensures Max(depth, Remaining(g, At(children, depth))) == SaturatingAdd(depth, Deepest(g, children))
  {
    if children != [] {
      assert At(children, depth)[1..] == At(children[1..], depth);
      RemainingAt(g, children[1..], depth);
    }
  }

  lemma NestingStepSizes(rest: seq<(Node, nat)>, node: Node, above: nat, depth: nat)
    ensures Size(Nodes(rest + [(node, above)])) == 1 + Size(Nodes(rest)) + Size(node.children)
    ensures Size(Nodes(rest + At(node.children, depth))) == Size(Nodes(rest)) + Size(node.children)
  {
    assert Nodes(rest + [(node, above)]) == Nodes(rest) + [node];
    Pop(Nodes(rest), node);
    assert Nodes(rest + At(node.children, depth)) == Nodes(rest) + node.children;
    SizeSplit(Nodes(rest), node.children);
  }

  lemma NestingStep(g: Grammar, rest: seq<(Node, nat)>, node: Node, above: nat)
    requires above <= U32_MAX
    ensures var depth := SaturatingAdd(above, NestingOf(g, node));
            var pushed := At(node.children, depth);
            && Size(Nodes(rest + [(node, above)])) == 1 + Size(Nodes(rest)) + Size(node.children)
            && Size(Nodes(rest + pushed)) == Size(Nodes(rest)) + Size(node.children)
            && (Remaining(g, rest + [(node, above)])
             == if node.kind in g.boundaries then Remaining(g, rest) else Max(depth, Remaining(g, rest + pushed)))
  {
    var depth := SaturatingAdd(above, NestingOf(g, node));
    var pushed := At(node.children, depth);
    NestingStepSizes(rest, node, above, depth);
    RemainingSplit(g, rest, [(node, above)]);
    RemainingSplit(g, rest, pushed);
    RemainingAt(g, node.children, depth);
    assert Remaining(g, [(node, above)]) ==
      if node.kind in g.boundaries then 0 else SaturatingAdd(above, NestingOf(g, node) + Deepest(g, node.children));
  }

  /** The greatest number of nesting nodes on any owned chain, saturating: no chain exceeds it, and one attains it. */
  method NestingDepth(g: Grammar, root: Node) returns (maximum: nat)
    ensures exists depth :: (Bounds(g, root.children, depth) && Attains(g, root.children, depth)
                             && maximum == SaturatingAdd(depth, 0))
  {
    maximum := 0;
    var stack := At(root.children, 0);
    RemainingAt(g, root.children, 0);
    while stack != []
      invariant Max(maximum, Remaining(g, stack)) == SaturatingAdd(0, Deepest(g, root.children))
      invariant forall i :: 0 <= i < |stack| ==> stack[i].1 <= U32_MAX
      decreases Size(Nodes(stack))
    {
      var (node, above) := stack[|stack| - 1];
      var rest := stack[..|stack| - 1];
      assert stack == rest + [(node, above)];
      NestingStep(g, rest, node, above);
      stack := rest;
      if node.kind in g.boundaries {
        continue;
      }
      var depth := SaturatingAdd(above, NestingOf(g, node));
      maximum := Max(maximum, depth);
      stack := rest + At(node.children, depth);
    }
    forall chain | OwnedChain(g, root.children, chain)
      ensures NestingCount(g, chain) <= Deepest(g, root.children)
    {
      DeepestBounds(g, root.children, chain);
    }
    ghost var witnessed := DeepestAttained(g, root.children);
    assert Bounds(g, root.children, Deepest(g, root.children)) && Attains(g, root.children, Deepest(g, root.children));
  }
}
