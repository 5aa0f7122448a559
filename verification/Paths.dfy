/**
 Collapsing `.` and `..` in the components of a report path (crates/analysis-crap/src/coverage.rs).
 The reference meaning of a component list is the walk it describes from a directory.
 */
module Paths {

  function CollapseStep(stack: seq<string>, component: string, relative: bool): seq<string> {
    if component == "" || component == "." then
      stack
    else if component == ".." then
      if stack != [] && stack[|stack| - 1] != ".." then stack[..|stack| - 1]
      else if relative then stack + [component]
      else stack
    else
      stack + [component]
  }

  ghost function CollapseFrom(stack: seq<string>, components: seq<string>, relative: bool): seq<string>
    decreases |components|
  {
    if components == [] then
      stack
    else
      CollapseFrom(CollapseStep(stack, components[0], relative), components[1..], relative)
  }

  ghost function Collapse(components: seq<string>, relative: bool): seq<string> {
    CollapseFrom([], components, relative)
  }

  method CollapsePathComponents(parts: seq<string>, relative: bool) returns (components: seq<string>)
    ensures components == Collapse(parts, relative)
    ensures Normal(components, relative)
  {
    components := [];
    for i := 0 to |parts|
      invariant CollapseFrom(components, parts[i..], relative) == Collapse(parts, relative)
      invariant Normal(components, relative)
    {
      assert parts[i..][1..] == parts[i + 1..];
      match parts[i] {
        case "" =>
        case "." =>
        case ".." =>
          if components != [] && components[|components| - 1] != ".." {
            components := components[..|components| - 1];
          } else if relative {
            components := components + [".."];
          }
        case name =>
          components := components + [name];
      }
    }
  }

  /** No empty or `.` component; `..` only as a leading run, and only in a relative path. */
  ghost predicate Normal(components: seq<string>, relative: bool) {
    && (forall i :: 0 <= i < |components| ==> components[i] != "" && components[i] != ".")
    && (forall i :: 0 <= i < |components| && components[i] == ".." ==>
          relative && forall j :: 0 <= j < i ==> components[j] == "..")
  }

  lemma {:induction false} CollapseFromNormal(stack: seq<string>, components: seq<string>, relative: bool)
    requires Normal(stack, relative)
    ensures Normal(CollapseFrom(stack, components, relative), relative)
    decreases |components|
  {
    if components != [] {
      CollapseFromNormal(CollapseStep(stack, components[0], relative), components[1..], relative);
    }
  }

  lemma {:induction false} CollapseFromSplit(stack: seq<string>, a: seq<string>, b: seq<string>, relative: bool)
    ensures CollapseFrom(stack, a + b, relative) == CollapseFrom(CollapseFrom(stack, a, relative), b, relative)
    decreases |a|
  {
    if a == [] {
      assert a + b == b;
    } else {
      assert (a + b)[1..] == a[1..] + b;
      CollapseFromSplit(CollapseStep(stack, a[0], relative), a[1..], b, relative);
    }
  }

  lemma {:induction false} NormalUnchanged(stack: seq<string>, rest: seq<string>, relative: bool)
    requires Normal(stack + rest, relative)
    ensures CollapseFrom(stack, rest, relative) == stack + rest
    decreases |rest|
  {
    if rest != [] {
      assert (stack + rest)[|stack|] == rest[0];
      assert rest[0] == ".." && stack != [] ==> (stack + rest)[|stack| - 1] == "..";
      assert stack + rest == (stack + [rest[0]]) + rest[1..];
      NormalUnchanged(stack + [rest[0]], rest[1..], relative);
    }
  }

  /** Collapsing is idempotent: it yields normal lists, and those are its fixed points. */
  lemma CollapseFixedPoints(components: seq<string>, relative: bool)
    ensures Normal(Collapse(components, relative), relative)
    ensures Collapse(Collapse(components, relative), relative) == Collapse(components, relative)
    ensures Collapse(components, relative) == components <==> Normal(components, relative)
  {
    var r := Collapse(components, relative);
    CollapseFromNormal([], components, relative);
    assert [] + r == r && [] + components == components;
    NormalUnchanged([], r, relative);
    if Normal(components, relative) {
      NormalUnchanged([], components, relative);
    }
  }

  /** A prefix may be collapsed first. */
  lemma CollapseConcat(a: seq<string>, b: seq<string>, relative: bool)
    ensures Collapse(a + b, relative) == Collapse(Collapse(a, relative) + b, relative)
  {
    CollapseFromSplit([], a, b, relative);
    CollapseFromSplit([], Collapse(a, relative), b, relative);
    CollapseFixedPoints(a, relative);
  }

  // ----- the meaning of a path -----

  /** One component followed from a directory; the parent of the root is the root. */
  ghost function WalkStep(directory: seq<string>, component: string): seq<string> {
    if component == "" || component == "." then directory
    else if component == ".." then (if directory == [] then [] else directory[..|directory| - 1])
    else directory + [component]
  }

  ghost function Walk(directory: seq<string>, components: seq<string>): seq<string>
    decreases |components|
  {
    if components == [] then directory else Walk(WalkStep(directory, components[0]), components[1..])
  }

  lemma {:induction false} WalkSplit(directory: seq<string>, a: seq<string>, b: seq<string>)
    ensures Walk(directory, a + b) == Walk(Walk(directory, a), b)
    decreases |a|
  {
    if a == [] {
      assert a + b == b;
    } else {
      assert (a + b)[1..] == a[1..] + b;
      WalkSplit(WalkStep(directory, a[0]), a[1..], b);
    }
  }

  lemma WalkCollapseStep(directory: seq<string>, stack: seq<string>, component: string, relative: bool)
    requires Normal(stack, relative)
    requires relative || directory == []
    ensures Walk(directory, CollapseStep(stack, component, relative)) == WalkStep(Walk(directory, stack), component)
  {
    WalkSplit(directory, stack, [component]);
    if stack != [] {
      var n := |stack| - 1;
      assert stack == stack[..n] + [stack[n]];
      WalkSplit(directory, stack[..n], [stack[n]]);
    }
  }

  lemma {:induction false} WalkCollapseFrom(
      directory: seq<string>, stack: seq<string>, components: seq<string>, relative: bool)
    requires Normal(stack, relative)
    requires relative || directory == []
    ensures Walk(directory, CollapseFrom(stack, components, relative)) == Walk(Walk(directory, stack), components)
    decreases |components|
  {
    if components != [] {
      WalkCollapseStep(directory, stack, components[0], relative);
      WalkCollapseFrom(directory, CollapseStep(stack, components[0], relative), components[1..], relative);
    }
  }

  /** The collapsed path leads where the path leads: from every directory, or from the root if absolute. */
  lemma CollapsePreservesMeaning(directory: seq<string>, components: seq<string>, relative: bool)
    requires relative || directory == []
    ensures Walk(directory, Collapse(components, relative)) == Walk(directory, components)
  {
    WalkCollapseFrom(directory, [], components, relative);
  }

  /** The number of leading parent steps of a normal list. */
  ghost function Ups(components: seq<string>): (k: nat)
    ensures k <= |components|
    ensures forall i :: 0 <= i < k ==> components[i] == ".."
    ensures k < |components| ==> components[k] != ".."
  {
    if components != [] && components[0] == ".." then 1 + Ups(components[1..]) else 0
  }

  /** Where a normal list leads from a directory deep enough. */
  lemma {:induction false} WalkNormal(directory: seq<string>, components: seq<string>, relative: bool)
    requires Normal(components, relative) && Ups(components) <= |directory|
    ensures (Walk(directory, components)
          == directory[..|directory| - Ups(components)] + components[Ups(components)..])
    decreases |components|
  {
    if components != [] {
      var next := WalkStep(directory, components[0]);
      assert forall i :: 0 <= i < |components| - 1 ==> components[1..][i] == components[i + 1];
      WalkNormal(next, components[1..], relative);
      if Ups(components) == 0 {
        assert Ups(components[1..]) == 0;
      }
    }
  }

  lemma TailsDiffer(a: seq<string>, b: seq<string>)
    requires a != b && Ups(a) == Ups(b)
    ensures a[Ups(a)..] != b[Ups(b)..]
  {
    var k := Ups(a);
    assert a == a[..k] + a[k..] && b == b[..k] + b[k..];
    assert a[..k] == b[..k];
  }

  /** Different normal lists lead to different places from some directory. */
  lemma NormalListsDiffer(a: seq<string>, b: seq<string>) returns (directory: seq<string>)
    requires Normal(a, true) && Normal(b, true) && a != b && Ups(a) <= Ups(b)
    ensures Walk(directory, a) != Walk(directory, b)
  {
    var name := if Ups(b) < |b| then b[Ups(b)] + "x" else "x";
    directory := seq(Ups(b), i => name);
    WalkNormal(directory, a, true);
    WalkNormal(directory, b, true);
    assert Walk(directory, b) == b[Ups(b)..];
    if Ups(a) == Ups(b) {
      assert Walk(directory, a) == a[Ups(a)..];
      TailsDiffer(a, b);
    } else {
      assert Walk(directory, a)[0] == name;
      assert Ups(b) < |b| ==> |b[Ups(b)]| != |name|;
    }
  }

  /**
   The collapsed list is canonical: two relative paths collapse to the same list exactly when they lead to the
   same place from every directory, and two absolute paths exactly when they lead to the same place.
   */
  lemma CollapseCanonical(a: seq<string>, b: seq<string>)
    ensures Collapse(a, true) == Collapse(b, true) <==> forall d :: Walk(d, a) == Walk(d, b)
    ensures Collapse(a, false) == Collapse(b, false) <==> Walk([], a) == Walk([], b)
  {
    var x, y := Collapse(a, true), Collapse(b, true);
    CollapseFixedPoints(a, true);
    CollapseFixedPoints(b, true);
    forall d
      ensures Walk(d, x) == Walk(d, a) && Walk(d, y) == Walk(d, b)
    {
      CollapsePreservesMeaning(d, a, true);
      CollapsePreservesMeaning(d, b, true);
    }
    if x != y {
      var d;
      if Ups(x) <= Ups(y) {
        d := NormalListsDiffer(x, y);
      } else {
        d := NormalListsDiffer(y, x);
      }
      assert Walk(d, a) != Walk(d, b);
    }
    AbsoluteIsWalk(a);
    AbsoluteIsWalk(b);
  }

  /** Collapsing an absolute path is walking it from the root. */
  lemma AbsoluteIsWalk(components: seq<string>)
    ensures Collapse(components, false) == Walk([], components)
  {
    var r := Collapse(components, false);
    CollapseFixedPoints(components, false);
    CollapsePreservesMeaning([], components, false);
    WalkNormal([], r, false);
    assert Ups(r) == 0;
    assert [] + r == r;
  }
}
