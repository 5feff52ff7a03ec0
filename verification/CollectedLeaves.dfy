// Which comparisons the bit-sliced compiler collects, and in which order: the ends of the paths from
// the root that lead through AND nodes only, left to right.
module CollectedLeaves {
  import opened Options
  import opened Ir
  import opened SlicedCompiler

  /** One step to the left (false) or to the right (true) at each AND node. */
  type Path = seq<bool>

  /** The node at the end of a path, if every node on the way is an AND. */
  function End(nodes: seq<Node>, p: Option<nat>, path: Path): Option<nat>
    requires WellBuilt(nodes) && Below(p, |nodes|)
    decreases |path|
  {
    if path == [] || p.None? then p
    else
      assert NodeOk(nodes[p.value], p.value);
      var n := nodes[p.value];
      if n.kind != AND then None else End(nodes, if path[0] then n.right else n.left, path[1..])
  }

  /** The path leads to comparison j. */
  predicate LeadsTo(nodes: seq<Node>, p: Option<nat>, path: Path, j: nat)
    requires WellBuilt(nodes) && Below(p, |nodes|)
  {
    j < |nodes| && End(nodes, p, path) == Some(j) && nodes[j].kind in {GT, LT, EQ}
  }

  /** Where two paths part, the first goes left. */
  predicate LeftOf(a: Path, b: Path)
    decreases |a|
  {
    a != [] && b != [] && if a[0] == b[0] then LeftOf(a[1..], b[1..]) else !a[0]
  }

  ghost predicate LeftToRight(paths: seq<Path>) {
    forall k, l | 0 <= k < l < |paths| :: LeftOf(paths[k], paths[l])
  }

  function Prefixed(step: bool, paths: seq<Path>): (longer: seq<Path>)
    ensures |longer| == |paths| && forall k | 0 <= k < |paths| :: longer[k] == [step] + paths[k]
  {
    seq(|paths|, k requires 0 <= k < |paths| => [step] + paths[k])
  }

  /** All paths to comparisons, left to right. */
  function LeafPaths(nodes: seq<Node>, p: Option<nat>): (paths: seq<Path>)
    requires WellBuilt(nodes) && Below(p, |nodes|)
    decreases if p.Some? then p.value + 1 else 0
  {
    if p.None? then []
    else
      assert NodeOk(nodes[p.value], p.value);
      var n := nodes[p.value];
      if n.kind in {GT, LT, EQ} then [[]]
      else if n.kind == AND then Prefixed(false, LeafPaths(nodes, n.left)) + Prefixed(true, LeafPaths(nodes, n.right))
      else []
  }

  /** The k-th path leads to the k-th collected comparison. */
  lemma {:induction false} PathsLead(nodes: seq<Node>, p: Option<nat>)
    requires WellBuilt(nodes) && Below(p, |nodes|)
    ensures |LeafPaths(nodes, p)| == |Leaves(nodes, p)|
    ensures forall k | 0 <= k < |Leaves(nodes, p)| :: LeadsTo(nodes, p, LeafPaths(nodes, p)[k], Leaves(nodes, p)[k])
    decreases if p.Some? then p.value + 1 else 0
  {
    if p.Some? {
      assert NodeOk(nodes[p.value], p.value);
      var n := nodes[p.value];
      if n.kind == AND {
        hide LeadsTo;
        PathsLead(nodes, n.left);
        PathsLead(nodes, n.right);
        SideLeads(nodes, p, false, LeafPaths(nodes, n.left), Leaves(nodes, n.left));
        SideLeads(nodes, p, true, LeafPaths(nodes, n.right), Leaves(nodes, n.right));
      }
    }
  }

  /** The paths of one side of an AND, lengthened by the step to it. */
  lemma SideLeads(nodes: seq<Node>, p: Option<nat>, step: bool, paths: seq<Path>, leaves: seq<nat>)
    requires WellBuilt(nodes) && p.Some? && p.value < |nodes| && nodes[p.value].kind == AND && |paths| == |leaves|
    requires NodeOk(nodes[p.value], p.value)
    requires var q := if step then nodes[p.value].right else nodes[p.value].left;
             forall k | 0 <= k < |leaves| :: LeadsTo(nodes, q, paths[k], leaves[k])
    ensures forall k | 0 <= k < |leaves| :: LeadsTo(nodes, p, Prefixed(step, paths)[k], leaves[k])
  {
    hide LeadsTo;
    forall k | 0 <= k < |leaves| ensures LeadsTo(nodes, p, Prefixed(step, paths)[k], leaves[k]) {
      StepLeads(nodes, p, step, paths[k], leaves[k]);
    }
  }

  /** A path below an AND, lengthened by the step to it. */
  lemma StepLeads(nodes: seq<Node>, p: Option<nat>, step: bool, path: Path, j: nat)
    requires WellBuilt(nodes) && p.Some? && p.value < |nodes| && nodes[p.value].kind == AND
    ensures NodeOk(nodes[p.value], p.value)
    ensures LeadsTo(nodes, p, [step] + path, j)
            == LeadsTo(nodes, if step then nodes[p.value].right else nodes[p.value].left, path, j)
  {
    assert NodeOk(nodes[p.value], p.value);
    assert ([step] + path)[1..] == path;
  }

  /** No path to a comparison is left out. */
  lemma {:induction false} PathListed(nodes: seq<Node>, p: Option<nat>, path: Path, j: nat)
    requires WellBuilt(nodes) && Below(p, |nodes|) && LeadsTo(nodes, p, path, j)
    ensures path in LeafPaths(nodes, p)
    decreases |path|
  {
    assert NodeOk(nodes[p.value], p.value);
    var n := nodes[p.value];
    if path == [] {
      assert LeafPaths(nodes, p) == [[]];
    } else {
      var q, rest := if path[0] then n.right else n.left, path[1..];
      assert path == [path[0]] + rest;
      StepLeads(nodes, p, path[0], rest, j);
      PathListed(nodes, q, rest, j);
      var paths := LeafPaths(nodes, q);
      var k :| 0 <= k < |paths| && paths[k] == rest;
      assert Prefixed(path[0], paths)[k] == path;
      assert path in Prefixed(path[0], paths);
    }
  }

  lemma PrefixedLeftToRight(step: bool, paths: seq<Path>)
    requires LeftToRight(paths)
    ensures LeftToRight(Prefixed(step, paths))
  {
    var longer := Prefixed(step, paths);
    forall k, l | 0 <= k < l < |longer| ensures LeftOf(longer[k], longer[l]) {
      assert ([step] + paths[k])[1..] == paths[k] && ([step] + paths[l])[1..] == paths[l];
    }
  }

  lemma {:induction false} PathsLeftToRight(nodes: seq<Node>, p: Option<nat>)
    requires WellBuilt(nodes) && Below(p, |nodes|)
    ensures LeftToRight(LeafPaths(nodes, p))
    decreases if p.Some? then p.value + 1 else 0
  {
    if p.Some? {
      assert NodeOk(nodes[p.value], p.value);
      var n := nodes[p.value];
      if n.kind == AND {
        PathsLeftToRight(nodes, n.left);
        PathsLeftToRight(nodes, n.right);
        PrefixedLeftToRight(false, LeafPaths(nodes, n.left));
        PrefixedLeftToRight(true, LeafPaths(nodes, n.right));
      }
    }
  }

  /** The collected comparisons, for every graph: they are the ends of all paths through AND nodes to a
      comparison, one for each path, from left to right. */
  lemma LeavesAreEnds(nodes: seq<Node>, root: nat) returns (paths: seq<Path>)
    requires WellBuilt(nodes) && root < |nodes|
    ensures |paths| == |RootLeaves(nodes, root)| && LeftToRight(paths)
    ensures forall k | 0 <= k < |paths| :: LeadsTo(nodes, Some(root), paths[k], RootLeaves(nodes, root)[k])
    ensures forall path, j | LeadsTo(nodes, Some(root), path, j) :: path in paths
  {
    paths := LeafPaths(nodes, Some(root));
    PathsLead(nodes, Some(root));
    PathsLeftToRight(nodes, Some(root));
    forall path, j | LeadsTo(nodes, Some(root), path, j) ensures path in paths {
      PathListed(nodes, Some(root), path, j);
    }
  }

  /** A node is collected if and only if it is a comparison that some path through AND nodes reaches. */
  lemma CollectedIff(nodes: seq<Node>, root: nat, j: nat)
    requires WellBuilt(nodes) && root < |nodes|
    ensures j in RootLeaves(nodes, root) <==> exists path :: LeadsTo(nodes, Some(root), path, j)
  {
    var paths := LeavesAreEnds(nodes, root);
    var leaves := RootLeaves(nodes, root);
    if j in leaves {
      var k :| 0 <= k < |leaves| && leaves[k] == j;
      assert LeadsTo(nodes, Some(root), paths[k], j);
    }
    if path :| LeadsTo(nodes, Some(root), path, j) {
      var k :| 0 <= k < |paths| && paths[k] == path;
      assert LeadsTo(nodes, Some(root), paths[k], leaves[k]);
    }
  }
}
