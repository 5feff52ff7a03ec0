// The compiler's first pass: a depth-first walk that lists every node below a root once,
// children before parents, and sorts them by kind.
module Analyzer {
  import opened Options
  import opened Ir

  /** The list after a walk from p, given what was listed before. */
  function Visit(nodes: seq<Node>, seen: seq<nat>, p: Option<nat>): seq<nat>
    requires WellBuilt(nodes) && Below(p, |nodes|)
    decreases if p.Some? then p.value + 1 else 0
  {
    if p.None? || p.value in seen then seen
    else
      assert NodeOk(nodes[p.value], p.value);
      var n := nodes[p.value];
      Visit(nodes, Visit(nodes, Visit(nodes, seen, n.left), n.right), n.cond) + [p.value]
  }

  /** j is i or lies below it. */
  predicate Reach(nodes: seq<Node>, i: nat, j: nat)
    requires WellBuilt(nodes) && i < |nodes|
    decreases i
  {
    assert NodeOk(nodes[i], i);
    var n := nodes[i];
    i == j || (n.left.Some? && Reach(nodes, n.left.value, j)) || (n.right.Some? && Reach(nodes, n.right.value, j))
    || (n.cond.Some? && Reach(nodes, n.cond.value, j))
  }

  ghost predicate InList(p: Option<nat>, list: seq<nat>) {
    p.Some? ==> p.value in list
  }

  /** Every listed node's operands are listed before it, and no node is listed twice. */
  ghost predicate PostOrder(nodes: seq<Node>, list: seq<nat>) {
    (forall k | 0 <= k < |list| :: OperandsBefore(nodes, list, k))
    && Distinct(list)
  }

  ghost predicate Distinct<T>(list: seq<T>) {
    forall k, l | 0 <= k < l < |list| :: list[k] != list[l]
  }

  ghost predicate OperandsBefore(nodes: seq<Node>, list: seq<nat>, k: nat)
    requires k < |list|
  {
    list[k] < |nodes| && InList(nodes[list[k]].left, list[..k]) && InList(nodes[list[k]].right, list[..k])
    && InList(nodes[list[k]].cond, list[..k])
  }

  lemma {:induction false} ListedIsClosed(nodes: seq<Node>, list: seq<nat>, i: nat, j: nat)
    requires WellBuilt(nodes) && i < |nodes| && PostOrder(nodes, list)
    requires i in list && Reach(nodes, i, j)
    ensures j in list
    decreases i
  {
    assert NodeOk(nodes[i], i);
    var k :| 0 <= k < |list| && list[k] == i;
    assert OperandsBefore(nodes, list, k);
    var n := nodes[i];
    if i == j {
    } else if n.left.Some? && Reach(nodes, n.left.value, j) {
      ListedIsClosed(nodes, list, n.left.value, j);
    } else if n.right.Some? && Reach(nodes, n.right.value, j) {
      ListedIsClosed(nodes, list, n.right.value, j);
    } else {
      ListedIsClosed(nodes, list, n.cond.value, j);
    }
  }

  ghost predicate LiesBelow(nodes: seq<Node>, p: Option<nat>, j: nat)
    requires WellBuilt(nodes) && Below(p, |nodes|)
  {
    p.Some? && Reach(nodes, p.value, j)
  }

  /** The walk keeps the list in post-order and adds exactly the nodes below p, p itself last. */
  lemma {:induction false} VisitLists(nodes: seq<Node>, seen: seq<nat>, p: Option<nat>)
    requires WellBuilt(nodes) && Below(p, |nodes|) && PostOrder(nodes, seen)
    ensures var list := Visit(nodes, seen, p);
            PostOrder(nodes, list) && seen <= list
            && (forall j :: j in list <==> j in seen || LiesBelow(nodes, p, j))
            && (p.Some? && p.value !in seen ==> list != [] && list[|list| - 1] == p.value)
            && (p.Some? ==> forall j | j in list && j !in seen :: j <= p.value)
    decreases if p.Some? then p.value + 1 else 0
  {
    hide Reach;
    if p.None? {
    } else if p.value in seen {
      forall j | Reach(nodes, p.value, j) ensures j in seen { ListedIsClosed(nodes, seen, p.value, j); }
    } else {
      assert NodeOk(nodes[p.value], p.value);
      var n := nodes[p.value];
      var a := Visit(nodes, seen, n.left);
      var b := Visit(nodes, a, n.right);
      var c := Visit(nodes, b, n.cond);
      VisitLists(nodes, seen, n.left);
      VisitLists(nodes, a, n.right);
      VisitLists(nodes, b, n.cond);
      AppendNode(nodes, c, p.value);
      assert p.value !in c;
      forall j ensures j in c + [p.value] <==> j in seen || LiesBelow(nodes, p, j) { ReachIs(nodes, p.value, j); }
    }
  }

  lemma ReachIs(nodes: seq<Node>, i: nat, j: nat)
    requires WellBuilt(nodes) && i < |nodes|
    ensures NodeOk(nodes[i], i)
    ensures Reach(nodes, i, j) <==>
            i == j || LiesBelow(nodes, nodes[i].left, j) || LiesBelow(nodes, nodes[i].right, j)
                || LiesBelow(nodes, nodes[i].cond, j)
  {
    assert NodeOk(nodes[i], i);
  }

  lemma AppendNode(nodes: seq<Node>, list: seq<nat>, i: nat)
    requires PostOrder(nodes, list) && i < |nodes| && i !in list
    requires InList(nodes[i].left, list) && InList(nodes[i].right, list) && InList(nodes[i].cond, list)
    ensures PostOrder(nodes, list + [i])
  {
    var longer := list + [i];
    forall k | 0 <= k < |longer| ensures OperandsBefore(nodes, longer, k) {
      if k < |list| {
        assert OperandsBefore(nodes, list, k);
        assert longer[..k] == list[..k];
      } else {
        assert longer[..k] == list;
      }
    }
  }

  // ----- sorting by kind -----

  ghost predicate InRange(nodes: seq<Node>, list: seq<nat>) {
    forall k | 0 <= k < |list| :: list[k] < |nodes|
  }

  /** The listed nodes of the given kinds, in list order. */
  function OfKind(nodes: seq<Node>, list: seq<nat>, kinds: set<NodeKind>): seq<nat>
    requires InRange(nodes, list)
  {
    if list == [] then []
    else
      var n := |list| - 1;
      OfKind(nodes, list[..n], kinds) + if nodes[list[n]].kind in kinds then [list[n]] else []
  }

  lemma OfKindPush(nodes: seq<Node>, list: seq<nat>, i: nat, kinds: set<NodeKind>)
    requires InRange(nodes, list) && i < |nodes|
    ensures OfKind(nodes, list + [i], kinds) ==
            OfKind(nodes, list, kinds) + if nodes[i].kind in kinds then [i] else []
  {
    assert (list + [i])[..|list|] == list;
  }

  lemma {:induction false} OfKindShort(nodes: seq<Node>, list: seq<nat>, kinds: set<NodeKind>)
    requires InRange(nodes, list)
    ensures |OfKind(nodes, list, kinds)| <= |list|
  {
    if list != [] { OfKindShort(nodes, list[..|list| - 1], kinds); }
  }

  lemma {:induction false} OfKindMembers(nodes: seq<Node>, list: seq<nat>, kinds: set<NodeKind>)
    requires InRange(nodes, list)
    ensures forall i :: i in OfKind(nodes, list, kinds) <==> i in list && nodes[i].kind in kinds
  {
    if list != [] {
      var n := |list| - 1;
      OfKindMembers(nodes, list[..n], kinds);
      assert list == list[..n] + [list[n]];
    }
  }

  lemma {:induction false} OfKindDistinct(nodes: seq<Node>, list: seq<nat>, kinds: set<NodeKind>)
    requires InRange(nodes, list) && Distinct(list)
    ensures Distinct(OfKind(nodes, list, kinds))
  {
    if list != [] {
      var n := |list| - 1;
      OfKindDistinct(nodes, list[..n], kinds);
      OfKindMembers(nodes, list[..n], kinds);
      assert list[n] !in list[..n];
      assert list[n] !in OfKind(nodes, list[..n], kinds);
    }
  }

  const ARITHMETIC: set<NodeKind> := {ADD, SUB, LSL, LSR}

  // ----- the pass -----

  /** The lists by kind and the position map agree with the list of all nodes. */
  ghost predicate Sorted(nodes: seq<Node>, all: seq<nat>, loads: seq<nat>, consts: seq<nat>, arith: seq<nat>,
                         at: map<nat, nat>) {
    InRange(nodes, all)
    && loads == OfKind(nodes, all, {LOAD}) && consts == OfKind(nodes, all, {CONST})
    && arith == OfKind(nodes, all, ARITHMETIC)
    && (forall i :: i in at <==> i in all)
    && forall i | i in at :: at[i] < |all| && all[at[i]] == i
  }

  lemma SortedPush(nodes: seq<Node>, all: seq<nat>, loads: seq<nat>, consts: seq<nat>, arith: seq<nat>, at: map<nat,
                   nat>, i: nat)
    requires Sorted(nodes, all, loads, consts, arith, at) && i < |nodes|
    ensures Sorted(nodes, all + [i],
                   if nodes[i].kind == LOAD then loads + [i] else loads,
                   if nodes[i].kind == CONST then consts + [i] else consts,
                   if nodes[i].kind in ARITHMETIC then arith + [i] else arith,
                   at[i := |all|])
  {
    OfKindPush(nodes, all, i, {LOAD});
    OfKindPush(nodes, all, i, {CONST});
    OfKindPush(nodes, all, i, ARITHMETIC);
    hide OfKind;
  }

  class ExpressionAnalyzer {
    var nodeMap: map<nat, nat>
    var loadNodes: seq<nat>
    var constNodes: seq<nat>
    var arithmeticNodes: seq<nat>
    var allNodes: seq<nat>

    constructor ()
      ensures allNodes == [] && loadNodes == [] && constNodes == [] && arithmeticNodes == [] && nodeMap == map[]
    {
      nodeMap, loadNodes, constNodes, arithmeticNodes, allNodes := map[], [], [], [], [];
    }

    ghost predicate Consistent(nodes: seq<Node>)
      reads this
    {
      Sorted(nodes, allNodes, loadNodes, constNodes, arithmeticNodes, nodeMap)
    }

    /** Lists one node and sorts it by kind. The result kind written is the one its builder wrote. */
    method Record(pool: NodePool, i: nat)
      requires pool.Valid() && i < pool.nextIdx && Consistent(pool.Nodes()) && i !in allNodes
      modifies this, pool.storage
      ensures pool.storage[..] == old(pool.storage[..])
      ensures Consistent(pool.Nodes()) && allNodes == old(allNodes) + [i]
    {
      hide OfKind;
      ghost var nodes := pool.Nodes();
      var node := pool.storage[i];
      assert node == nodes[i] && NodeOk(nodes[i], i);
      pool.storage[i] := node.(resultKind := ResultOf(node.kind));
      assert pool.storage[..] == old(pool.storage[..]);
      assert pool.Nodes() == nodes;
      SortedPush(nodes, allNodes, loadNodes, constNodes, arithmeticNodes, nodeMap, i);
      nodeMap := nodeMap[i := |allNodes|];
      allNodes := allNodes + [i];
      match node.kind {
        case LOAD => loadNodes := loadNodes + [i];
        case CONST => constNodes := constNodes + [i];
        case ADD => arithmeticNodes := arithmeticNodes + [i];
        case SUB => arithmeticNodes := arithmeticNodes + [i];
        case LSL => arithmeticNodes := arithmeticNodes + [i];
        case LSR => arithmeticNodes := arithmeticNodes + [i];
        case _ =>
      }
    }

    /** Walks the graph below p, children first. */
    method Analyze(pool: NodePool, p: Option<nat>)
      requires pool.Valid() && Below(p, pool.nextIdx) && Consistent(pool.Nodes()) && PostOrder(pool.Nodes(), allNodes)
      modifies this, pool.storage
      ensures pool.storage[..] == old(pool.storage[..])
      ensures Consistent(pool.Nodes()) && PostOrder(pool.Nodes(), allNodes)
      ensures allNodes == Visit(pool.Nodes(), old(allNodes), p)
      decreases if p.Some? then p.value + 1 else 0
    {
      if p.None? { return; }
      hide OfKind;
      var i := p.value;
      if i in nodeMap { return; }
      ghost var nodes := pool.Nodes();
      ghost var seen := allNodes;
      var node := pool.storage[i];
      assert NodeOk(nodes[i], i) && node == nodes[i];
      VisitLists(nodes, seen, p);
      VisitLists(nodes, seen, node.left);
      Analyze(pool, node.left);
      assert pool.Nodes() == nodes;
      VisitLists(nodes, allNodes, node.right);
      Analyze(pool, node.right);
      assert pool.Nodes() == nodes;
      VisitLists(nodes, allNodes, node.cond);
      Analyze(pool, node.cond);
      assert pool.Nodes() == nodes && i !in allNodes;
      Record(pool, i);
      assert pool.Nodes() == nodes;
    }
  }

  /** From an empty list the walk lists exactly the nodes below the root, each once, the root last. */
  lemma WalkFromRoot(nodes: seq<Node>, root: nat)
    requires WellBuilt(nodes) && root < |nodes|
    ensures var list := Visit(nodes, [], Some(root));
            PostOrder(nodes, list) && (forall j :: j in list <==> Reach(nodes, root, j))
            && |list| > 0 && list[|list| - 1] == root
  {
    VisitLists(nodes, [], Some(root));
  }

  /** Different numbers below n are at most n. */
  lemma {:induction false} DistinctFits(list: seq<nat>, n: nat)
    requires Distinct(list) && forall k | 0 <= k < |list| :: list[k] < n
    ensures |list| <= n
    decreases n
  {
    if list != [] {
      assert list[0] < n;
      if k :| 0 <= k < |list| && list[k] == n - 1 {
        DistinctFits(list[..k] + list[k + 1..], n - 1);
      } else {
        DistinctFits(list, n - 1);
      }
    }
  }

  /** The nodes below a root in the order the walk lists them. */
  function Order(nodes: seq<Node>, root: nat): (order: seq<nat>)
    requires WellBuilt(nodes) && root < |nodes|
    ensures InRange(nodes, order)
  {
    WalkFromRoot(nodes, root);
    PostOrderInRange(nodes, Visit(nodes, [], Some(root)));
    Visit(nodes, [], Some(root))
  }

  /** The list is no longer than the pool. */
  lemma OrderFits(nodes: seq<Node>, root: nat)
    requires WellBuilt(nodes) && root < |nodes|
    ensures |Order(nodes, root)| <= |nodes|
  {
    WalkFromRoot(nodes, root);
    DistinctFits(Order(nodes, root), |nodes|);
  }

  lemma PostOrderInRange(nodes: seq<Node>, list: seq<nat>)
    requires PostOrder(nodes, list)
    ensures InRange(nodes, list)
  {
    forall k | 0 <= k < |list| ensures list[k] < |nodes| { assert OperandsBefore(nodes, list, k); }
  }

  lemma {:induction false} OfKindInRange(nodes: seq<Node>, list: seq<nat>, kinds: set<NodeKind>)
    requires InRange(nodes, list)
    ensures InRange(nodes, OfKind(nodes, list, kinds))
  {
    if list != [] { OfKindInRange(nodes, list[..|list| - 1], kinds); }
  }

  function Loads(nodes: seq<Node>, root: nat): (loads: seq<nat>)
    requires WellBuilt(nodes) && root < |nodes|
    ensures InRange(nodes, loads)
  {
    OfKindInRange(nodes, Order(nodes, root), {LOAD});
    OfKind(nodes, Order(nodes, root), {LOAD})
  }

  function Arithmetics(nodes: seq<Node>, root: nat): (arith: seq<nat>)
    requires WellBuilt(nodes) && root < |nodes|
    ensures InRange(nodes, arith)
  {
    OfKindInRange(nodes, Order(nodes, root), ARITHMETIC);
    OfKind(nodes, Order(nodes, root), ARITHMETIC)
  }

  /** In a sublist by kind, a node is preceded by exactly the earlier listed nodes of those kinds. */
  lemma {:induction false} OfKindPosition(nodes: seq<Node>, list: seq<nat>, kinds: set<NodeKind>, k: nat)
    requires InRange(nodes, list) && k < |list| && nodes[list[k]].kind in kinds
    ensures var before := OfKind(nodes, list[..k], kinds);
            |before| < |OfKind(nodes, list, kinds)| && OfKind(nodes, list, kinds)[..|before|] == before
            && OfKind(nodes, list, kinds)[|before|] == list[k]
    decreases |list|
  {
    var n := |list| - 1;
    if k < n {
      assert list[..n][..k] == list[..k];
      OfKindPosition(nodes, list[..n], kinds, k);
    }
  }

  /** A fresh pass over everything below a root. */
  method AnalyzeRoot(pool: NodePool, root: nat) returns (order: seq<nat>, loads: seq<nat>, consts: seq<nat>,
                     arith: seq<nat>)
    requires pool.Valid() && root < pool.nextIdx
    modifies pool.storage
    ensures pool.storage[..] == old(pool.storage[..])
    ensures pool.Valid() && order == Order(pool.Nodes(), root) && loads == Loads(pool.Nodes(), root)
    ensures consts == OfKind(pool.Nodes(), order, {CONST}) && arith == Arithmetics(pool.Nodes(), root)
  {
    var analyzer := new ExpressionAnalyzer();
    ghost var nodes := pool.Nodes();
    analyzer.Analyze(pool, Some(root));
    assert pool.Nodes() == nodes;
    return analyzer.allNodes, analyzer.loadNodes, analyzer.constNodes, analyzer.arithmeticNodes;
  }

  // ----- the walk depends on the graph only, not on metadata -----

  lemma {:induction false} SameWalk(a: seq<Node>, b: seq<Node>, seen: seq<nat>, p: Option<nat>)
    requires SameGraph(a, b) && WellBuilt(a) && WellBuilt(b) && Below(p, |a|)
    ensures Visit(a, seen, p) == Visit(b, seen, p)
    decreases if p.Some? then p.value + 1 else 0
  {
    if p.Some? && p.value !in seen {
      assert NodeOk(a[p.value], p.value) && SameNode(a[p.value], b[p.value]);
      var n := a[p.value];
      SameWalk(a, b, seen, n.left);
      SameWalk(a, b, Visit(a, seen, n.left), n.right);
      SameWalk(a, b, Visit(a, Visit(a, seen, n.left), n.right), n.cond);
    }
  }

  lemma {:induction false} SameKinds(a: seq<Node>, b: seq<Node>, list: seq<nat>, kinds: set<NodeKind>)
    requires SameGraph(a, b) && InRange(a, list)
    ensures OfKind(a, list, kinds) == OfKind(b, list, kinds)
  {
    if list != [] {
      var n := |list| - 1;
      assert SameNode(a[list[n]], b[list[n]]);
      SameKinds(a, b, list[..n], kinds);
    }
  }
}
