// The predicates the theorems speak of, node by node: what well-kinded, conjunctive and steady come to
// for the nodes a root reaches.
module Kinds {
  import opened Options
  import opened Ir
  import opened Analyzer
  import opened Drifts
  import opened SlicedCompiler
  import opened SlicedLaw

  predicate IsKind(nodes: seq<Node>, p: Option<nat>, kinds: set<NodeKind>) {
    p.Some? && p.value < |nodes| && nodes[p.value].kind in kinds
  }

  const WORDS: set<NodeKind> := {LOAD, CONST, ADD, SUB}
  const MASKS: set<NodeKind> := {GT, LT, EQ, AND, OR}

  /** Node j and its operands fit together: words under arithmetic and comparisons, masks under AND and OR,
      nothing under LOAD and CONST. */
  predicate Fitting(nodes: seq<Node>, j: nat)
    requires j < |nodes|
  {
    var n := nodes[j];
    n.cond.None?
    && match n.kind
       case LOAD => n.left.None? && n.right.None?
       case CONST => n.left.None? && n.right.None?
       case ADD => IsKind(nodes, n.left, WORDS) && IsKind(nodes, n.right, WORDS)
       case SUB => IsKind(nodes, n.left, WORDS) && IsKind(nodes, n.right, WORDS)
       case GT => IsKind(nodes, n.left, WORDS) && IsKind(nodes, n.right, WORDS)
       case LT => IsKind(nodes, n.left, WORDS) && IsKind(nodes, n.right, WORDS)
       case EQ => IsKind(nodes, n.left, WORDS) && IsKind(nodes, n.right, WORDS)
       case AND => IsKind(nodes, n.left, MASKS) && IsKind(nodes, n.right, MASKS)
       case OR => IsKind(nodes, n.left, MASKS) && IsKind(nodes, n.right, MASKS)
       case _ => false
  }

  ghost predicate AllFitting(nodes: seq<Node>, i: nat)
    requires WellBuilt(nodes) && i < |nodes|
  {
    forall j: nat | j < |nodes| && Reach(nodes, i, j) :: Fitting(nodes, j)
  }

  lemma FittingSplits(nodes: seq<Node>, i: nat)
    requires WellBuilt(nodes) && i < |nodes| && nodes[i].cond.None?
    ensures NodeOk(nodes[i], i)
    ensures AllFitting(nodes, i) <==>
            Fitting(nodes, i)
            && (nodes[i].left.Some? ==> AllFitting(nodes, nodes[i].left.value))
            && (nodes[i].right.Some? ==> AllFitting(nodes, nodes[i].right.value))
  {
    assert NodeOk(nodes[i], i);
    var n := nodes[i];
    forall j: nat | j < |nodes|
      ensures Reach(nodes, i, j) <==>
              i == j || (n.left.Some? && Reach(nodes, n.left.value, j))
              || (n.right.Some? && Reach(nodes, n.right.value, j))
    {
    }
    hide Reach, Fitting;
    if AllFitting(nodes, i) {
      forall j: nat | n.left.Some? && j < |nodes| && Reach(nodes, n.left.value, j) ensures Fitting(nodes, j) {
        assert Reach(nodes, i, j);
      }
      forall j: nat | n.right.Some? && j < |nodes| && Reach(nodes, n.right.value, j) ensures Fitting(nodes, j) {
        assert Reach(nodes, i, j);
      }
      assert Reach(nodes, i, i);
    }
  }

  lemma ReachesItself(nodes: seq<Node>, i: nat)
    requires WellBuilt(nodes) && i < |nodes|
    ensures Reach(nodes, i, i)
  {
  }

  /** Arithmetic is a word whose reachable nodes all fit. */
  lemma {:induction false} ArithmeticIff(nodes: seq<Node>, i: nat)
    requires WellBuilt(nodes) && i < |nodes|
    ensures Arithmetic(nodes, Some(i)) <==> nodes[i].kind in WORDS && AllFitting(nodes, i)
    decreases i
  {
    assert NodeOk(nodes[i], i);
    ReachesItself(nodes, i);
    var n := nodes[i];
    if n.cond.None? {
      FittingSplits(nodes, i);
      hide AllFitting;
      if n.left.Some? { ArithmeticIff(nodes, n.left.value); }
      if n.right.Some? { ArithmeticIff(nodes, n.right.value); }
    }
  }

  /** A predicate is well-kinded if and only if its root is a mask and every node it reaches fits. */
  lemma {:induction false} WellKindedIff(nodes: seq<Node>, i: nat)
    requires WellBuilt(nodes) && i < |nodes|
    ensures WellKinded(nodes, Some(i)) <==> nodes[i].kind in MASKS && AllFitting(nodes, i)
    decreases i
  {
    assert NodeOk(nodes[i], i);
    ReachesItself(nodes, i);
    var n := nodes[i];
    if n.cond.None? {
      FittingSplits(nodes, i);
      hide AllFitting, Arithmetic;
      if n.left.Some? {
        ArithmeticIff(nodes, n.left.value);
        WellKindedIff(nodes, n.left.value);
      }
      if n.right.Some? {
        ArithmeticIff(nodes, n.right.value);
        WellKindedIff(nodes, n.right.value);
      }
    }
  }

  /** No node below i is an OR or an EQ. */
  ghost predicate NoOrNoEq(nodes: seq<Node>, i: nat)
    requires WellBuilt(nodes) && i < |nodes|
  {
    forall j: nat | j < |nodes| && Reach(nodes, i, j) :: nodes[j].kind !in {OR, EQ}
  }

  /** A predicate is in the bit-sliced fragment if and only if it is well-kinded, reaches no OR and no EQ,
      and has at most three leaves. */
  lemma InFragmentIff(nodes: seq<Node>, root: nat)
    requires WellBuilt(nodes) && root < |nodes|
    ensures InFragment(nodes, root) <==>
            WellKinded(nodes, Some(root)) && NoOrNoEq(nodes, root) && |RootLeaves(nodes, root)| <= 3
  {
    if WellKinded(nodes, Some(root)) { ConjunctiveIff(nodes, root); }
  }

  lemma {:induction false} ConjunctiveIff(nodes: seq<Node>, i: nat)
    requires WellBuilt(nodes) && i < |nodes| && WellKinded(nodes, Some(i))
    ensures Conjunctive(nodes, Some(i)) <==> NoOrNoEq(nodes, i)
    decreases i
  {
    OperandKinds(nodes, i);
    ReachesItself(nodes, i);
    var n := nodes[i];
    forall j: nat | j < |nodes|
      ensures Reach(nodes, i, j) <==> i == j || Reach(nodes, n.left.value, j) || Reach(nodes, n.right.value, j)
    {
      NoCondition(nodes, i);
    }
    hide WellKinded, Arithmetic, Reach;
    if n.kind == AND {
      ConjunctiveIff(nodes, n.left.value);
      ConjunctiveIff(nodes, n.right.value);
      BothNoOrNoEq(nodes, i);
    } else if n.kind in {GT, LT} {
      OnlyWords(nodes, n.left.value);
      OnlyWords(nodes, n.right.value);
      BothNoOrNoEq(nodes, i);
    }
  }

  lemma NoCondition(nodes: seq<Node>, i: nat)
    requires WellBuilt(nodes) && i < |nodes| && (WellKinded(nodes, Some(i)) || Arithmetic(nodes, Some(i)))
    ensures nodes[i].cond.None?
  {
  }

  lemma BothNoOrNoEq(nodes: seq<Node>, i: nat)
    requires WellBuilt(nodes) && i < |nodes| && NodeOk(nodes[i], i) && nodes[i].left.Some? && nodes[i].right.Some?
    requires forall j: nat | j < |nodes| :: Reach(nodes, i, j) <==>
               i == j || Reach(nodes, nodes[i].left.value, j) || Reach(nodes, nodes[i].right.value, j)
    ensures NoOrNoEq(nodes, i) <==>
            nodes[i].kind !in {OR, EQ} && NoOrNoEq(nodes, nodes[i].left.value) && NoOrNoEq(nodes, nodes[i].right.value)
  {
    hide Reach;
    if NoOrNoEq(nodes, i) {
      forall j: nat | j < |nodes| && Reach(nodes, nodes[i].left.value, j) ensures nodes[j].kind !in {OR, EQ} {
        assert Reach(nodes, i, j);
      }
      forall j: nat | j < |nodes| && Reach(nodes, nodes[i].right.value, j) ensures nodes[j].kind !in {OR, EQ} {
        assert Reach(nodes, i, j);
      }
      assert Reach(nodes, i, i);
    }
  }

  lemma OnlyWords(nodes: seq<Node>, i: nat)
    requires WellBuilt(nodes) && i < |nodes| && Arithmetic(nodes, Some(i))
    ensures NoOrNoEq(nodes, i)
  {
    forall j: nat | j < |nodes| && Reach(nodes, i, j) ensures nodes[j].kind !in {OR, EQ} {
      ArithmeticBelow(nodes, i, j);
      OperandKinds(nodes, j);
    }
  }

  /** A predicate is steady if and only if, on any row, every compared operand it reaches has the same
      value with and without carry-ins. */
  lemma {:induction false} SteadyIff(nodes: seq<Node>, i: nat, row: Row)
    requires WellBuilt(nodes) && i < |nodes| && WellKinded(nodes, Some(i))
    ensures Steady(nodes, i) <==>
            forall j: nat, k: nat | Compares(nodes, i, j, k) :: Eval(nodes, k, row, false) == Eval(nodes, k, row, true)
    decreases i
  {
    OperandKinds(nodes, i);
    var l, r := nodes[i].left.value, nodes[i].right.value;
    hide Drift, Eval, WellKinded, Arithmetic, Reach;
    ComparesSplits(nodes, i);
    if IsComparison(nodes[i].kind) {
      ArithmeticKeptIff(nodes, l, row);
      ArithmeticKeptIff(nodes, r, row);
      assert Compares(nodes, i, i, l) && Compares(nodes, i, i, r);
    } else {
      SteadyIff(nodes, l, row);
      SteadyIff(nodes, r, row);
      hide Compares;
      if forall j: nat, k: nat | Compares(nodes, i, j, k) :: Eval(nodes, k, row, false) == Eval(nodes, k, row, true) {
        forall j: nat, k: nat | Compares(nodes, l, j, k) || Compares(nodes, r, j, k)
          ensures Eval(nodes, k, row, false) == Eval(nodes, k, row, true)
        {
          assert Compares(nodes, i, j, k);
        }
      }
    }
  }

  /** Comparison j lies below i and k is one of its operands. */
  ghost predicate Compares(nodes: seq<Node>, i: nat, j: nat, k: nat)
    requires WellBuilt(nodes) && i < |nodes|
  {
    j < |nodes| && k < |nodes| && Reach(nodes, i, j) && nodes[j].kind in {GT, LT, EQ}
    && (nodes[j].left == Some(k) || nodes[j].right == Some(k))
  }

  lemma ComparesSplits(nodes: seq<Node>, i: nat)
    requires WellBuilt(nodes) && i < |nodes| && WellKinded(nodes, Some(i))
    ensures NodeOk(nodes[i], i) && nodes[i].left.Some? && nodes[i].right.Some?
    ensures forall j: nat, k: nat :: Compares(nodes, i, j, k) <==>
              if nodes[i].kind in {GT, LT, EQ} then j == i && (nodes[i].left == Some(k) || nodes[i].right == Some(k))
              else Compares(nodes, nodes[i].left.value, j, k) || Compares(nodes, nodes[i].right.value, j, k)
  {
    OperandKinds(nodes, i);
    NoCondition(nodes, i);
    var l, r := nodes[i].left.value, nodes[i].right.value;
    ReachesItself(nodes, i);
    forall j: nat, k: nat
      ensures Compares(nodes, i, j, k) <==>
              if nodes[i].kind in {GT, LT, EQ} then j == i && (nodes[i].left == Some(k) || nodes[i].right == Some(k))
              else Compares(nodes, l, j, k) || Compares(nodes, r, j, k)
    {
      if j < |nodes| {
        assert Reach(nodes, i, j) <==> i == j || Reach(nodes, l, j) || Reach(nodes, r, j);
        if nodes[i].kind in {GT, LT, EQ} && (Reach(nodes, l, j) || Reach(nodes, r, j)) {
          NoComparisonBelow(nodes, if Reach(nodes, l, j) then l else r, j);
        }
      }
    }
  }

  lemma NoComparisonBelow(nodes: seq<Node>, i: nat, j: nat)
    requires WellBuilt(nodes) && i < |nodes| && Arithmetic(nodes, Some(i)) && Reach(nodes, i, j)
    ensures j < |nodes| && nodes[j].kind !in {GT, LT, EQ}
  {
    ArithmeticBelow(nodes, i, j);
    OperandKinds(nodes, j);
  }
}
