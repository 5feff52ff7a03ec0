// What SUB without its carry-in does to a whole expression: every arithmetic node is off by a
// fixed amount that the graph alone determines.
module Drifts {
  import opened Words
  import opened Options
  import opened Ir

  /** How much node i falls short, modulo 2^64, when the SUB nodes below it get no carry-in. */
  function Drift(nodes: seq<Node>, i: nat): int
    requires WellBuilt(nodes) && i < |nodes| && Arithmetic(nodes, Some(i))
    decreases i
  {
    OperandKinds(nodes, i);
    var n := nodes[i];
    match n.kind
    case ADD => Drift(nodes, n.left.value) + Drift(nodes, n.right.value)
    case SUB => Drift(nodes, n.left.value) - Drift(nodes, n.right.value) + 1
    case _ => 0
  }

  function Less(x: Word, d: int): Word {
    (x - d) % WORD_MOD
  }

  /** The true value less the drift. */
  function Shifted(nodes: seq<Node>, i: nat, row: Row): Word
    requires WellBuilt(nodes) && i < |nodes| && Arithmetic(nodes, Some(i))
  {
    Less(Eval(nodes, i, row, true), Drift(nodes, i))
  }

  lemma SumLess(x: Word, y: Word, d: int, e: int)
    ensures (Less(x, d) + Less(y, e)) % WORD_MOD == Less((x + y) % WORD_MOD, d + e)
  {
  }

  lemma DifferenceLess(x: Word, y: Word, d: int, e: int)
    ensures (Less(x, d) + Not(Less(y, e))) % WORD_MOD == Less((x + Not(y) + 1) % WORD_MOD, d - e + 1)
  {
  }

  lemma LessIff(x: Word, d: int)
    ensures Less(x, d) == x <==> d % WORD_MOD == 0
    ensures Less(x, 0) == x
  {
  }

  /** How a sum or difference of shifted operands is shifted itself. */
  lemma ApplyShifts(n: Node, x: Word, y: Word, d: int, e: int, row: Row)
    requires n.kind == ADD || n.kind == SUB
    ensures Apply(n, Less(x, d), Less(y, e), row, false)
            == Less(Apply(n, x, y, row, true), if n.kind == ADD then d + e else d - e + 1)
  {
    hide Less, Not;
    SumLess(x, y, d, e);
    DifferenceLess(x, y, d, e);
  }

  lemma NoDrift(nodes: seq<Node>, i: nat, row: Row)
    requires WellBuilt(nodes) && i < |nodes| && Arithmetic(nodes, Some(i)) && nodes[i].kind != ADD
    requires nodes[i].kind != SUB
    ensures Drift(nodes, i) == 0 && Eval(nodes, i, row, true) == Eval(nodes, i, row, false)
  {
    OperandKinds(nodes, i);
    hide Arithmetic;
  }

  lemma DriftIs(nodes: seq<Node>, i: nat)
    requires WellBuilt(nodes) && i < |nodes| && Arithmetic(nodes, Some(i))
    requires (nodes[i].kind == ADD || nodes[i].kind == SUB)
    ensures NodeOk(nodes[i], i) && Arithmetic(nodes, nodes[i].left) && Arithmetic(nodes, nodes[i].right)
    ensures nodes[i].left.Some? && nodes[i].right.Some?
    ensures var d, e := Drift(nodes, nodes[i].left.value), Drift(nodes, nodes[i].right.value);
            Drift(nodes, i) == if nodes[i].kind == ADD then d + e else d - e + 1
  {
    OperandKinds(nodes, i);
  }

  /** Without carry-ins every arithmetic node is its true value less its drift, on every row. */
  lemma {:induction false} DriftLaw(nodes: seq<Node>, i: nat, row: Row)
    requires WellBuilt(nodes) && i < |nodes| && Arithmetic(nodes, Some(i))
    ensures Eval(nodes, i, row, false) == Shifted(nodes, i, row)
    decreases i
  {
    hide Less, Arithmetic, Eval, Drift, WellBuilt, Apply;
    if nodes[i].kind == ADD || nodes[i].kind == SUB {
      DriftIs(nodes, i);
      EvalApplies(nodes, i, row, true);
      EvalApplies(nodes, i, row, false);
      var l, r := nodes[i].left.value, nodes[i].right.value;
      DriftLaw(nodes, l, row);
      DriftLaw(nodes, r, row);
      ApplyShifts(nodes[i], Eval(nodes, l, row, true), Eval(nodes, r, row, true), Drift(nodes, l), Drift(nodes, r),
          row);
    } else {
      NoDrift(nodes, i, row);
      LessIff(Eval(nodes, i, row, true), 0);
    }
  }

  /** An arithmetic node survives the missing carry-ins, on any and on every row, if and only if its
      drift is a multiple of 2^64. */
  lemma ArithmeticKeptIff(nodes: seq<Node>, i: nat, row: Row)
    requires WellBuilt(nodes) && i < |nodes| && Arithmetic(nodes, Some(i))
    ensures Eval(nodes, i, row, false) == Eval(nodes, i, row, true) <==> Drift(nodes, i) % WORD_MOD == 0
  {
    hide Less, Drift, Eval;
    DriftLaw(nodes, i, row);
    LessIff(Eval(nodes, i, row, true), Drift(nodes, i));
  }

  /** The two missing carry-ins of a - (b - c) cancel. */
  lemma NestedDifference(nodes: seq<Node>, i: nat)
    requires WellBuilt(nodes) && i < |nodes| && Arithmetic(nodes, Some(i)) && nodes[i].kind == SUB
    requires NodeOk(nodes[i], i) && nodes[i].right.Some? && nodes[nodes[i].right.value].kind == SUB
    ensures var r := nodes[i].right.value;
            NodeOk(nodes[r], r) && Arithmetic(nodes, nodes[i].left)
            && Arithmetic(nodes, nodes[r].left) && Arithmetic(nodes, nodes[r].right)
            && Drift(nodes, i) == Drift(nodes, nodes[i].left.value) - Drift(nodes, nodes[r].left.value)
                                  + Drift(nodes, nodes[r].right.value)
  {
    hide Drift;
    DriftIs(nodes, i);
    DriftIs(nodes, nodes[i].right.value);
  }

  // ----- predicates -----

  /** The verdict computed from true operand values and drifts. */
  predicate DriftedVerdict(nodes: seq<Node>, i: nat, row: Row)
    requires WellBuilt(nodes) && i < |nodes| && WellKinded(nodes, Some(i))
    decreases i
  {
    OperandKinds(nodes, i);
    var n := nodes[i];
    match n.kind
    case GT => Shifted(nodes, n.left.value, row) > Shifted(nodes, n.right.value, row)
    case LT => Shifted(nodes, n.left.value, row) < Shifted(nodes, n.right.value, row)
    case EQ => Shifted(nodes, n.left.value, row) == Shifted(nodes, n.right.value, row)
    case AND => DriftedVerdict(nodes, n.left.value, row) && DriftedVerdict(nodes, n.right.value, row)
    case OR => DriftedVerdict(nodes, n.left.value, row) || DriftedVerdict(nodes, n.right.value, row)
    case _ => false
  }

  lemma {:induction false} VerdictDrifts(nodes: seq<Node>, i: nat, row: Row)
    requires WellBuilt(nodes) && i < |nodes| && WellKinded(nodes, Some(i))
    ensures Verdict(nodes, i, row, false) == DriftedVerdict(nodes, i, row)
    decreases i
  {
    hide Drift, Shifted;
    assert NodeOk(nodes[i], i);
    var n := nodes[i];
    if IsComparison(n.kind) {
      DriftLaw(nodes, n.left.value, row);
      DriftLaw(nodes, n.right.value, row);
    } else {
      VerdictDrifts(nodes, n.left.value, row);
      VerdictDrifts(nodes, n.right.value, row);
    }
  }

  /** The verdict with or without carry-ins, from true values and drifts only. */
  predicate Judged(nodes: seq<Node>, i: nat, row: Row, carryIn: bool)
    requires WellBuilt(nodes) && i < |nodes| && WellKinded(nodes, Some(i))
  {
    if carryIn then Verdict(nodes, i, row, true) else DriftedVerdict(nodes, i, row)
  }

  lemma VerdictIsJudged(nodes: seq<Node>, i: nat, row: Row, carryIn: bool)
    requires WellBuilt(nodes) && i < |nodes| && WellKinded(nodes, Some(i))
    ensures Verdict(nodes, i, row, carryIn) == Judged(nodes, i, row, carryIn)
  {
    if !carryIn { VerdictDrifts(nodes, i, row); }
  }

  /** Every compared operand has a drift that is a multiple of 2^64. */
  predicate Steady(nodes: seq<Node>, i: nat)
    requires WellBuilt(nodes) && i < |nodes| && WellKinded(nodes, Some(i))
    decreases i
  {
    OperandKinds(nodes, i);
    var n := nodes[i];
    if IsComparison(n.kind) then
      Drift(nodes, n.left.value) % WORD_MOD == 0 && Drift(nodes, n.right.value) % WORD_MOD == 0
    else
      Steady(nodes, n.left.value) && Steady(nodes, n.right.value)
  }

  /** A steady predicate does not need its carry-ins. */
  lemma {:induction false} SteadyKept(nodes: seq<Node>, i: nat, row: Row, carryIn: bool)
    requires WellBuilt(nodes) && i < |nodes| && WellKinded(nodes, Some(i)) && Steady(nodes, i)
    ensures Verdict(nodes, i, row, carryIn) == Verdict(nodes, i, row, true)
    decreases i
  {
    hide Drift;
    assert NodeOk(nodes[i], i);
    var n := nodes[i];
    if IsComparison(n.kind) {
      ArithmeticKeptIff(nodes, n.left.value, row);
      ArithmeticKeptIff(nodes, n.right.value, row);
    } else {
      SteadyKept(nodes, n.left.value, row, carryIn);
      SteadyKept(nodes, n.right.value, row, carryIn);
    }
  }

  lemma {:induction false} NoSubNoDrift(nodes: seq<Node>, i: nat)
    requires WellBuilt(nodes) && i < |nodes| && Arithmetic(nodes, Some(i)) && NoSub(nodes, i)
    ensures Drift(nodes, i) == 0
    decreases i
  {
    assert NodeOk(nodes[i], i);
    if nodes[i].kind == ADD {
      NoSubNoDrift(nodes, nodes[i].left.value);
      NoSubNoDrift(nodes, nodes[i].right.value);
    }
  }

  /** Predicates without SUB are steady; so are others, such as a - (b - c) > d. */
  lemma {:induction false} NoSubIsSteady(nodes: seq<Node>, i: nat)
    requires WellBuilt(nodes) && i < |nodes| && WellKinded(nodes, Some(i)) && NoSub(nodes, i)
    ensures Steady(nodes, i)
    decreases i
  {
    assert NodeOk(nodes[i], i);
    var n := nodes[i];
    if IsComparison(n.kind) {
      NoSubNoDrift(nodes, n.left.value);
      NoSubNoDrift(nodes, n.right.value);
    } else {
      NoSubIsSteady(nodes, n.left.value);
      NoSubIsSteady(nodes, n.right.value);
    }
  }

  /** Shifting keeps the order of all pairs of words if and only if both shifts are multiples of 2^64,
      so a comparison of freely varying operands needs a steady drift. */
  lemma OrderKeptIff(d: int, e: int)
    ensures (forall x: Word, y: Word :: OrderKept(x, y, d, e)) <==> d % WORD_MOD == 0 && e % WORD_MOD == 0
  {
    if e % WORD_MOD != 0 {
      LargestWordMoves(d, e);
    } else if d % WORD_MOD != 0 {
      assert !OrderKept(0, 0, d, e);
    } else {
      forall x: Word, y: Word ensures OrderKept(x, y, d, e) {
        LessIff(x, d);
        LessIff(y, e);
      }
    }
  }

  lemma LargestWordMoves(d: int, e: int)
    requires e % WORD_MOD != 0
    ensures exists x: Word :: !OrderKept(x, ALL_ONES, d, e)
  {
    var x: Word := (ALL_ONES + d) % WORD_MOD;
    assert Less(x, d) == ALL_ONES;
    LessIff(ALL_ONES, e);
    assert !OrderKept(x, ALL_ONES, d, e);
  }

  /** The shifted words are ordered as the true ones. */
  predicate OrderKept(x: Word, y: Word, d: int, e: int) {
    (Less(x, d) > Less(y, e)) == (x > y)
  }

  /** A comparison keeps its verdict on a row exactly when the drifts keep the order, or the equality,
      of its two true operand values. */
  lemma ComparisonKeptIff(nodes: seq<Node>, i: nat, row: Row)
    requires WellBuilt(nodes) && i < |nodes| && WellKinded(nodes, Some(i)) && IsComparison(nodes[i].kind)
    ensures NodeOk(nodes[i], i)
    ensures var l, r := nodes[i].left.value, nodes[i].right.value;
            var x, y := Eval(nodes, l, row, true), Eval(nodes, r, row, true);
            var d, e := Drift(nodes, l), Drift(nodes, r);
            Verdict(nodes, i, row, false) == Verdict(nodes, i, row, true)
            <==> if nodes[i].kind == GT then OrderKept(x, y, d, e)
                 else if nodes[i].kind == LT then OrderKept(y, x, e, d)
                 else (Less(x, d) == Less(y, e)) == (x == y)
  {
    hide Drift, Less;
    VerdictDrifts(nodes, i, row);
    assert NodeOk(nodes[i], i);
  }

  // ----- one subtraction -----

  lemma PredecessorAbove(d: Word, c: Word)
    ensures OrderKept(d, c, 1, 0) <==> (if d == 0 then c == ALL_ONES else d != c + 1)
    ensures OrderKept(c, d, 0, 1) <==> (if d == 0 then c == 0 else d != c)
  {
  }

  /** Exactly when a comparison with one plain subtraction is still right: "difference > bound" unless
      the difference is zero below the largest bound or is one above the bound, and
      "bound > difference" unless the difference is zero below the bound or equals it. */
  lemma DroppedCarryIff(nodes: seq<Node>, i: nat, row: Row)
    requires WellBuilt(nodes) && i < |nodes| && WellKinded(nodes, Some(i)) && nodes[i].kind == GT
    ensures NodeOk(nodes[i], i)
    ensures var l, r := nodes[i].left.value, nodes[i].right.value;
            var x, y := Eval(nodes, l, row, true), Eval(nodes, r, row, true);
            var kept := Verdict(nodes, i, row, false) == Verdict(nodes, i, row, true);
            (Drift(nodes, l) == 1 && Drift(nodes, r) == 0 ==>
               (kept <==> if x == 0 then y == ALL_ONES else x != y + 1))
            && (Drift(nodes, l) == 0 && Drift(nodes, r) == 1 ==>
                  (kept <==> if y == 0 then x == 0 else y != x))
  {
    hide Drift, OrderKept, Eval;
    assert NodeOk(nodes[i], i);
    var l, r := nodes[i].left.value, nodes[i].right.value;
    var x, y := Eval(nodes, l, row, true), Eval(nodes, r, row, true);
    ComparisonKeptIff(nodes, i, row);
    PredecessorAbove(x, y);
    PredecessorAbove(y, x);
  }
}
