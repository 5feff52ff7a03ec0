// When the bit-sliced count is right outside the plain case: predicates with more than three leaves or
// with OR, EQ leaves, and comparisons with a difference under the emitted carry word.
module CountConditions {
  import opened Words
  import opened Options
  import opened Ir
  import opened Drifts
  import opened SlicedCompiler
  import opened SlicedLaw
  import opened Rows
  import opened Counting

  // ----- steady predicates without an EQ leaf -----

  lemma {:induction false} SteadyLeaves(nodes: seq<Node>, i: nat, k: nat)
    requires WellBuilt(nodes) && i < |nodes| && WellKinded(nodes, Some(i)) && Steady(nodes, i)
    requires k < |Leaves(nodes, Some(i))|
    ensures var j := Leaves(nodes, Some(i))[k];
            j < |nodes| && WellKinded(nodes, Some(j)) && Steady(nodes, j)
    decreases i
  {
    OperandKinds(nodes, i);
    var n := nodes[i];
    if n.kind == AND {
      var l := |Leaves(nodes, n.left)|;
      if k < l { SteadyLeaves(nodes, n.left.value, k); } else { SteadyLeaves(nodes, n.right.value, k - l); }
    }
  }

  /** The answer of a row whose carry bit is set, or of a steady predicate, is that with carry-in. */
  lemma AnswerSteady(nodes: seq<Node>, root: nat, row: Row, c: bool)
    requires WellBuilt(nodes) && root < |nodes| && WellKinded(nodes, Some(root)) && (c || Steady(nodes, root))
    ensures Answer(nodes, root, row, c) == Answer(nodes, root, row, true)
  {
    var leaves := ComparedLeaves(nodes, root);
    forall k | 0 <= k < |leaves| ensures LeafTrue(nodes, leaves[k], row, c) == LeafTrue(nodes, leaves[k], row, true) {
      if !c {
        SteadyLeaves(nodes, root, k);
        SteadyKept(nodes, leaves[k], row, c);
      }
    }
  }

  /** Without an EQ leaf no matching row is answered with no. */
  lemma MatchAnswered(nodes: seq<Node>, root: nat, row: Row)
    requires WellBuilt(nodes) && root < |nodes| && WellKinded(nodes, Some(root)) && !ComparesEq(nodes, root)
    ensures Verdict(nodes, root, row, true) ==> Answer(nodes, root, row, true)
  {
    AnswerRightIff(nodes, root, row, true);
    hide Verdict;
    if Verdict(nodes, root, row, true) {
      var leaves := ComparedLeaves(nodes, root);
      forall k | 0 <= k < |leaves| ensures LeafTrue(nodes, leaves[k], row, true) {
        LeavesNecessary(nodes, root, row, true, k);
        assert nodes[leaves[k]].kind != EQ;
      }
    }
  }

  /** What the bit-sliced kernel says of a row, when carry-ins do not matter. */
  lemma JudgesSteady(k: Word, nodes: seq<Node>, root: nat, row: Row, lane: nat)
    requires WellBuilt(nodes) && root < |nodes| && WellKinded(nodes, Some(root)) && lane < 64
    requires k == ALL_ONES || Steady(nodes, root)
    ensures Judges(Sliced(k), nodes, root, row, lane) == Answer(nodes, root, row, true)
  {
    ConstantBits(lane);
    AnswerSteady(nodes, root, row, Bit(k, lane));
    AnswerIsJudged(nodes, root, row, Bit(k, lane));
    hide Answer, JudgedAnswer;
  }

  lemma {:induction false} NoneMissed(t: Table, nodes: seq<Node>, root: nat, k: Word, n: nat)
    requires Readable(t, t.rows) && WellBuilt(nodes) && root < |nodes| && WellKinded(nodes, Some(root)) && n <= t.rows
    requires (k == ALL_ONES || Steady(nodes, root)) && !ComparesEq(nodes, root)
    ensures Missed(t, nodes, root, Sliced(k), n) == 0
  {
    hide Judges, Verdict, Answer, RowAt, WellKinded, Steady, ComparesEq;
    if n > 0 {
      NoneMissed(t, nodes, root, k, n - 1);
      JudgesSteady(k, nodes, root, RowAt(t, n - 1), (n - 1) % 64);
      MatchAnswered(nodes, root, RowAt(t, n - 1));
    }
  }

  /** Row i is answered with yes although it does not exist or does not match. */
  ghost predicate Wrong(t: Table, nodes: seq<Node>, root: nat, i: nat)
    requires Readable(t, t.rows) && WellBuilt(nodes) && root < |nodes|
  {
    Answer(nodes, root, RowAt(t, i), true) && (i >= t.rows || !Verdict(nodes, root, RowAt(t, i), true))
  }

  lemma {:induction false} NoneExtraIff(t: Table, nodes: seq<Node>, root: nat, k: Word, n: nat)
    requires Readable(t, t.rows) && WellBuilt(nodes) && root < |nodes| && WellKinded(nodes, Some(root))
    requires k == ALL_ONES || Steady(nodes, root)
    ensures Extra(t, nodes, root, Sliced(k), n) == 0 <==> forall i | 0 <= i < n :: !Wrong(t, nodes, root, i)
  {
    hide Judges, Verdict, Answer, RowAt, WellKinded, Steady;
    if n > 0 {
      NoneExtraIff(t, nodes, root, k, n - 1);
      JudgesSteady(k, nodes, root, RowAt(t, n - 1), (n - 1) % 64);
      assert Wrong(t, nodes, root, n - 1) <==>
             Answer(nodes, root, RowAt(t, n - 1), true) && (n > t.rows || !Verdict(nodes, root, RowAt(t, n - 1), true));
    }
  }

  /** All padding rows are the zero row. */
  lemma WrongRows(t: Table, nodes: seq<Node>, root: nat)
    requires Readable(t, t.rows) && WellBuilt(nodes) && root < |nodes|
    ensures (forall i | 0 <= i < RoundUp(t.rows) :: !Wrong(t, nodes, root, i))
            <==> (forall i | 0 <= i < t.rows ::
                    Answer(nodes, root, RowAt(t, i), true) ==> Verdict(nodes, root, RowAt(t, i), true))
                 && (t.rows % 64 == 0 || !Answer(nodes, root, ZeroRow(t), true))
  {
    forall i | t.rows <= i ensures RowAt(t, i) == ZeroRow(t) {}
    hide Answer, Verdict, RowAt, ZeroRow;
    if forall i | 0 <= i < RoundUp(t.rows) :: !Wrong(t, nodes, root, i) {
      forall i | 0 <= i < t.rows
        ensures Answer(nodes, root, RowAt(t, i), true) ==> Verdict(nodes, root, RowAt(t, i), true)
      {
        assert !Wrong(t, nodes, root, i);
      }
      if t.rows % 64 != 0 { assert !Wrong(t, nodes, root, t.rows); }
    }
  }

  /** Every accepted predicate without an EQ leaf, whatever else it holds: the count is never too low, and
      it is right if and only if every row that the first three leaves accept matches and, with padding,
      they do not accept the zero row. */
  lemma SteadyCountRightIff(t: Table, nodes: seq<Node>, root: nat, k: Word)
    requires Readable(t, t.rows) && WellBuilt(nodes) && root < |nodes| && WellKinded(nodes, Some(root))
    requires (k == ALL_ONES || Steady(nodes, root)) && !ComparesEq(nodes, root)
    ensures CountRows(t, nodes, root, Sliced(k), 0, RoundUp(t.rows)) >= Matches(t, nodes, root, t.rows)
    ensures CountRows(t, nodes, root, Sliced(k), 0, RoundUp(t.rows)) == Matches(t, nodes, root, t.rows)
            <==> (forall i | 0 <= i < t.rows ::
                    Answer(nodes, root, RowAt(t, i), true) ==> Verdict(nodes, root, RowAt(t, i), true))
                 && (t.rows % 64 == 0 || !Answer(nodes, root, ZeroRow(t), true))
  {
    hide CountRows, Matches, Missed, Extra, Answer, Verdict, RowAt, ZeroRow, WellKinded, Steady, ComparesEq,
         Readable, Wrong;
    CountLaw(t, nodes, root, Sliced(k), RoundUp(t.rows));
    CountRightIff(t, nodes, root, Sliced(k));
    NoneMissed(t, nodes, root, k, t.rows);
    NoneExtraIff(t, nodes, root, k, RoundUp(t.rows));
    WrongRows(t, nodes, root);
  }

  // ----- EQ leaves, and no leaves -----

  lemma {:induction false} CountsAlike(t: Table, nodes: seq<Node>, root: nat, k: Word, yes: bool, n: nat)
    requires Readable(t, t.rows) && WellBuilt(nodes) && root < |nodes|
    requires forall row: Row, c: bool :: Answer(nodes, root, row, c) == yes
    ensures CountRows(t, nodes, root, Sliced(k), 0, n) == if yes then n else 0
  {
    hide Answer, RowAt;
    if n > 0 { CountsAlike(t, nodes, root, k, yes, n - 1); }
  }

  lemma {:induction false} MatchesAtMost(t: Table, nodes: seq<Node>, root: nat, n: nat)
    requires Readable(t, t.rows) && WellBuilt(nodes) && root < |nodes| && n <= t.rows
    ensures Matches(t, nodes, root, n) <= n
    ensures Matches(t, nodes, root, n) == 0 <==> forall i | 0 <= i < n :: !Verdict(nodes, root, RowAt(t, i), true)
    ensures Matches(t, nodes, root, n) == n <==> forall i | 0 <= i < n :: Verdict(nodes, root, RowAt(t, i), true)
  {
    hide Verdict, RowAt;
    if n > 0 { MatchesAtMost(t, nodes, root, n - 1); }
  }

  /** With an EQ leaf among the first three nothing is counted under any carry word, so the count is right
      if and only if no row matches. */
  lemma EqCountRightIff(t: Table, nodes: seq<Node>, root: nat, k: Word)
    requires Readable(t, t.rows) && WellBuilt(nodes) && root < |nodes| && ComparesEq(nodes, root)
    ensures CountRows(t, nodes, root, Sliced(k), 0, RoundUp(t.rows)) == 0
    ensures CountRows(t, nodes, root, Sliced(k), 0, RoundUp(t.rows)) == Matches(t, nodes, root, t.rows)
            <==> forall i | 0 <= i < t.rows :: !Verdict(nodes, root, RowAt(t, i), true)
  {
    var leaves := ComparedLeaves(nodes, root);
    var e :| 0 <= e < |leaves| && nodes[leaves[e]].kind == EQ;
    forall row: Row, c: bool ensures !Answer(nodes, root, row, c) { assert !LeafTrue(nodes, leaves[e], row, c); }
    hide Answer, Verdict, CountRows, Matches, RowAt, Readable;
    CountsAlike(t, nodes, root, k, false, RoundUp(t.rows));
    MatchesAtMost(t, nodes, root, t.rows);
  }

  /** Without leaves, as below an OR root, every row of every chunk is counted, so the count is right if
      and only if there is no padding and every row matches. */
  lemma NoLeafCountRightIff(t: Table, nodes: seq<Node>, root: nat, k: Word)
    requires Readable(t, t.rows) && WellBuilt(nodes) && root < |nodes| && RootLeaves(nodes, root) == []
    ensures CountRows(t, nodes, root, Sliced(k), 0, RoundUp(t.rows)) == RoundUp(t.rows)
    ensures CountRows(t, nodes, root, Sliced(k), 0, RoundUp(t.rows)) == Matches(t, nodes, root, t.rows)
            <==> t.rows % 64 == 0 && forall i | 0 <= i < t.rows :: Verdict(nodes, root, RowAt(t, i), true)
  {
    assert ComparedLeaves(nodes, root) == [];
    hide Verdict, CountRows, Matches, RowAt, Readable;
    CountsAlike(t, nodes, root, k, true, RoundUp(t.rows));
    MatchesAtMost(t, nodes, root, t.rows);
  }

  // ----- one difference under the emitted carry word -----

  /** A GT with a plain difference on one side and nothing to carry on the other. */
  ghost predicate OneDifference(nodes: seq<Node>, root: nat, onLeft: bool)
    requires WellBuilt(nodes) && root < |nodes| && WellKinded(nodes, Some(root))
  {
    OperandKinds(nodes, root);
    nodes[root].kind == GT
    && Drift(nodes, nodes[root].left.value) == (if onLeft then 1 else 0)
    && Drift(nodes, nodes[root].right.value) == (if onLeft then 0 else 1)
  }

  /** Operand values x > y that the shifted comparison misses. */
  predicate Lost(onLeft: bool, x: Word, y: Word) {
    if onLeft then x == y + 1 else y == 0 && x != 0
  }

  /** Operand values x <= y that the shifted comparison takes. */
  predicate Gained(onLeft: bool, x: Word, y: Word) {
    if onLeft then x == 0 && y != ALL_ONES else y != 0 && x == y
  }

  predicate RowLost(nodes: seq<Node>, root: nat, onLeft: bool, row: Row)
    requires WellBuilt(nodes) && root < |nodes| && WellKinded(nodes, Some(root)) && nodes[root].kind == GT
  {
    OperandKinds(nodes, root);
    Lost(onLeft, Eval(nodes, nodes[root].left.value, row, true), Eval(nodes, nodes[root].right.value, row, true))
  }

  predicate RowGained(nodes: seq<Node>, root: nat, onLeft: bool, row: Row)
    requires WellBuilt(nodes) && root < |nodes| && WellKinded(nodes, Some(root)) && nodes[root].kind == GT
  {
    OperandKinds(nodes, root);
    Gained(onLeft, Eval(nodes, nodes[root].left.value, row, true), Eval(nodes, nodes[root].right.value, row, true))
  }

  lemma DifferenceRow(nodes: seq<Node>, root: nat, onLeft: bool, row: Row)
    requires WellBuilt(nodes) && root < |nodes| && WellKinded(nodes, Some(root)) && OneDifference(nodes, root, onLeft)
    ensures RowLost(nodes, root, onLeft, row) ==>
              Verdict(nodes, root, row, true) && !Verdict(nodes, root, row, false)
    ensures RowGained(nodes, root, onLeft, row) ==>
              !Verdict(nodes, root, row, true) && Verdict(nodes, root, row, false)
    ensures !RowLost(nodes, root, onLeft, row) && !RowGained(nodes, root, onLeft, row) ==>
              Verdict(nodes, root, row, false) == Verdict(nodes, root, row, true)
  {
    OperandKinds(nodes, root);
    DroppedCarryIff(nodes, root, row);
    assert Verdict(nodes, root, row, true) <==>
           Eval(nodes, nodes[root].left.value, row, true) > Eval(nodes, nodes[root].right.value, row, true);
  }

  /** The first n rows, but the first of each chunk, that are lost or gained. */
  function Slipped(t: Table, nodes: seq<Node>, root: nat, onLeft: bool, lost: bool, n: nat): nat
    requires Readable(t, t.rows) && WellBuilt(nodes) && root < |nodes| && WellKinded(nodes, Some(root))
    requires nodes[root].kind == GT && n <= t.rows
  {
    if n == 0 then 0
    else
      var row := RowAt(t, n - 1);
      var slips := if lost then RowLost(nodes, root, onLeft, row) else RowGained(nodes, root, onLeft, row);
      Slipped(t, nodes, root, onLeft, lost, n - 1) + Int((n - 1) % 64 != 0 && slips)
  }

  /** What the emitted kernel says of one row of such a comparison. */
  lemma EmittedRow(nodes: seq<Node>, root: nat, onLeft: bool, row: Row, lane: nat)
    requires WellBuilt(nodes) && root < |nodes| && WellKinded(nodes, Some(root)) && OneDifference(nodes, root, onLeft)
    requires lane < 64
    ensures Says(Sliced(EMITTED_SUB_CARRY), nodes, root, row, lane) == Verdict(nodes, root, row, lane == 0)
  {
    assert Leaves(nodes, Some(root)) == [root];
    FragmentAnswered(nodes, root, row, Bit(EMITTED_SUB_CARRY, lane));
    ConstantBits(lane);
    hide Answer, Verdict;
  }

  lemma {:induction false} DifferenceRows(t: Table, nodes: seq<Node>, root: nat, onLeft: bool, n: nat)
    requires Readable(t, t.rows) && WellBuilt(nodes) && root < |nodes| && WellKinded(nodes, Some(root))
    requires OneDifference(nodes, root, onLeft) && n <= t.rows
    ensures CountRows(t, nodes, root, Sliced(EMITTED_SUB_CARRY), 0, n) + Slipped(t, nodes, root, onLeft, true, n)
            == Matches(t, nodes, root, n) + Slipped(t, nodes, root, onLeft, false, n)
  {
    hide Says, Verdict, RowAt, RowLost, RowGained, WellKinded, Readable;
    if n > 0 {
      DifferenceRows(t, nodes, root, onLeft, n - 1);
      EmittedRow(nodes, root, onLeft, RowAt(t, n - 1), (n - 1) % 64);
      DifferenceRow(nodes, root, onLeft, RowAt(t, n - 1));
    }
  }

  lemma {:induction false} DifferencePadding(t: Table, nodes: seq<Node>, root: nat, onLeft: bool, hi: nat)
    requires Readable(t, t.rows) && WellBuilt(nodes) && root < |nodes| && WellKinded(nodes, Some(root))
    requires OneDifference(nodes, root, onLeft) && t.rows <= hi <= RoundUp(t.rows)
    ensures CountRows(t, nodes, root, Sliced(EMITTED_SUB_CARRY), t.rows, hi)
            == if Verdict(nodes, root, ZeroRow(t), false) then hi - t.rows else 0
  {
    hide Says, Verdict, WellKinded, Readable, OneDifference;
    if t.rows < hi {
      DifferencePadding(t, nodes, root, onLeft, hi - 1);
      assert RowAt(t, hi - 1) == ZeroRow(t);
      EmittedRow(nodes, root, onLeft, ZeroRow(t), (hi - 1) % 64);
    }
  }

  /** The count of the emitted kernel for a GT with one difference: away from the first row of each chunk
      the rows with d > c where d is c + 1, or c > d where d is 0, are lost, those with d = 0 and c not all
      ones, or c = d and not 0, are gained, and all padding is counted when the shifted comparison takes
      the zero row. */
  lemma DifferenceCount(t: Table, nodes: seq<Node>, root: nat, onLeft: bool)
    requires Readable(t, t.rows) && WellBuilt(nodes) && root < |nodes| && WellKinded(nodes, Some(root))
    requires OneDifference(nodes, root, onLeft)
    ensures CountRows(t, nodes, root, Sliced(EMITTED_SUB_CARRY), 0, RoundUp(t.rows))
            == Matches(t, nodes, root, t.rows)
               - Slipped(t, nodes, root, onLeft, true, t.rows) + Slipped(t, nodes, root, onLeft, false, t.rows)
               + if DriftedVerdict(nodes, root, ZeroRow(t)) then RoundUp(t.rows) - t.rows else 0
  {
    hide CountRows, Matches, Slipped, Verdict, DriftedVerdict, ZeroRow, WellKinded, Readable, OneDifference;
    CountSplits(t, nodes, root, Sliced(EMITTED_SUB_CARRY), 0, t.rows, RoundUp(t.rows));
    DifferenceRows(t, nodes, root, onLeft, t.rows);
    DifferencePadding(t, nodes, root, onLeft, RoundUp(t.rows));
    VerdictDrifts(nodes, root, ZeroRow(t));
  }
}
