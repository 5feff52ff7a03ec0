// What the bit-sliced kernel of an expression computes, in terms of the expression's meaning.
module SlicedLaw {
  import opened Words
  import opened Options
  import opened Machine
  import opened Ir
  import opened Analyzer
  import opened Allocation
  import opened SlicedCompiler
  import opened Planes
  import opened SlicedSimulation
  import opened SlicedComparison
  import opened SlicedCorrectness
  import opened Drifts

  // ----- kinds below a well-kinded root -----

  lemma {:induction false} ArithmeticBelow(nodes: seq<Node>, i: nat, j: nat)
    requires WellBuilt(nodes) && i < |nodes| && Arithmetic(nodes, Some(i)) && Reach(nodes, i, j)
    ensures j < |nodes| && Arithmetic(nodes, Some(j))
    decreases i
  {
    assert NodeOk(nodes[i], i);
    var n := nodes[i];
    if i != j {
      if n.left.Some? && Reach(nodes, n.left.value, j) {
        ArithmeticBelow(nodes, n.left.value, j);
      } else {
        ArithmeticBelow(nodes, n.right.value, j);
      }
    }
  }

  lemma {:induction false} WellKindedBelow(nodes: seq<Node>, i: nat, j: nat)
    requires WellBuilt(nodes) && i < |nodes| && WellKinded(nodes, Some(i)) && Reach(nodes, i, j)
    ensures j < |nodes| && (Arithmetic(nodes, Some(j)) || WellKinded(nodes, Some(j)))
    decreases i
  {
    assert NodeOk(nodes[i], i);
    var n := nodes[i];
    if i != j {
      var c := if n.left.Some? && Reach(nodes, n.left.value, j) then n.left.value else n.right.value;
      if IsComparison(n.kind) { ArithmeticBelow(nodes, c, j); } else { WellKindedBelow(nodes, c, j); }
    }
  }

  // ----- where operands are found -----

  /** Column f holds the planes of field f: plane k has bit k of row r in bit r. */
  ghost predicate SlicedColumns(rows: seq<Row>, names: seq<string>, columns: Columns) {
    |rows| == 64 && |columns| == |names| && forall f | 0 <= f < |names| :: SlicedColumn(rows, names[f], columns[f])
  }

  ghost predicate SlicedColumn(rows: seq<Row>, name: string, planes: seq<Word>)
    requires |rows| == 64
  {
    |planes| == 64 && forall k, r | 0 <= k < 64 && 0 <= r < 64 :: Bit(planes[k], r) == Bit(Lookup(rows[r], name), k)
  }

  /** A compiled expression, its rows and its sliced columns. */
  ghost predicate Setting(b: Batch, root: nat, columns: Columns) {
    Ok(b) && root < |b.nodes| && WellKinded(b.nodes, Some(root))
    && FieldsBound(b.nodes, Loads(b.nodes, root), FieldNames(b.nodes, root))
    && |FieldNames(b.nodes, root)| <= MAX_FIELDS
    && Allocated(b.nodes, Arithmetics(b.nodes, root)) && SlicedColumns(b.rows, FieldNames(b.nodes, root), columns)
  }

  lemma LoadColumn(b: Batch, root: nat, columns: Columns, x: nat)
    requires Setting(b, root, columns) && x in Order(b.nodes, root) && b.nodes[x].kind == LOAD
    ensures |columns| <= 8 && ColumnHolds(b, columns, x)
  {
    OfKindMembers(b.nodes, Order(b.nodes, root), {LOAD});
    var loads, names := Loads(b.nodes, root), FieldNames(b.nodes, root);
    var l :| 0 <= l < |loads| && loads[l] == x;
    assert FieldBound(b.nodes, loads[l], names);
    var f := b.nodes[x].fieldIdx;
    assert SlicedColumn(b.rows, names[f], columns[f]);
    assert NodeOk(b.nodes[x], x);
    forall k | 0 <= k < 64 ensures columns[f][k] == Plane(b, x, k) {
      forall r | 0 <= r < 64 ensures Bit(columns[f][k], r) == Bit(Plane(b, x, k), r) {
        assert RowValue(b, x, r) == Lookup(b.rows[r], names[f]);
      }
      WordsEqual(columns[f][k], Plane(b, x, k));
    }
  }

  /** An arithmetic operand listed among the first k nodes is a column, a constant or an earlier slot. */
  lemma OperandAvailable(b: Batch, root: nat, columns: Columns, k: nat, x: nat)
    requires Setting(b, root, columns) && k <= |Order(b.nodes, root)|
    requires x in Order(b.nodes, root)[..k] && x < |b.nodes| && Arithmetic(b.nodes, Some(x))
    ensures InRange(b.nodes, Order(b.nodes, root)[..k])
    ensures var before, arith := OfKind(b.nodes, Order(b.nodes, root)[..k], ARITHMETIC), Arithmetics(b.nodes, root);
            |before| <= |arith| && before == arith[..|before|] ==> OperandOk(b, columns, arith, |before|, x)
  {
    var order := Order(b.nodes, root);
    var before, arith := OfKind(b.nodes, order[..k], ARITHMETIC), Arithmetics(b.nodes, root);
    assert NodeOk(b.nodes[x], x);
    if b.nodes[x].kind == LOAD {
      LoadColumn(b, root, columns, x);
    } else if b.nodes[x].kind != CONST && |before| <= |arith| && before == arith[..|before|] {
      OfKindMembers(b.nodes, order[..k], ARITHMETIC);
      var m :| 0 <= m < |before| && before[m] == x;
      assert arith[m] == x;
    }
  }

  /** Where the l-th arithmetic node stands in the walk: after exactly the earlier ones. */
  lemma ArithmeticPlace(nodes: seq<Node>, root: nat, l: nat) returns (k: nat)
    requires WellBuilt(nodes) && root < |nodes| && l < |Arithmetics(nodes, root)|
    ensures k < |Order(nodes, root)| && Order(nodes, root)[k] == Arithmetics(nodes, root)[l]
    ensures InRange(nodes, Order(nodes, root)[..k])
    ensures OfKind(nodes, Order(nodes, root)[..k], ARITHMETIC) == Arithmetics(nodes, root)[..l]
    ensures nodes[Order(nodes, root)[k]].kind in ARITHMETIC
  {
    var order, arith := Order(nodes, root), Arithmetics(nodes, root);
    WalkFromRoot(nodes, root);
    OfKindMembers(nodes, order, ARITHMETIC);
    assert arith[l] in arith;
    k :| 0 <= k < |order| && order[k] == arith[l];
    OfKindPosition(nodes, order, ARITHMETIC, k);
    OfKindDistinct(nodes, order, ARITHMETIC);
    assert l == |OfKind(nodes, order[..k], ARITHMETIC)|;
  }

  /** The operands of a listed node stand before it. */
  lemma OperandsListed(nodes: seq<Node>, root: nat, k: nat)
    requires WellBuilt(nodes) && root < |nodes| && WellKinded(nodes, Some(root)) && k < |Order(nodes, root)|
    requires var n := nodes[Order(nodes, root)[k]]; Ripples(n) || n.kind in {LSL, LSR} || IsComparison(n.kind)
    ensures var n := nodes[Order(nodes, root)[k]];
            !(n.kind in {LSL, LSR}) && n.left.Some? && n.right.Some?
            && n.left.value < |nodes| && n.right.value < |nodes|
            && n.left.value in Order(nodes, root)[..k] && n.right.value in Order(nodes, root)[..k]
            && Arithmetic(nodes, n.left) && Arithmetic(nodes, n.right)
  {
    var order := Order(nodes, root);
    var i := order[k];
    WalkFromRoot(nodes, root);
    assert i in order;
    WellKindedBelow(nodes, root, i);
    assert OperandsBefore(nodes, order, k) && NodeOk(nodes[i], i);
    hide Order;
    OperandKinds(nodes, i);
  }

  lemma ArithmeticRuns(b: Batch, root: nat, columns: Columns, l: nat)
    requires Setting(b, root, columns) && l < |Arithmetics(b.nodes, root)|
    ensures NodeRunnable(b, columns, Arithmetics(b.nodes, root), l)
  {
    hide Order, Arithmetics, Plane, Arithmetic, WellKinded, OperandOk;
    var k := ArithmeticPlace(b.nodes, root, l);
    OperandsListed(b.nodes, root, k);
    var n := b.nodes[Order(b.nodes, root)[k]];
    OperandAvailable(b, root, columns, k, n.left.value);
    OperandAvailable(b, root, columns, k, n.right.value);
    assert Ripples(n);
  }

  lemma {:induction false} LeavesBelow(nodes: seq<Node>, i: nat, c: nat)
    requires WellBuilt(nodes) && i < |nodes| && WellKinded(nodes, Some(i)) && c < |Leaves(nodes, Some(i))|
    ensures var j := Leaves(nodes, Some(i))[c];
            j < |nodes| && Reach(nodes, i, j) && IsComparison(nodes[j].kind) && WellKinded(nodes, Some(j))
    decreases i
  {
    assert NodeOk(nodes[i], i);
    var n := nodes[i];
    if n.kind == AND {
      var k := |Leaves(nodes, n.left)|;
      if c < k { LeavesBelow(nodes, n.left.value, c); } else { LeavesBelow(nodes, n.right.value, c - k); }
    }
  }

  lemma LeafRunsToo(b: Batch, root: nat, columns: Columns, c: nat)
    requires Setting(b, root, columns) && c < |RootLeaves(b.nodes, root)|
    ensures LeafComparable(b, columns, Arithmetics(b.nodes, root), RootLeaves(b.nodes, root)[c])
  {
    var nodes := b.nodes;
    var order := Order(nodes, root);
    var j := RootLeaves(nodes, root)[c];
    LeavesBelow(nodes, root, c);
    WalkFromRoot(nodes, root);
    hide Order, Arithmetics, Plane, Arithmetic, WellKinded, OperandOk, Reach, RootLeaves, Loads, FieldNames,
         SlicedColumns, Allocated, FieldsBound;
    assert j in order;
    var k :| 0 <= k < |order| && order[k] == j;
    OperandsListed(nodes, root, k);
    assert order[..|order|] == order;
    AllBefore(nodes, root);
    OperandAvailable(b, root, columns, |order|, nodes[j].left.value);
    OperandAvailable(b, root, columns, |order|, nodes[j].right.value);
  }

  lemma AllBefore(nodes: seq<Node>, root: nat)
    requires WellBuilt(nodes) && root < |nodes|
    ensures var arith := Arithmetics(nodes, root);
            OfKind(nodes, Order(nodes, root), ARITHMETIC) == arith == arith[..|arith|]
  {
  }

  lemma SettingComparable(b: Batch, root: nat, columns: Columns)
    requires Setting(b, root, columns)
    ensures Comparable(b, columns, Arithmetics(b.nodes, root), RootLeaves(b.nodes, root))
  {
    var arith, leaves := Arithmetics(b.nodes, root), RootLeaves(b.nodes, root);
    forall l | 0 <= l < |arith| ensures NodeRunnable(b, columns, arith, l) { ArithmeticRuns(b, root, columns, l); }
    forall c | 0 <= c < Compared(|leaves|) ensures LeafComparable(b, columns, arith, leaves[c]) {
      LeafRunsToo(b, root, columns, c);
    }
  }

  // ----- the theorems -----

  /** The leaves the kernel compares: the first three. */
  function ComparedLeaves(nodes: seq<Node>, root: nat): (leaves: seq<nat>)
    requires WellBuilt(nodes) && root < |nodes|
    ensures InRange(nodes, leaves)
  {
    RootLeaves(nodes, root)[..Compared(|RootLeaves(nodes, root)|)]
  }

  /** A leaf's mask bit: the verdict of a GT or LT leaf, and never of an EQ leaf. */
  predicate LeafTrue(nodes: seq<Node>, i: nat, row: Row, c: bool)
    requires WellBuilt(nodes) && i < |nodes|
  {
    nodes[i].kind != EQ && Verdict(nodes, i, row, c)
  }

  predicate AllTrue(nodes: seq<Node>, leaves: seq<nat>, row: Row, c: bool)
    requires WellBuilt(nodes) && InRange(nodes, leaves)
  {
    forall k | 0 <= k < |leaves| :: LeafTrue(nodes, leaves[k], row, c)
  }

  /** What the bit-sliced kernel answers for a row that gets carry-in c. */
  predicate Answer(nodes: seq<Node>, root: nat, row: Row, c: bool)
    requires WellBuilt(nodes) && root < |nodes|
  {
    AllTrue(nodes, ComparedLeaves(nodes, root), row, c)
  }

  /** Every well-kinded expression: bit r of the mask is the conjunction of the first three comparison
      leaves on row r, whatever the scratchpad held, and the caller's registers are restored.
      SUB on row r adds the complement and bit r of the carry word. */
  lemma SlicedKernel(nodes: seq<Node>, root: nat, subCarry: Word, program: seq<Instr>, rows: seq<Row>,
                     columns: Columns, s: State)
    returns (t: State, mask: Word)
    requires Compiled(nodes, root, subCarry, program) && WellKinded(nodes, Some(root))
    requires SlicedColumns(rows, FieldNames(nodes, root), columns) && Entry(s)
    ensures Reaches(program, columns, Running(0, s), Halted(t)) && t.regs[0] == Num(mask) && Returned(s, t)
    ensures forall r | 0 <= r < 64 :: Bit(mask, r) == Answer(nodes, root, rows[r], Bit(subCarry, r))
  {
    var b := Batch(nodes, rows, subCarry);
    SettingComparable(b, root, columns);
    t, mask := ProgramRuns(b, columns, Arithmetics(nodes, root), RootLeaves(nodes, root), s);
    hide Reaches, Compiled, Entry, Answer, Conjunction, Setting, Comparable;
    forall r | 0 <= r < 64 ensures Bit(mask, r) == Answer(nodes, root, rows[r], Bit(subCarry, r)) {
      ConjunctionAnswers(b, root, r);
    }
  }

  lemma ConjunctionAnswers(b: Batch, root: nat, r: nat)
    requires Ok(b) && root < |b.nodes| && r < 64
    ensures var leaves := RootLeaves(b.nodes, root);
            Conjunction(b, leaves, Compared(|leaves|), r) == Answer(b.nodes, root, b.rows[r], Bit(b.subCarry, r))
  {
    hide Bit, Eval, RootLeaves;
    var all, leaves := RootLeaves(b.nodes, root), ComparedLeaves(b.nodes, root);
    assert forall k | 0 <= k < |leaves| :: leaves[k] == all[k];
    assert forall k | 0 <= k < |leaves| ::
        LeafTrue(b.nodes, leaves[k], b.rows[r], Bit(b.subCarry, r))
        == (b.nodes[all[k]].kind != EQ && RowValue(b, all[k], r) == 1);
  }

  // ----- when the answer is the verdict -----

  /** Only leaves below AND are collected, so a true predicate makes every collected leaf true. */
  lemma {:induction false} LeavesNecessary(nodes: seq<Node>, i: nat, row: Row, c: bool, k: nat)
    requires WellBuilt(nodes) && i < |nodes| && WellKinded(nodes, Some(i)) && Verdict(nodes, i, row, c)
    requires k < |Leaves(nodes, Some(i))|
    ensures Leaves(nodes, Some(i))[k] < |nodes| && Verdict(nodes, Leaves(nodes, Some(i))[k], row, c)
    decreases i
  {
    OperandKinds(nodes, i);
    var n := nodes[i];
    if n.kind == AND {
      var l := |Leaves(nodes, n.left)|;
      if k < l {
        LeavesNecessary(nodes, n.left.value, row, c, k);
      } else {
        LeavesNecessary(nodes, n.right.value, row, c, k - l);
      }
    }
  }

  predicate ComparesEq(nodes: seq<Node>, root: nat)
    requires WellBuilt(nodes) && root < |nodes|
  {
    exists k | 0 <= k < |ComparedLeaves(nodes, root)| :: nodes[ComparedLeaves(nodes, root)[k]].kind == EQ
  }

  /** Exactly when the answer for a row is the verdict, for every well-kinded predicate: with an EQ leaf
      among the first three when the verdict is false; otherwise when it is true or one of the first
      three leaves is false. */
  lemma AnswerRightIff(nodes: seq<Node>, root: nat, row: Row, c: bool)
    requires WellBuilt(nodes) && root < |nodes| && WellKinded(nodes, Some(root))
    ensures var leaves := ComparedLeaves(nodes, root);
            Answer(nodes, root, row, c) == Verdict(nodes, root, row, c)
            <==> if ComparesEq(nodes, root) then !Verdict(nodes, root, row, c)
                 else Verdict(nodes, root, row, c)
                      || exists k | 0 <= k < |leaves| :: !Verdict(nodes, leaves[k], row, c)
  {
    var leaves := ComparedLeaves(nodes, root);
    if Verdict(nodes, root, row, c) {
      forall k | 0 <= k < |leaves| ensures Verdict(nodes, leaves[k], row, c) {
        LeavesNecessary(nodes, root, row, c, k);
      }
    }
    hide Verdict, Leaves;
    if Answer(nodes, root, row, c) {
      forall k | 0 <= k < |leaves| ensures nodes[leaves[k]].kind != EQ && Verdict(nodes, leaves[k], row, c) {
        assert LeafTrue(nodes, leaves[k], row, c);
      }
    }
  }

  /** An OR root has no leaves, so every row is answered with yes. */
  lemma OrRightIff(nodes: seq<Node>, root: nat, row: Row, c: bool)
    requires WellBuilt(nodes) && root < |nodes| && nodes[root].kind == OR
    ensures Answer(nodes, root, row, c) == Verdict(nodes, root, row, c) <==> Verdict(nodes, root, row, c)
  {
    assert RootLeaves(nodes, root) == [];
  }

  /** The leaves' truth from true values and drifts only. */
  predicate LeafJudged(nodes: seq<Node>, i: nat, row: Row, c: bool)
    requires WellBuilt(nodes)
  {
    i < |nodes| && nodes[i].kind != EQ && WellKinded(nodes, Some(i)) && Judged(nodes, i, row, c)
  }

  /** The answer from true values and drifts only. */
  predicate JudgedAnswer(nodes: seq<Node>, root: nat, row: Row, c: bool)
    requires WellBuilt(nodes) && root < |nodes|
  {
    forall k | 0 <= k < |ComparedLeaves(nodes, root)| :: LeafJudged(nodes, ComparedLeaves(nodes, root)[k], row, c)
  }

  lemma AnswerIsJudged(nodes: seq<Node>, root: nat, row: Row, c: bool)
    requires WellBuilt(nodes) && root < |nodes| && WellKinded(nodes, Some(root))
    ensures Answer(nodes, root, row, c) == JudgedAnswer(nodes, root, row, c)
  {
    var leaves := ComparedLeaves(nodes, root);
    forall k | 0 <= k < |leaves| ensures LeafTrue(nodes, leaves[k], row, c) == LeafJudged(nodes, leaves[k], row, c) {
      LeavesBelow(nodes, root, k);
      hide Judged, Leaves, Verdict;
      VerdictIsJudged(nodes, leaves[k], row, c);
    }
  }

  // ----- the fragment -----

  /** An AND-tree whose leaves are GT and LT comparisons. */
  predicate Conjunctive(nodes: seq<Node>, p: Option<nat>)
    requires WellBuilt(nodes) && Below(p, |nodes|)
    decreases if p.Some? then p.value + 1 else 0
  {
    p.Some? && WellKinded(nodes, p)
    && (assert NodeOk(nodes[p.value], p.value);
        var n := nodes[p.value];
        n.kind == GT || n.kind == LT || (n.kind == AND && Conjunctive(nodes, n.left) && Conjunctive(nodes, n.right)))
  }

  lemma AllTrueAppend(nodes: seq<Node>, a: seq<nat>, b: seq<nat>, row: Row, c: bool)
    requires WellBuilt(nodes) && InRange(nodes, a) && InRange(nodes, b)
    ensures InRange(nodes, a + b)
    ensures AllTrue(nodes, a + b, row, c) == (AllTrue(nodes, a, row, c) && AllTrue(nodes, b, row, c))
  {
    hide LeafTrue;
    if AllTrue(nodes, a + b, row, c) {
      forall k | 0 <= k < |a| ensures LeafTrue(nodes, a[k], row, c) { assert (a + b)[k] == a[k]; }
      forall k | 0 <= k < |b| ensures LeafTrue(nodes, b[k], row, c) { assert (a + b)[|a| + k] == b[k]; }
    }
  }

  /** An AND-tree holds exactly when all its leaves do. */
  lemma {:induction false} LeavesDecide(nodes: seq<Node>, i: nat, row: Row, c: bool)
    requires WellBuilt(nodes) && i < |nodes| && Conjunctive(nodes, Some(i))
    ensures InRange(nodes, Leaves(nodes, Some(i)))
    ensures Verdict(nodes, i, row, c) <==> AllTrue(nodes, Leaves(nodes, Some(i)), row, c)
    decreases i
  {
    assert NodeOk(nodes[i], i);
    LeavesInRange(nodes, Some(i));
    var n := nodes[i];
    if n.kind == AND {
      LeavesDecide(nodes, n.left.value, row, c);
      LeavesDecide(nodes, n.right.value, row, c);
      AllTrueAppend(nodes, Leaves(nodes, n.left), Leaves(nodes, n.right), row, c);
      hide AllTrue;
    } else {
      assert Leaves(nodes, Some(i)) == [i];
      OneTrue(nodes, i, row, c);
    }
  }

  lemma OneTrue(nodes: seq<Node>, i: nat, row: Row, c: bool)
    requires WellBuilt(nodes) && i < |nodes|
    ensures InRange(nodes, [i]) && AllTrue(nodes, [i], row, c) == LeafTrue(nodes, i, row, c)
  {
    var leaves := [i];
    assert leaves[0] == i;
    if AllTrue(nodes, leaves, row, c) { assert LeafTrue(nodes, leaves[0], row, c); }
  }

  /** The fragment the bit-sliced compiler is meant for: at most three GT/LT leaves joined by AND. */
  predicate InFragment(nodes: seq<Node>, root: nat)
    requires WellBuilt(nodes) && root < |nodes|
  {
    Conjunctive(nodes, Some(root)) && |RootLeaves(nodes, root)| <= MAX_COMPARISONS
  }

  lemma FragmentAnswered(nodes: seq<Node>, root: nat, row: Row, c: bool)
    requires WellBuilt(nodes) && root < |nodes| && InFragment(nodes, root)
    ensures Answer(nodes, root, row, c) == Verdict(nodes, root, row, c)
  {
    LeavesDecide(nodes, root, row, c);
    assert ComparedLeaves(nodes, root) == RootLeaves(nodes, root);
  }

  /** In the fragment a row is answered right when its carry bit is set or the predicate is steady. */
  lemma FragmentExact(nodes: seq<Node>, root: nat, row: Row, subCarry: Word, r: nat)
    requires WellBuilt(nodes) && root < |nodes| && InFragment(nodes, root) && r < 64
    requires subCarry == ALL_ONES || Steady(nodes, root)
    ensures Answer(nodes, root, row, Bit(subCarry, r)) == Verdict(nodes, root, row, true)
    ensures JudgedAnswer(nodes, root, row, Bit(subCarry, r)) == Verdict(nodes, root, row, true)
  {
    hide Answer, JudgedAnswer, Verdict;
    ConstantBits(r);
    FragmentAnswered(nodes, root, row, Bit(subCarry, r));
    AnswerIsJudged(nodes, root, row, Bit(subCarry, r));
    if subCarry != ALL_ONES { SteadyKept(nodes, root, row, Bit(subCarry, r)); }
  }

  /** In the fragment the mask is the expression's verdict on every row. */
  lemma SlicedKernelDecides(nodes: seq<Node>, root: nat, subCarry: Word, program: seq<Instr>, rows: seq<Row>,
                            columns: Columns, s: State)
    returns (t: State, mask: Word)
    requires Compiled(nodes, root, subCarry, program) && InFragment(nodes, root)
    requires SlicedColumns(rows, FieldNames(nodes, root), columns) && Entry(s)
    ensures Reaches(program, columns, Running(0, s), Halted(t)) && t.regs[0] == Num(mask) && Returned(s, t)
    ensures forall r | 0 <= r < 64 :: Bit(mask, r) == Verdict(nodes, root, rows[r], Bit(subCarry, r))
  {
    t, mask := SlicedKernel(nodes, root, subCarry, program, rows, columns, s);
    hide Reaches, Compiled, Entry, Answer, Verdict;
    forall r | 0 <= r < 64 ensures Bit(mask, r) == Verdict(nodes, root, rows[r], Bit(subCarry, r)) {
      FragmentAnswered(nodes, root, rows[r], Bit(subCarry, r));
    }
  }
}
