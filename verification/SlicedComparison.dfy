// The second loop of the bit-sliced kernel: comparators over bits 63 to 0, and their conjunction.
module SlicedComparison {
  import opened Words
  import opened Options
  import opened Machine
  import opened Ir
  import opened Analyzer
  import opened Allocation
  import opened CircuitLibrary
  import opened SlicedCompiler
  import opened Planes
  import opened SlicedSimulation

  /** The comparator step on machine words. */
  lemma GtRuns(columns: Columns, s: State, a: Reg, b: Reg, gt: Reg, eq: Reg, p: Word, q: Word, g: Word, e: Word)
    returns (t: State)
    requires 2 <= a <= 3 && 2 <= b <= 3 && 8 <= gt <= 13 && 8 <= eq <= 13 && gt != eq
    requires s.regs[a] == Num(p) && s.regs[b] == Num(q) && s.regs[gt] == Num(g) && s.regs[eq] == Num(e)
    ensures Exec(EmitGt64(a, b, gt, eq), columns, s) == Some(t)
    ensures t.regs[gt] == Num(Or(g, And(e, Bic(p, q)))) && t.regs[eq] == Num(Bic(e, Xor(p, q)))
    ensures OnlyRegs(s, t, {6, 7, gt, eq})
  {
    hide Exec1, Xor, And, Or, Bic;
    var s1 := s.Set(6, Num(Bic(p, q)));
    var s2 := s1.Set(7, Num(And(e, Bic(p, q))));
    var s3 := s2.Set(gt, Num(Or(g, And(e, Bic(p, q)))));
    var s4 := s3.Set(6, Num(Xor(p, q)));
    t := s4.Set(eq, Num(Bic(e, Xor(p, q))));
    AluRuns(columns, s, OpBic, 6, a, b);
    AluRuns(columns, s1, OpAnd, 7, eq, 6);
    AluRuns(columns, s2, OpOrr, gt, gt, 7);
    AluRuns(columns, s3, OpEor, 6, a, b);
    AluRuns(columns, s4, OpBic, eq, eq, 6);
    Exec3(Alu(OpBic, 6, a, b), Alu(OpAnd, 7, eq, 6), Alu(OpOrr, gt, gt, 7), columns, s);
    Exec2(Alu(OpEor, 6, a, b), Alu(OpBic, eq, eq, 6), columns, s3);
    ExecAppend([Alu(OpBic, 6, a, b), Alu(OpAnd, 7, eq, 6), Alu(OpOrr, gt, gt, 7)],
               [Alu(OpEor, 6, a, b), Alu(OpBic, eq, eq, 6)], columns, s);
  }

  // ----- one leaf -----

  /** A comparison with both operands present. */
  ghost predicate Compares(b: Batch, i: nat) {
    Ok(b) && i < |b.nodes| && IsComparison(b.nodes[i].kind)
    && b.nodes[i].left.Some? && b.nodes[i].right.Some? && b.nodes[i].left.value < |b.nodes|
    && b.nodes[i].right.value < |b.nodes|
  }

  /** The gt mask of a leaf after the bits from k up; LT swaps the operands, EQ never leaves zero. */
  function LeafGt(b: Batch, i: nat, k: nat): Word
    requires Compares(b, i)
  {
    var l, r := b.nodes[i].left.value, b.nodes[i].right.value;
    match b.nodes[i].kind
    case GT => GtPlane(b, l, r, k)
    case LT => GtPlane(b, r, l, k)
    case _ => 0
  }

  function LeafEq(b: Batch, i: nat, k: nat): Word
    requires Compares(b, i)
  {
    var l, r := b.nodes[i].left.value, b.nodes[i].right.value;
    match b.nodes[i].kind
    case GT => EqPlane(b, l, r, k)
    case LT => EqPlane(b, r, l, k)
    case _ => ALL_ONES
  }

  lemma LeafStarts(b: Batch, i: nat)
    requires Compares(b, i)
    ensures LeafGt(b, i, 64) == 0 && LeafEq(b, i, 64) == ALL_ONES
  {
    FirstComparison(b, b.nodes[i].left.value, b.nodes[i].right.value);
    FirstComparison(b, b.nodes[i].right.value, b.nodes[i].left.value);
  }

  /** What a leaf's gt mask says when all bits are done. */
  lemma LeafEnds(b: Batch, i: nat, r: nat)
    requires Compares(b, i) && r < 64
    ensures Bit(LeafGt(b, i, 0), r) == (b.nodes[i].kind != EQ && RowValue(b, i, r) == 1)
  {
    ConstantBits(r);
    assert NodeOk(b.nodes[i], i);
    var l, q := b.nodes[i].left.value, b.nodes[i].right.value;
    assert Bit(GtPlane(b, l, q, 0), r) == (RowValue(b, l, r) > RowValue(b, q, r));
    assert Bit(GtPlane(b, q, l, 0), r) == (RowValue(b, q, r) > RowValue(b, l, r));
    hide GtPlane, Bit;
  }

  /** The masks of leaf i stand at bit k in the registers of comparison c. */
  ghost predicate LeafAt(b: Batch, s: State, i: nat, c: nat, k: nat) {
    Compares(b, i) && c < MAX_COMPARISONS
    && s.regs[GtReg(c)] == Num(LeafGt(b, i, k)) && s.regs[EqReg(c)] == Num(LeafEq(b, i, k))
  }

  lemma LeafRuns(b: Batch, columns: Columns, s: State, i: nat, c: nat, k: nat) returns (t: State)
    requires LeafAt(b, s, i, c, k + 1) && Based(s, k)
    requires b.nodes[i].kind != EQ ==>
               Ready(b, columns, s, b.nodes[i].left.value, k) && Ready(b, columns, s, b.nodes[i].right.value, k)
    ensures Exec(CompareCode(b.nodes, i, c), columns, s) == Some(t)
    ensures LeafAt(b, t, i, c, k) && OnlyRegs(s, t, {2, 3, 4, 14, 6, 7, GtReg(c), EqReg(c)})
  {
    hide Plane, GtPlane, EqPlane, Exec, OperandCode, EmitGt64, Xor, And, Or, Bic;
    var n := b.nodes[i];
    assert NodeOk(n, i);
    if n.kind == EQ {
      t := s;
      NoCode(columns, s);
    } else {
      var x, y := n.left.value, n.right.value;
      var l, r := OperandCode(b.nodes, n.left, 2), OperandCode(b.nodes, n.right, 3);
      var s1 := LoadsOperand(b, columns, s, x, 2, k);
      var s2 := LoadsOperand(b, columns, s1, y, 3, k);
      var p, q := Plane(b, x, k), Plane(b, y, k);
      ExecAppend(l, r, columns, s);
      if n.kind == GT {
        t := GtRuns(columns, s2, 2, 3, GtReg(c), EqReg(c), p, q, GtPlane(b, x, y, k + 1), EqPlane(b, x, y, k + 1));
        ComparatorStep(b, x, y, k);
        ExecAppend(l + r, EmitGt64(2, 3, GtReg(c), EqReg(c)), columns, s);
      } else {
        t := GtRuns(columns, s2, 3, 2, GtReg(c), EqReg(c), q, p, GtPlane(b, y, x, k + 1), EqPlane(b, y, x, k + 1));
        ComparatorStep(b, y, x, k);
        ExecAppend(l + r, EmitGt64(3, 2, GtReg(c), EqReg(c)), columns, s);
      }
    }
  }

  lemma NoCode(columns: Columns, s: State)
    ensures Exec([], columns, s) == Some(s)
  {
  }

  // ----- all leaves, one bit -----

  /** The compared leaves and where their operands come from once the first loop is done. */
  ghost predicate Comparable(b: Batch, columns: Columns, arith: seq<nat>, leaves: seq<nat>) {
    Runnable(b, columns, arith) && InRange(b.nodes, leaves)
    && forall c | 0 <= c < Compared(|leaves|) :: LeafComparable(b, columns, arith, leaves[c])
  }

  ghost predicate LeafComparable(b: Batch, columns: Columns, arith: seq<nat>, i: nat) {
    Compares(b, i)
    && (b.nodes[i].kind != EQ ==>
          OperandOk(b, columns, arith, |arith|, b.nodes[i].left.value)
          && OperandOk(b, columns, arith, |arith|, b.nodes[i].right.value))
  }

  /** Every slot holds all 64 planes of its node. */
  ghost predicate SlotsDone(b: Batch, scratch: Scratchpad, arith: seq<nat>) {
    |scratch| == 512 && forall l | 0 <= l < |arith| :: SlotDone(b, scratch, arith[l])
  }

  ghost predicate SlotDone(b: Batch, scratch: Scratchpad, i: nat) {
    Adds(b, i) && |scratch| == 512 && b.nodes[i].resultKind == BITPLANE && 0 <= b.nodes[i].slotId < MAX_SLOTS
    && forall q | 0 <= q < 64 :: scratch[b.nodes[i].slotId * 64 + q] == Some(Plane(b, i, q))
  }

  lemma OperandDone(b: Batch, columns: Columns, s: State, arith: seq<nat>, i: nat, k: nat)
    requires OperandOk(b, columns, arith, |arith|, i) && k < 64 && SlotsDone(b, s.scratch, arith)
    ensures Ready(b, columns, s, i, k)
  {
    hide Plane;
    if b.nodes[i].kind != LOAD && b.nodes[i].kind != CONST {
      var j :| 0 <= j < |arith| && arith[j] == i;
      assert SlotDone(b, s.scratch, arith[j]);
    }
  }

  /** The first m leaves have taken bit k, the others stand at bit k + 1. */
  ghost predicate LeavesAt(b: Batch, s: State, leaves: seq<nat>, m: nat, k: nat) {
    forall c | 0 <= c < Compared(|leaves|) :: LeafAt(b, s, leaves[c], c, if c < m then k else k + 1)
  }

  lemma LeafStep(b: Batch, columns: Columns, arith: seq<nat>, leaves: seq<nat>, s: State, c: nat,
                 k: nat) returns (t: State)
    requires Comparable(b, columns, arith, leaves) && c < Compared(|leaves|)
    requires Based(s, k) && SlotsDone(b, s.scratch, arith) && LeavesAt(b, s, leaves, c, k)
    ensures Exec(CompareCode(b.nodes, leaves[c], c), columns, s) == Some(t)
    ensures Based(t, k) && t.scratch == s.scratch && t.stack == s.stack && LeavesAt(b, t, leaves, c + 1, k)
  {
    hide CompareCode, Exec, LeafGt, LeafEq, SlotsDone, Runnable;
    var i := leaves[c];
    assert LeafComparable(b, columns, arith, leaves[c]);
    assert LeafAt(b, s, leaves[c], c, k + 1);
    if b.nodes[i].kind != EQ {
      OperandDone(b, columns, s, arith, b.nodes[i].left.value, k);
      OperandDone(b, columns, s, arith, b.nodes[i].right.value, k);
    }
    t := LeafRuns(b, columns, s, i, c, k);
    LeavesStep(b, s, t, leaves, c, k);
  }

  lemma LeavesStep(b: Batch, s: State, t: State, leaves: seq<nat>, c: nat, k: nat)
    requires LeavesAt(b, s, leaves, c, k) && c < Compared(|leaves|) && LeafAt(b, t, leaves[c], c, k)
    requires OnlyRegs(s, t, {2, 3, 4, 14, 6, 7, GtReg(c), EqReg(c)})
    ensures LeavesAt(b, t, leaves, c + 1, k)
  {
    hide Compares, LeafGt, LeafEq;
    forall d | 0 <= d < Compared(|leaves|) ensures LeafAt(b, t, leaves[d], d, if d < c + 1 then k else k + 1) {
      if d != c { LeafKept(b, s, t, leaves[d], d, if d < c then k else k + 1); }
    }
  }

  lemma {:induction false} CompareBitsRun(b: Batch, columns: Columns, arith: seq<nat>, leaves: seq<nat>, s: State,
                                          m: nat, k: nat)
    returns (t: State)
    requires Comparable(b, columns, arith, leaves) && m <= Compared(|leaves|)
    requires Based(s, k) && SlotsDone(b, s.scratch, arith) && LeavesAt(b, s, leaves, 0, k)
    ensures Exec(CompareBits(b.nodes, leaves, m), columns, s) == Some(t)
    ensures Based(t, k) && t.scratch == s.scratch && t.stack == s.stack && LeavesAt(b, t, leaves, m, k)
    decreases m
  {
    if m == 0 {
      t := s;
    } else {
      var u := CompareBitsRun(b, columns, arith, leaves, s, m - 1, k);
      t := LeafStep(b, columns, arith, leaves, u, m - 1, k);
      hide CompareCode, SlotsDone, LeavesAt, Comparable;
      ExecAppend(CompareBits(b.nodes, leaves, m - 1), CompareCode(b.nodes, leaves[m - 1], m - 1), columns, s);
    }
  }

  // ----- the loop -----

  /** The state between two turns: bits from k up are done; the counter holds the next bit. */
  ghost predicate CompareInv(b: Batch, s: State, arith: seq<nat>, leaves: seq<nat>, k: nat) {
    s.regs[19] == Ptr(FieldTable, 0) && s.regs[20] == Ptr(Scratch, 0)
    && SlotsDone(b, s.scratch, arith) && k <= 64 && s.regs[15] == Num(if k == 0 then ALL_ONES else k - 1)
    && forall c | 0 <= c < Compared(|leaves|) :: LeafAt(b, s, leaves[c], c, k)
  }

  lemma CountsDown(columns: Columns, s: State, k: nat)
    requires k < 64 && s.regs[15] == Num(k)
    ensures Exec1(SubImm(15, 15, 1), columns, s) == Some(s.Set(15, Num(if k == 0 then ALL_ONES else k - 1)))
  {
  }

  lemma NextLowerBit(b: Batch, s: State, t: State, arith: seq<nat>, leaves: seq<nat>, k: nat)
    requires Based(s, k) && SlotsDone(b, s.scratch, arith) && LeavesAt(b, s, leaves, Compared(|leaves|), k)
    requires t == s.Set(15, Num(if k == 0 then ALL_ONES else k - 1))
    ensures CompareInv(b, t, arith, leaves, k)
  {
    hide SlotsDone, LeafGt, LeafEq, Compares;
    forall c | 0 <= c < Compared(|leaves|) ensures LeafAt(b, t, leaves[c], c, k) {
      assert LeafAt(b, s, leaves[c], c, k);
    }
  }

  lemma CompareTurn(b: Batch, columns: Columns, arith: seq<nat>, leaves: seq<nat>, g: State, k: nat) returns (v: State)
    requires Comparable(b, columns, arith, leaves) && CompareInv(b, g, arith, leaves, k + 1) && k < 64
    ensures Exec(CompareLoop(b.nodes, leaves).body, columns, g) == Some(v)
    ensures CompareInv(b, v, arith, leaves, k) && v.stack == g.stack
  {
    assert LeavesAt(b, g, leaves, 0, k);
    hide Comparable, SlotsDone, LeafAt, Exec;
    var n := Compared(|leaves|);
    var u := CompareBitsRun(b, columns, arith, leaves, g, n, k);
    v := u.Set(15, Num(if k == 0 then ALL_ONES else k - 1));
    NextLowerBit(b, u, v, arith, leaves, k);
    CountsDown(columns, u, k);
    ExecSnoc(CompareBits(b.nodes, leaves, n), SubImm(15, 15, 1), columns, g, u, v);
  }

  /** Sixty-four turns, most significant bit first, finish every comparison. */
  lemma {:induction false} CompareRuns(b: Batch, columns: Columns, arith: seq<nat>, leaves: seq<nat>, s: State, k: nat)
    returns (t: State)
    requires WellBuilt(b.nodes) && InRange(b.nodes, leaves)
    requires Comparable(b, columns, arith, leaves) && CompareInv(b, s, arith, leaves, k)
    ensures Loops(CompareLoop(b.nodes, leaves), columns, s, k + 1) == Some(t)
    ensures CompareInv(b, t, arith, leaves, 0) && t.stack == s.stack
    decreases k
  {
    hide Comparable, CompareInv, Loops, Exec, Holds, CompareBits;
    var lp := CompareLoop(b.nodes, leaves);
    var g := CompareGuard(b, columns, s, arith, leaves, k);
    if k == 0 {
      t := g;
      LoopsExit(lp, columns, s, 1);
    } else {
      var v := CompareTurn(b, columns, arith, leaves, g, k - 1);
      t := CompareRuns(b, columns, arith, leaves, v, k - 1);
      LoopsAgain(lp, columns, s, v, k);
    }
  }

  /** The signed test on the wrapped counter leaves the loop exactly after bit 0. */
  lemma CompareGuard(b: Batch, columns: Columns, s: State, arith: seq<nat>, leaves: seq<nat>, k: nat) returns (g: State)
    requires Comparable(b, columns, arith, leaves) && CompareInv(b, s, arith, leaves, k)
    ensures var lp := CompareLoop(b.nodes, leaves);
            s.Get(lp.counter).Num? && Holds(lp.exit, (s.Get(lp.counter).word, lp.bound)) == (k == 0)
                && g == Guarded(lp, s)
    ensures CompareInv(b, g, arith, leaves, k) && g.stack == s.stack
  {
    g := Guarded(CompareLoop(b.nodes, leaves), s);
    GuardKeepsLeaves(b, s, g, arith, leaves, k);
  }

  lemma GuardKeepsLeaves(b: Batch, s: State, g: State, arith: seq<nat>, leaves: seq<nat>, k: nat)
    requires CompareInv(b, s, arith, leaves, k) && g.regs == s.regs && g.scratch == s.scratch
    ensures CompareInv(b, g, arith, leaves, k)
  {
    forall c | 0 <= c < Compared(|leaves|) ensures LeafAt(b, g, leaves[c], c, k) {
      assert LeafAt(b, s, leaves[c], c, k);
    }
  }

  lemma LeafKept(b: Batch, s: State, t: State, i: nat, c: nat, k: nat)
    requires LeafAt(b, s, i, c, k) && t.regs[GtReg(c)] == s.regs[GtReg(c)] && t.regs[EqReg(c)] == s.regs[EqReg(c)]
    ensures LeafAt(b, t, i, c, k)
  {
  }

  lemma LeafInitRuns(columns: Columns, s: State, c: nat) returns (t: State)
    requires c < MAX_COMPARISONS
    ensures Exec([MovImm(GtReg(c), 0), Mvn(EqReg(c), XZR)], columns, s) == Some(t)
    ensures t.regs[GtReg(c)] == Num(0) && t.regs[EqReg(c)] == Num(ALL_ONES) && OnlyRegs(s, t, {GtReg(c), EqReg(c)})
  {
    var i, j := MovImm(GtReg(c), 0), Mvn(EqReg(c), XZR);
    var u := s.Set(GtReg(c), Num(0));
    t := u.Set(EqReg(c), Num(ALL_ONES));
    assert Exec1(i, columns, s) == Some(u);
    assert Exec1(j, columns, u) == Some(t);
    hide Exec1;
    Exec2(i, j, columns, s);
  }

  /** The first n comparisons start with nothing greater and everything equal. */
  ghost predicate LeavesStart(b: Batch, t: State, leaves: seq<nat>, n: nat) {
    n <= |leaves| && forall c | 0 <= c < n :: LeafAt(b, t, leaves[c], c, 64)
  }

  lemma LeavesStartStep(b: Batch, u: State, t: State, leaves: seq<nat>, n: nat)
    requires n < Compared(|leaves|) && Compares(b, leaves[n]) && LeavesStart(b, u, leaves, n)
    requires t.regs[GtReg(n)] == Num(0) && t.regs[EqReg(n)] == Num(ALL_ONES) && OnlyRegs(u, t, {GtReg(n), EqReg(n)})
    ensures LeavesStart(b, t, leaves, n + 1)
  {
    hide LeafGt, LeafEq, Compares;
    LeafStarts(b, leaves[n]);
    forall c | 0 <= c < n + 1 ensures LeafAt(b, t, leaves[c], c, 64) {
      if c < n { LeafKept(b, u, t, leaves[c], c, 64); }
    }
  }

  lemma NoLeaves(b: Batch, t: State, leaves: seq<nat>)
    ensures LeavesStart(b, t, leaves, 0)
  {
  }

  lemma {:induction false} CompareInitRuns(b: Batch, columns: Columns, leaves: seq<nat>, s: State,
                                           n: nat) returns (t: State)
    requires n <= Compared(|leaves|) && forall c | 0 <= c < n :: Compares(b, leaves[c])
    ensures Exec(CompareInit(n), columns, s) == Some(t)
    ensures t.scratch == s.scratch && t.stack == s.stack && forall r: Reg | r >= 14 :: t.regs[r] == s.regs[r]
    ensures LeavesStart(b, t, leaves, n)
    decreases n
  {
    hide LeafAt, Compares, Exec, LeavesStart;
    if n == 0 {
      t := s;
      NoLeaves(b, s, leaves);
      NoCode(columns, s);
    } else {
      var u := CompareInitRuns(b, columns, leaves, s, n - 1);
      t := LeafInitRuns(columns, u, n - 1);
      LeavesStartStep(b, u, t, leaves, n - 1);
      ExecAppend(CompareInit(n - 1), [MovImm(GtReg(n - 1), 0), Mvn(EqReg(n - 1), XZR)], columns, s);
    }
  }

  // ----- the conjunction -----

  /** Row r satisfies the first n leaves, where an EQ leaf counts as false. */
  ghost predicate Conjunction(b: Batch, leaves: seq<nat>, n: nat, r: nat)
    requires Ok(b) && InRange(b.nodes, leaves) && n <= |leaves| && r < 64
  {
    forall c | 0 <= c < n :: b.nodes[leaves[c]].kind != EQ && RowValue(b, leaves[c], r) == 1
  }

  lemma ConjunctionStep(b: Batch, leaves: seq<nat>, n: nat, r: nat)
    requires Ok(b) && InRange(b.nodes, leaves) && 0 < n <= |leaves| && r < 64 && Compares(b, leaves[n - 1])
    ensures Conjunction(b, leaves, n, r) == (Conjunction(b, leaves, n - 1, r) && Bit(LeafGt(b, leaves[n - 1], 0), r))
  {
    LeafEnds(b, leaves[n - 1], r);
    hide LeafGt, RowValue, Bit;
  }

  lemma {:induction false} FoldRuns(b: Batch, columns: Columns, leaves: seq<nat>, s: State, n: nat) returns (t: State,
                                    mask: Word)
    requires Ok(b) && InRange(b.nodes, leaves) && n <= Compared(|leaves|)
    requires forall c | 0 <= c < n :: LeafAt(b, s, leaves[c], c, 0)
    ensures Exec(FoldCode(n), columns, s) == Some(t) && t == s.Set(0, Num(mask))
    ensures forall r | 0 <= r < 64 :: Bit(mask, r) == Conjunction(b, leaves, n, r)
    decreases n
  {
    hide LeafGt, LeafEq, Conjunction, Compares;
    if n == 0 {
      mask := ALL_ONES;
      t := s.Set(0, Num(mask));
      ExecOne(MovImm(0, ALL_ONES), columns, s);
      EmptyConjunction(b, leaves);
    } else {
      assert LeafAt(b, s, leaves[n - 1], n - 1, 0);
      var leaf := LeafGt(b, leaves[n - 1], 0);
      forall r | 0 <= r < 64
        ensures Conjunction(b, leaves, n, r) == (Conjunction(b, leaves, n - 1, r) && Bit(leaf, r))
      {
        ConjunctionStep(b, leaves, n, r);
      }
      if n == 1 {
        mask := leaf;
        t := s.Set(0, Num(mask));
        ExecOne(MovReg(0, GtReg(0)), columns, s);
        EmptyConjunction(b, leaves);
      } else {
        var u, m := FoldRuns(b, columns, leaves, s, n - 1);
        mask := And(m, leaf);
        t := FoldStep(columns, s, m, leaf, n);
      }
    }
  }

  lemma EmptyConjunction(b: Batch, leaves: seq<nat>)
    requires Ok(b) && InRange(b.nodes, leaves)
    ensures forall r | 0 <= r < 64 :: Conjunction(b, leaves, 0, r) && Bit(ALL_ONES, r)
  {
    forall r | 0 <= r < 64 ensures Conjunction(b, leaves, 0, r) && Bit(ALL_ONES, r) { ConstantBits(r); }
  }

  lemma FoldStep(columns: Columns, s: State, m: Word, leaf: Word, n: nat) returns (t: State)
    requires 1 < n <= MAX_COMPARISONS && s.regs[GtReg(n - 1)] == Num(leaf)
    requires Exec(FoldCode(n - 1), columns, s) == Some(s.Set(0, Num(m)))
    ensures t == s.Set(0, Num(And(m, leaf))) && Exec(FoldCode(n), columns, s) == Some(t)
  {
    hide And;
    var u := s.Set(0, Num(m));
    t := u.Set(0, Num(And(m, leaf)));
    assert Exec1(Alu(OpAnd, 0, 0, GtReg(n - 1)), columns, u) == Some(t);
    ExecSnoc(FoldCode(n - 1), Alu(OpAnd, 0, 0, GtReg(n - 1)), columns, s, u, t);
    SetAgain(s, 0, Num(m), Num(And(m, leaf)));
  }
}
