// The scalar compiler is correct: its program sets bit r of the mask exactly when the expression
// holds of row r.
module ScalarCorrectness {
  import opened Words
  import opened Options
  import opened Machine
  import opened Ir
  import opened Analyzer
  import opened Allocation
  import opened SlicedCompiler
  import opened SlicedCorrectness
  import opened SlicedLaw
  import opened ScalarCompiler

  /** Column f holds the values of field f, one per row. */
  ghost predicate GatheredColumns(rows: seq<Row>, names: seq<string>, columns: Columns) {
    |rows| == 64 && |columns| == |names| && forall f | 0 <= f < |names| :: GatheredColumn(rows, names[f], columns[f])
  }

  ghost predicate GatheredColumn(rows: seq<Row>, name: string, values: seq<Word>)
    requires |rows| == 64
  {
    |values| == 64 && forall r | 0 <= r < 64 :: values[r] == Lookup(rows[r], name)
  }

  /** A compiled expression and its columns. */
  ghost predicate ScalarSetting(nodes: seq<Node>, root: nat, rows: seq<Row>, columns: Columns) {
    WellBuilt(nodes) && root < |nodes| && WellKinded(nodes, Some(root)) && |rows| == 64
    && FieldsBound(nodes, Loads(nodes, root), FieldNames(nodes, root)) && |FieldNames(nodes, root)| <= MAX_FIELDS
    && |Order(nodes, root)| <= 512 && GatheredColumns(rows, FieldNames(nodes, root), columns)
  }

  /** The value the kernel computes for node i: SUB is subtraction. */
  function Value(nodes: seq<Node>, i: nat, row: Row): Word
    requires WellBuilt(nodes) && i < |nodes|
  {
    Eval(nodes, i, row, true)
  }

  // ----- operands -----

  ghost predicate AtRow(s: State, r: int) {
    |s.scratch| == 512 && s.regs[0] == Ptr(FieldTable, 0) && s.regs[1] == Ptr(Scratch, 0)
    && 0 <= r < 64 && s.regs[20] == Num(r)
  }

  /** The nodes listed before position k have their values on row r in the scratchpad. */
  ghost predicate Computed(nodes: seq<Node>, order: seq<nat>, row: Row, s: State, k: nat) {
    WellBuilt(nodes) && InRange(nodes, order) && k <= |order| <= 512 && |s.scratch| == 512
    && forall j | 0 <= j < k :: s.scratch[j] == Some(Value(nodes, order[j], row))
  }

  lemma LoadsField(columns: Columns, s: State, f: nat, out: Reg, r: nat) returns (t: State)
    requires AtRow(s, r) && 2 <= out <= 5 && out != 4 && f < |columns| <= 8 && |columns[f]| == 64
    ensures Exec([LdrImm(4, 0, f * 8), LdrScaled(out, 4, 20)], columns, s) == Some(t)
    ensures t.regs[out] == Num(columns[f][r]) && OnlyRegs(s, t, {4, out})
  {
    ShlByThree(r);
    hide Shl;
    var s1 := s.Set(4, Ptr(Column(f), 0));
    t := s1.Set(out, Num(columns[f][r]));
    assert Exec1(LdrImm(4, 0, f * 8), columns, s) == Some(s1);
    assert Exec1(LdrScaled(out, 4, 20), columns, s1) == Some(t);
    hide Exec1;
    Exec2(LdrImm(4, 0, f * 8), LdrScaled(out, 4, 20), columns, s);
  }

  lemma LoadsScratch(columns: Columns, s: State, j: nat, out: Reg, r: nat) returns (t: State)
    requires AtRow(s, r) && 2 <= out <= 5 && j < 512 && s.scratch[j].Some?
    ensures Exec([LdrImm(out, 1, j * 8)], columns, s) == Some(t)
    ensures t.regs[out] == Num(s.scratch[j].value) && OnlyRegs(s, t, {4, out})
  {
    t := s.Set(out, Num(s.scratch[j].value));
    ExecOne(LdrImm(out, 1, j * 8), columns, s);
  }

  lemma FieldColumn(nodes: seq<Node>, root: nat, rows: seq<Row>, columns: Columns, x: nat)
    requires ScalarSetting(nodes, root, rows, columns) && x in Order(nodes, root) && x < |nodes|
    requires nodes[x].kind == LOAD
    ensures 0 <= nodes[x].fieldIdx < |columns| <= 8 && |columns[nodes[x].fieldIdx]| == 64
    ensures forall r | 0 <= r < 64 :: columns[nodes[x].fieldIdx][r] == Value(nodes, x, rows[r])
  {
    OfKindMembers(nodes, Order(nodes, root), {LOAD});
    var loads, names := Loads(nodes, root), FieldNames(nodes, root);
    var l :| 0 <= l < |loads| && loads[l] == x;
    assert FieldBound(nodes, loads[l], names);
    assert GatheredColumn(rows, names[nodes[x].fieldIdx], columns[nodes[x].fieldIdx]);
    assert NodeOk(nodes[x], x);
  }

  /** An operand listed before position k is found: the search never falls back to position 0. */
  lemma LoadsValue(nodes: seq<Node>, root: nat, rows: seq<Row>, columns: Columns, s: State, k: nat, x: nat, out: Reg,
                   r: nat)
    returns (t: State)
    requires ScalarSetting(nodes, root, rows, columns) && k <= |Order(nodes, root)| && x in Order(nodes, root)
    requires x < |nodes|
    requires nodes[x].kind != LOAD && nodes[x].kind != CONST ==> x in Order(nodes, root)[..k]
    requires AtRow(s, r) && Computed(nodes, Order(nodes, root), rows[r], s, k) && 2 <= out <= 5 && out != 4
    ensures Exec(ValueCode(nodes, Order(nodes, root), k, Some(x), out), columns, s) == Some(t)
    ensures t.regs[out] == Num(Value(nodes, x, rows[r])) && OnlyRegs(s, t, {4, out})
  {
    hide Exec;
    var order := Order(nodes, root);
    assert NodeOk(nodes[x], x);
    if nodes[x].kind == LOAD {
      FieldColumn(nodes, root, rows, columns, x);
      t := LoadsField(columns, s, nodes[x].fieldIdx, out, r);
    } else if nodes[x].kind == CONST {
      t := s.Set(out, Num(ToWord(nodes[x].constValue)));
      MovImm64Loads(out, ToWord(nodes[x].constValue), columns, s);
    } else {
      t := LoadsScratch(columns, s, FirstIndex(order[..k], x), out, r);
    }
  }

  // ----- operations -----

  lemma BitsOfFlags(x: Word, y: Word)
    requires x <= 1 && y <= 1
    ensures And(x, y) == Int(x == 1 && y == 1) && Or(x, y) == Int(x == 1 || y == 1)
  {
    forall i | 0 <= i < 64
      ensures Bit(And(x, y), i) == Bit(Int(x == 1 && y == 1), i) && Bit(Or(x, y), i) == Bit(Int(x == 1 || y == 1), i)
    {
      ConstantBits(i);
    }
    WordsEqual(And(x, y), Int(x == 1 && y == 1));
    WordsEqual(Or(x, y), Int(x == 1 || y == 1));
  }

  lemma ComparisonRuns(columns: Columns, s: State, kind: NodeKind, x: Word, y: Word) returns (t: State)
    requires IsComparison(kind) && s.regs[2] == Num(x) && s.regs[3] == Num(y)
    ensures Exec(OperationCode(kind), columns, s) == Some(t)
    ensures t.regs[5] == Num(Int(if kind == GT then x > y else if kind == LT then x < y else x == y))
    ensures OnlyRegs(s, t, {5})
  {
    var f := s.(flags := (x, y));
    var holds := if kind == GT then x > y else if kind == LT then x < y else x == y;
    t := f.Set(5, Num(Int(holds)));
    var flag := OperationCode(kind)[1];
    assert Exec1(Cmp(2, 3), columns, s) == Some(f);
    assert Exec1(flag, columns, f) == Some(t);
    hide Exec1;
    Exec2(Cmp(2, 3), flag, columns, s);
  }

  lemma CombinationRuns(columns: Columns, s: State, kind: NodeKind, x: Word, y: Word) returns (t: State)
    requires kind in {ADD, SUB, AND, OR} && s.regs[2] == Num(x) && s.regs[3] == Num(y)
    ensures Exec(OperationCode(kind), columns, s) == Some(t)
    ensures t.regs[5] == Num(if kind == ADD then (x + y) % WORD_MOD else if kind == SUB then (x - y) % WORD_MOD
                             else if kind == AND then And(x, y) else Or(x, y))
    ensures OnlyRegs(s, t, {5})
  {
    hide And, Or;
    var v := if kind == ADD then (x + y) % WORD_MOD else if kind == SUB then (x - y) % WORD_MOD
             else if kind == AND then And(x, y) else Or(x, y);
    t := s.Set(5, Num(v));
    ExecOne(OperationCode(kind)[0], columns, s);
  }

  /** Each operation's code computes the node's operation; masks are combined bitwise. */
  lemma OperationRuns(columns: Columns, s: State, n: Node, x: Word, y: Word, row: Row) returns (t: State)
    requires n.kind in {ADD, SUB, GT, LT, EQ, AND, OR} && s.regs[2] == Num(x) && s.regs[3] == Num(y)
    requires n.kind in {AND, OR} ==> x <= 1 && y <= 1
    ensures Exec(OperationCode(n.kind), columns, s) == Some(t)
    ensures t.regs[5] == Num(Apply(n, x, y, row, true)) && OnlyRegs(s, t, {5})
  {
    hide Exec, OperationCode, And, Or;
    ComplementSubtracts(x, y);
    if n.kind in {AND, OR} { BitsOfFlags(x, y); }
    if IsComparison(n.kind) {
      t := ComparisonRuns(columns, s, n.kind, x, y);
    } else {
      t := CombinationRuns(columns, s, n.kind, x, y);
    }
  }

  // ----- one node, one row -----

  /** A mask node's value is 0 or 1. */
  lemma MaskIsFlag(nodes: seq<Node>, i: nat, row: Row)
    requires WellBuilt(nodes) && i < |nodes| && WellKinded(nodes, Some(i))
    ensures Value(nodes, i, row) <= 1
  {
    assert NodeOk(nodes[i], i);
  }

  /** The k-th node of the walk: its kind is supported and its operands stand before it. */
  ghost predicate Listed(nodes: seq<Node>, order: seq<nat>, k: nat) {
    WellBuilt(nodes) && InRange(nodes, order) && k < |order| && NodeOk(nodes[order[k]], order[k])
    && var n := nodes[order[k]];
       if n.kind in {LOAD, CONST} then n.left.None? && n.right.None?
       else n.kind in {ADD, SUB, GT, LT, EQ, AND, OR}
            && n.left.Some? && n.right.Some? && n.left.value in order[..k] && n.right.value in order[..k]
            && (n.kind in {AND, OR} ==> WellKinded(nodes, n.left) && WellKinded(nodes, n.right))
  }

  lemma EveryNodeListed(nodes: seq<Node>, root: nat, k: nat)
    requires WellBuilt(nodes) && root < |nodes| && WellKinded(nodes, Some(root)) && k < |Order(nodes, root)|
    ensures Listed(nodes, Order(nodes, root), k)
  {
    var order := Order(nodes, root);
    var i := order[k];
    WalkFromRoot(nodes, root);
    assert i in order;
    WellKindedBelow(nodes, root, i);
    OperandKinds(nodes, i);
    hide Order, Arithmetic, WellKinded;
    assert OperandsBefore(nodes, order, k) && NodeOk(nodes[i], i);
  }

  lemma StoresValue(columns: Columns, s: State, k: nat, w: Word) returns (t: State)
    requires |s.scratch| == 512 && s.regs[1] == Ptr(Scratch, 0) && s.regs[5] == Num(w) && k < 512
    ensures Exec([StrImm(5, 1, k * 8)], columns, s) == Some(t) && t == s.(scratch := s.scratch[k := Some(w)])
  {
    t := s.(scratch := s.scratch[k := Some(w)]);
    ExecOne(StrImm(5, 1, k * 8), columns, s);
  }

  /** The value part of a node's code leaves its value in x5. */
  lemma NodeValue(nodes: seq<Node>, root: nat, rows: seq<Row>, columns: Columns, s: State, k: nat,
                  r: nat) returns (t: State)
    requires ScalarSetting(nodes, root, rows, columns) && Listed(nodes, Order(nodes, root), k)
    requires AtRow(s, r) && Computed(nodes, Order(nodes, root), rows[r], s, k)
    ensures var order := Order(nodes, root);
            var n := nodes[order[k]];
            Exec(ValueCode(nodes, order, k, n.left, 2) + ValueCode(nodes, order, k, n.right, 3)
                 + (if n.kind == LOAD || n.kind == CONST then ValueCode(nodes, order, k, Some(order[k]), 5)
                    else OperationCode(n.kind)),
                 columns, s) == Some(t)
    ensures t.regs[5] == Num(Value(nodes, Order(nodes, root)[k], rows[r])) && OnlyRegs(s, t, {2, 3, 4, 5})
  {
    hide Exec, OperationCode, GatheredColumns, FieldsBound, Order, Loads;
    var order := Order(nodes, root);
    var i := order[k];
    var n := nodes[i];
    var l, q := ValueCode(nodes, order, k, n.left, 2), ValueCode(nodes, order, k, n.right, 3);
    if n.kind == LOAD || n.kind == CONST {
      assert l + q == [];
      assert l + q + ValueCode(nodes, order, k, Some(i), 5) == ValueCode(nodes, order, k, Some(i), 5);
      t := LoadsValue(nodes, root, rows, columns, s, k, i, 5, r);
    } else {
      BeforeIsIn(order, k, n.left.value);
      BeforeIsIn(order, k, n.right.value);
      var s1 := LoadsValue(nodes, root, rows, columns, s, k, n.left.value, 2, r);
      var s2 := LoadsValue(nodes, root, rows, columns, s1, k, n.right.value, 3, r);
      var x, y := Value(nodes, n.left.value, rows[r]), Value(nodes, n.right.value, rows[r]);
      if n.kind in {AND, OR} {
        MaskIsFlag(nodes, n.left.value, rows[r]);
        MaskIsFlag(nodes, n.right.value, rows[r]);
      }
      t := OperationRuns(columns, s2, n, x, y, rows[r]);
      ExecAppend(l, q, columns, s);
      ExecAppend(l + q, OperationCode(n.kind), columns, s);
    }
  }

  lemma BeforeIsIn(order: seq<nat>, k: nat, x: nat)
    requires k <= |order| && x in order[..k]
    ensures x in order
  {
  }

  /** Between the nodes of a row: pointers and row number kept, values so far in the scratchpad. */
  ghost predicate InRow(nodes: seq<Node>, order: seq<nat>, row: Row, s: State, k: nat, r: nat, mask: Word,
                        stack: seq<Val>) {
    AtRow(s, r) && Computed(nodes, order, row, s, k) && s.regs[19] == Num(mask) && s.stack == stack
    && (k > 0 ==> s.regs[5] == Num(Value(nodes, order[k - 1], row)))
  }

  /** The callee-saved registers the kernel never touches. */
  ghost predicate HighKept(s: State, t: State) {
    forall q: Reg | 21 <= q <= 28 :: t.regs[q] == s.regs[q]
  }

  lemma StepRuns(nodes: seq<Node>, root: nat, rows: seq<Row>, columns: Columns, s: State, k: nat, r: nat, mask: Word)
    returns (t: State)
    requires ScalarSetting(nodes, root, rows, columns) && k < |Order(nodes, root)| && r < 64
    requires InRow(nodes, Order(nodes, root), rows[r], s, k, r, mask, s.stack)
    ensures Exec(StepCode(nodes, Order(nodes, root), k), columns, s) == Some(t)
    ensures InRow(nodes, Order(nodes, root), rows[r], t, k + 1, r, mask, s.stack) && HighKept(s, t)
  {
    hide Exec, ValueCode, OperationCode, Value, Order;
    EveryNodeListed(nodes, root, k);
    var order := Order(nodes, root);
    var n := nodes[order[k]];
    var u := NodeValue(nodes, root, rows, columns, s, k, r);
    t := StoresValue(columns, u, k, Value(nodes, order[k], rows[r]));
    var value := ValueCode(nodes, order, k, n.left, 2) + ValueCode(nodes, order, k, n.right, 3)
                 + (if n.kind == LOAD || n.kind == CONST then ValueCode(nodes, order, k, Some(order[k]), 5)
                    else OperationCode(n.kind));
    ExecAppend(value, [StrImm(5, 1, k * 8)], columns, s);
  }

  lemma {:induction false} RowRuns(nodes: seq<Node>, root: nat, rows: seq<Row>, columns: Columns, s: State, k: nat,
                                   r: nat, mask: Word)
    returns (t: State)
    requires WellBuilt(nodes) && root < |nodes| && |rows| == 64
    requires ScalarSetting(nodes, root, rows, columns) && k <= |Order(nodes, root)| && r < 64
    requires InRow(nodes, Order(nodes, root), rows[r], s, 0, r, mask, s.stack)
    ensures Exec(RowCode(nodes, Order(nodes, root), k), columns, s) == Some(t)
    ensures InRow(nodes, Order(nodes, root), rows[r], t, k, r, mask, s.stack) && HighKept(s, t)
    decreases k
  {
    hide StepCode, ScalarSetting, InRow;
    if k == 0 {
      t := s;
    } else {
      var u := RowRuns(nodes, root, rows, columns, s, k - 1, r, mask);
      SameStack(nodes, Order(nodes, root), rows[r], u, k - 1, r, mask, s.stack);
      t := StepRuns(nodes, root, rows, columns, u, k - 1, r, mask);
      ExecAppend(RowCode(nodes, Order(nodes, root), k - 1), StepCode(nodes, Order(nodes, root), k - 1), columns, s);
    }
  }

  lemma SameStack(nodes: seq<Node>, order: seq<nat>, row: Row, u: State, k: nat, r: nat, mask: Word, stack: seq<Val>)
    requires InRow(nodes, order, row, u, k, r, mask, stack)
    ensures u.stack == stack && WellBuilt(nodes)
  {
  }

  // ----- the loop over rows -----

  /** The verdicts of the rows before r, one bit each. */
  function MaskTo(nodes: seq<Node>, root: nat, rows: seq<Row>, r: nat): (w: Word)
    requires WellBuilt(nodes) && root < |nodes| && |rows| == 64
    ensures forall q | 0 <= q < 64 :: Bit(w, q) == (q < r && Verdict(nodes, root, rows[q], true))
  {
    Pack(seq(64, q requires 0 <= q < 64 => q < r && Verdict(nodes, root, rows[q], true)))
  }

  lemma MaskGrows(nodes: seq<Node>, root: nat, rows: seq<Row>, r: nat)
    requires WellBuilt(nodes) && root < |nodes| && |rows| == 64 && r < 64 && WellKinded(nodes, Some(root))
    ensures Or(MaskTo(nodes, root, rows, r), Shl(Value(nodes, root, rows[r]), r)) == MaskTo(nodes, root, rows, r + 1)
  {
    var v := Value(nodes, root, rows[r]);
    MaskIsFlag(nodes, root, rows[r]);
    var a, b := Or(MaskTo(nodes, root, rows, r), Shl(v, r)), MaskTo(nodes, root, rows, r + 1);
    forall q | 0 <= q < 64 ensures Bit(a, q) == Bit(b, q) {
      if q >= r { ConstantBits(q - r); }
      assert Bit(Shl(v, r), q) == (q >= r && Bit(v, q - r));
      assert Bit(MaskTo(nodes, root, rows, r), q) == (q < r && Verdict(nodes, root, rows[q], true));
    }
    WordsEqual(a, b);
  }

  ghost predicate RowInv(nodes: seq<Node>, root: nat, rows: seq<Row>, s: State, r: nat) {
    WellBuilt(nodes) && root < |nodes| && |rows| == 64 && r <= 64
    && |s.scratch| == 512 && s.regs[0] == Ptr(FieldTable, 0) && s.regs[1] == Ptr(Scratch, 0)
    && s.regs[20] == Num(r) && s.regs[19] == Num(MaskTo(nodes, root, rows, r))
  }

  lemma CollectRuns(columns: Columns, s: State, r: nat, v: Word, mask: Word) returns (t: State)
    requires r < 64 && s.regs[20] == Num(r) && s.regs[5] == Num(v) && s.regs[19] == Num(mask)
    ensures Exec(COLLECT, columns, s) == Some(t)
    ensures t.regs[19] == Num(Or(mask, Shl(v, r))) && t.regs[20] == Num(r + 1) && OnlyRegs(s, t, {5, 19, 20})
  {
    hide Or, Shl;
    var s1 := s.Set(5, Num(Shl(v, r)));
    var s2 := s1.Set(19, Num(Or(mask, Shl(v, r))));
    t := s2.Set(20, Num(r + 1));
    assert Exec1(LslReg(5, 5, 20), columns, s) == Some(s1);
    assert Exec1(Alu(OpOrr, 19, 19, 5), columns, s1) == Some(s2);
    assert Exec1(AddImm(20, 20, 1), columns, s2) == Some(t);
    hide Exec1;
    Exec3(LslReg(5, 5, 20), Alu(OpOrr, 19, 19, 5), AddImm(20, 20, 1), columns, s);
  }

  lemma TurnRuns(nodes: seq<Node>, root: nat, rows: seq<Row>, columns: Columns, s: State, r: nat) returns (t: State)
    requires ScalarSetting(nodes, root, rows, columns) && RowInv(nodes, root, rows, s, r) && r < 64
    ensures Exec(RowLoop(nodes, Order(nodes, root)).body, columns, s) == Some(t)
    ensures RowInv(nodes, root, rows, t, r + 1) && t.stack == s.stack && HighKept(s, t)
  {
    hide Exec, RowCode, Order, MaskTo, Value;
    var order := Order(nodes, root);
    var mask := MaskTo(nodes, root, rows, r);
    RootIsLast(nodes, root);
    var u := RowRuns(nodes, root, rows, columns, s, |order|, r, mask);
    t := CollectRuns(columns, u, r, Value(nodes, root, rows[r]), mask);
    MaskGrows(nodes, root, rows, r);
    ExecAppend(RowCode(nodes, order, |order|), COLLECT, columns, s);
  }

  /** Every scratch word a row reads was written on the same row: with no word present when the row
      starts, where reading an absent one is a fault, the row runs and leaves the same mask. */
  lemma RowReadsOnlyItsWrites(nodes: seq<Node>, root: nat, rows: seq<Row>, columns: Columns, s: State, r: nat)
    returns (t: State, u: State)
    requires ScalarSetting(nodes, root, rows, columns) && RowInv(nodes, root, rows, s, r) && r < 64
    ensures Exec(RowLoop(nodes, Order(nodes, root)).body, columns, Blank(s)) == Some(t)
    ensures Exec(RowLoop(nodes, Order(nodes, root)).body, columns, s) == Some(u)
    ensures RowInv(nodes, root, rows, t, r + 1) && t.regs[19] == u.regs[19]
  {
    hide ScalarSetting, Exec, RowLoop, Order, MaskTo, HighKept;
    t := TurnRuns(nodes, root, rows, columns, Blank(s), r);
    u := TurnRuns(nodes, root, rows, columns, s, r);
  }

  lemma RootIsLast(nodes: seq<Node>, root: nat)
    requires WellBuilt(nodes) && root < |nodes|
    ensures var order := Order(nodes, root); |order| > 0 && order[|order| - 1] == root
  {
    WalkFromRoot(nodes, root);
  }

  lemma {:induction false} RowsRun(nodes: seq<Node>, root: nat, rows: seq<Row>, columns: Columns, s: State,
                                   r: nat) returns (t: State)
    requires ScalarSetting(nodes, root, rows, columns) && RowInv(nodes, root, rows, s, r)
    ensures Loops(RowLoop(nodes, Order(nodes, root)), columns, s, 65 - r) == Some(t)
    ensures RowInv(nodes, root, rows, t, 64) && t.stack == s.stack && HighKept(s, t)
    decreases 64 - r
  {
    hide ScalarSetting, Loops, Exec, RowCode, MaskTo;
    var lp := RowLoop(nodes, Order(nodes, root));
    var g := Guarded(lp, s);
    if r == 64 {
      t := g;
      LoopsExit(lp, columns, s, 65 - r);
    } else {
      var v := TurnRuns(nodes, root, rows, columns, g, r);
      t := RowsRun(nodes, root, rows, columns, v, r + 1);
      LoopsAgain(lp, columns, s, v, 64 - r);
    }
  }

  // ----- the program -----

  lemma ScalarPrologueRuns(columns: Columns, s: State) returns (t: State)
    requires Entry(s)
    ensures Exec(SCALAR_PROLOGUE, columns, s) == Some(t)
    ensures t.stack == [s.regs[29], s.regs[30], s.regs[19], s.regs[20]] && t.scratch == s.scratch
    ensures t.regs[19] == Num(0) && t.regs[20] == Num(0) && forall r: Reg | r !in {19, 20, 29} :: t.regs[r] == s.regs[r]
  {
    var p1, p2 := [Push(29, 30), MovSp(29), Push(19, 20)], [MovImm(19, 0), MovImm(20, 0)];
    var s1 := s.(stack := s.stack + [s.regs[29], s.regs[30]]);
    var s2 := s1.Set(29, Ptr(Frame, -16));
    var s3 := s2.(stack := s1.stack + [s.regs[19], s.regs[20]]);
    var s4 := s3.Set(19, Num(0));
    t := s4.Set(20, Num(0));
    assert Exec1(p1[0], columns, s) == Some(s1);
    assert Exec1(p1[1], columns, s1) == Some(s2);
    assert Exec1(p1[2], columns, s2) == Some(s3);
    assert Exec1(p2[0], columns, s3) == Some(s4);
    assert Exec1(p2[1], columns, s4) == Some(t);
    hide Exec1;
    Exec3(p1[0], p1[1], p1[2], columns, s);
    Exec2(p2[0], p2[1], columns, s3);
    ExecAppend(p1, p2, columns, s);
  }

  lemma ScalarEpilogueRuns(columns: Columns, s: State, u: State, mask: Word) returns (t: State)
    requires u.stack == [s.regs[29], s.regs[30], s.regs[19], s.regs[20]] && u.regs[19] == Num(mask)
    requires |u.scratch| == 512
    requires HighKept(s, u)
    ensures Exec(SCALAR_EPILOGUE, columns, u) == Some(t) && t.regs[0] == Num(mask) && Returned(s, t)
  {
    var u1 := u.Set(0, Num(mask));
    var u2 := u1.(stack := [s.regs[29], s.regs[30]]).Set(19, s.regs[19]).Set(20, s.regs[20]);
    t := u2.(stack := []).Set(29, s.regs[29]).Set(30, s.regs[30]);
    assert Exec1(MovReg(0, 19), columns, u) == Some(u1);
    PopRuns(columns, u1, [s.regs[29], s.regs[30]], 19, 20, s.regs[19], s.regs[20]);
    PopRuns(columns, u2, [], 29, 30, s.regs[29], s.regs[30]);
    hide Exec1;
    Exec3(MovReg(0, 19), Pop(19, 20), Pop(29, 30), columns, u);
  }

  lemma {:induction false} StraightRow(nodes: seq<Node>, order: seq<nat>, k: nat)
    requires WellBuilt(nodes) && InRange(nodes, order) && k <= |order|
    ensures AllStraight(RowCode(nodes, order, k))
    decreases k
  {
    hide StepCode, Straight;
    if k > 0 {
      StraightRow(nodes, order, k - 1);
      StraightStep(nodes, order, k - 1);
      StraightAppend(RowCode(nodes, order, k - 1), StepCode(nodes, order, k - 1));
    }
  }

  lemma StraightValue(nodes: seq<Node>, order: seq<nat>, k: nat, p: Option<nat>, out: Reg)
    requires Below(p, |nodes|) && k <= |order|
    ensures AllStraight(ValueCode(nodes, order, k, p, out))
  {
  }

  lemma StraightStep(nodes: seq<Node>, order: seq<nat>, k: nat)
    requires WellBuilt(nodes) && InRange(nodes, order) && k < |order|
    ensures AllStraight(StepCode(nodes, order, k))
  {
    assert NodeOk(nodes[order[k]], order[k]);
    var n := nodes[order[k]];
    StraightValue(nodes, order, k, n.left, 2);
    StraightValue(nodes, order, k, n.right, 3);
    StraightValue(nodes, order, k, Some(order[k]), 5);
    assert AllStraight(OperationCode(n.kind));
    hide ValueCode, OperationCode;
    var l, r := ValueCode(nodes, order, k, n.left, 2), ValueCode(nodes, order, k, n.right, 3);
    var v := if n.kind == LOAD || n.kind == CONST then ValueCode(nodes, order, k, Some(order[k]), 5)
             else OperationCode(n.kind);
    StraightAppend(l, r);
    StraightAppend(l + r, v);
    StraightAppend(l + r + v, [StrImm(5, 1, k * 8)]);
  }

  lemma NothingCollected(nodes: seq<Node>, root: nat, rows: seq<Row>)
    requires WellBuilt(nodes) && root < |nodes| && |rows| == 64
    ensures MaskTo(nodes, root, rows, 0) == 0
  {
    forall q | 0 <= q < 64 ensures Bit(MaskTo(nodes, root, rows, 0), q) == Bit(0, q) { ConstantBits(q); }
    WordsEqual(MaskTo(nodes, root, rows, 0), 0);
  }

  lemma ScalarProgramRuns(nodes: seq<Node>, root: nat, rows: seq<Row>, columns: Columns, s: State) returns (t: State)
    requires WellBuilt(nodes) && root < |nodes| && |rows| == 64
    requires ScalarSetting(nodes, root, rows, columns) && Entry(s)
    ensures Reaches(ScalarProgram(nodes, Order(nodes, root)), columns, Running(0, s), Halted(t))
    ensures t.regs[0] == Num(MaskTo(nodes, root, rows, 64)) && Returned(s, t)
  {
    hide ScalarSetting, Exec, Loops, RowCode, MaskTo, Order, Reaches, Returned;
    var order := Order(nodes, root);
    var s1 := ScalarPrologueRuns(columns, s);
    NothingCollected(nodes, root, rows);
    var s2 := RowsRun(nodes, root, rows, columns, s1, 0);
    t := ScalarEpilogueRuns(columns, s, s2, MaskTo(nodes, root, rows, 64));
    StraightRow(nodes, order, |order|);
    StraightAppend(RowCode(nodes, order, |order|), COLLECT);
    OneLoopProgram(SCALAR_PROLOGUE, RowLoop(nodes, order), SCALAR_EPILOGUE, columns, s, s1, 65, s2, t);
  }

  /** The scalar kernel, with at most eight fields and 512 nodes: bit r of the mask is the
      expression's verdict on row r, whatever the scratchpad held. */
  lemma ScalarKernelDecides(nodes: seq<Node>, root: nat, program: seq<Instr>, rows: seq<Row>, columns: Columns,
                            s: State)
    returns (t: State, mask: Word)
    requires ScalarCompiled(nodes, root, program) && WellKinded(nodes, Some(root)) && Entry(s)
    requires |FieldNames(nodes, root)| <= MAX_FIELDS && |Order(nodes, root)| <= 512
    requires GatheredColumns(rows, FieldNames(nodes, root), columns)
    ensures Reaches(program, columns, Running(0, s), Halted(t)) && t.regs[0] == Num(mask) && Returned(s, t)
    ensures forall r | 0 <= r < 64 :: Bit(mask, r) == Verdict(nodes, root, rows[r], true)
  {
    t := ScalarProgramRuns(nodes, root, rows, columns, s);
    mask := MaskTo(nodes, root, rows, 64);
  }
}
