// The scalar compiler has no limit on field names, but the pointer array it reads has eight entries:
// with a ninth name the kernel faults.
module ScalarFaults {
  import opened Options
  import opened Machine
  import opened Ir
  import opened Analyzer
  import opened Allocation
  import opened SlicedCompiler
  import opened SlicedCorrectness
  import opened ScalarCompiler
  import opened ScalarCorrectness

  /** The k-th listed node loads from beyond the pointer array. */
  predicate LoadsBeyond(nodes: seq<Node>, order: seq<nat>, k: nat)
    requires InRange(nodes, order) && k < |order|
  {
    nodes[order[k]].kind == LOAD && nodes[order[k]].fieldIdx >= MAX_FIELDS
  }

  /** With a ninth name some node loads from beyond the array. */
  lemma NinthLoad(nodes: seq<Node>, root: nat) returns (k: nat)
    requires WellBuilt(nodes) && root < |nodes| && |FieldNames(nodes, root)| > MAX_FIELDS
    requires FieldsBound(nodes, Loads(nodes, root), FieldNames(nodes, root))
    ensures k < |Order(nodes, root)| && LoadsBeyond(nodes, Order(nodes, root), k)
  {
    var loads, names := Loads(nodes, root), FieldNames(nodes, root);
    NamesDistinct(nodes, loads);
    assert names[MAX_FIELDS] in names;
    var l :| 0 <= l < |loads| && nodes[loads[l]].fieldName == names[MAX_FIELDS];
    assert FieldBound(nodes, loads[l], names);
    OfKindMembers(nodes, Order(nodes, root), {LOAD});
    assert loads[l] in loads;
    k :| 0 <= k < |Order(nodes, root)| && Order(nodes, root)[k] == loads[l];
  }

  lemma SpareAppend(a: seq<Instr>, b: seq<Instr>, r: Reg)
    requires AllSpare(a, r) && AllSpare(b, r)
    ensures AllSpare(a + b, r)
  {
  }

  lemma ValueSpares(nodes: seq<Node>, order: seq<nat>, k: nat, p: Option<nat>, out: Reg)
    requires Below(p, |nodes|) && k <= |order| && out != 0
    ensures AllSpare(ValueCode(nodes, order, k, p, out), 0)
  {
  }

  /** The operand loads of a node leave the pointer array's register alone. */
  lemma OperandsSpare(nodes: seq<Node>, order: seq<nat>, k: nat)
    requires WellBuilt(nodes) && InRange(nodes, order) && k < |order|
    ensures NodeOk(nodes[order[k]], order[k])
    ensures var n := nodes[order[k]];
            AllSpare(ValueCode(nodes, order, k, n.left, 2) + ValueCode(nodes, order, k, n.right, 3), 0)
  {
    assert NodeOk(nodes[order[k]], order[k]);
    var n := nodes[order[k]];
    ValueSpares(nodes, order, k, n.left, 2);
    ValueSpares(nodes, order, k, n.right, 3);
    hide ValueCode;
    SpareAppend(ValueCode(nodes, order, k, n.left, 2), ValueCode(nodes, order, k, n.right, 3), 0);
  }

  lemma OperationSpares(kind: NodeKind, k: nat)
    ensures AllSpare(OperationCode(kind), 0) && AllSpare([StrImm(5, 1, k * 8)], 0)
  {
  }

  lemma StepSpares(nodes: seq<Node>, order: seq<nat>, k: nat)
    requires WellBuilt(nodes) && InRange(nodes, order) && k < |order|
    ensures AllSpare(StepCode(nodes, order, k), 0)
  {
    hide ValueCode, OperationCode, AllSpare;
    OperandsSpare(nodes, order, k);
    var n := nodes[order[k]];
    ValueSpares(nodes, order, k, Some(order[k]), 5);
    OperationSpares(n.kind, k);
    var l, r := ValueCode(nodes, order, k, n.left, 2), ValueCode(nodes, order, k, n.right, 3);
    var v := if n.kind == LOAD || n.kind == CONST then ValueCode(nodes, order, k, Some(order[k]), 5)
             else OperationCode(n.kind);
    SpareAppend(l + r, v, 0);
    SpareAppend(l + r + v, [StrImm(5, 1, k * 8)], 0);
  }

  lemma {:induction false} RowSpares(nodes: seq<Node>, order: seq<nat>, k: nat)
    requires WellBuilt(nodes) && InRange(nodes, order) && k <= |order|
    ensures AllSpare(RowCode(nodes, order, k), 0)
  {
    hide StepCode, Spares;
    if k > 0 {
      RowSpares(nodes, order, k - 1);
      StepSpares(nodes, order, k - 1);
      SpareAppend(RowCode(nodes, order, k - 1), StepCode(nodes, order, k - 1), 0);
    }
  }

  lemma FaultStays(a: seq<Instr>, b: seq<Instr>, columns: Columns, s: State)
    requires Exec(a, columns, s).None?
    ensures Exec(a + b, columns, s).None?
  {
    ExecAppend(a, b, columns, s);
  }

  lemma LoadFaults(columns: Columns, s: State, f: nat)
    requires f >= MAX_FIELDS && s.regs[0] == Ptr(FieldTable, 0)
    ensures Exec([LdrImm(4, 0, f * 8), LdrScaled(5, 4, 20)], columns, s).None?
  {
    var i, j := LdrImm(4, 0, f * 8), LdrScaled(5, 4, 20);
    assert Exec1(i, columns, s).None?;
    Exec2(i, j, columns, s);
  }

  lemma StepFaults(nodes: seq<Node>, order: seq<nat>, columns: Columns, s: State, k: nat)
    requires WellBuilt(nodes) && InRange(nodes, order) && k < |order| && LoadsBeyond(nodes, order, k)
    requires s.regs[0] == Ptr(FieldTable, 0)
    ensures Exec(StepCode(nodes, order, k), columns, s).None?
  {
    OperandsSpare(nodes, order, k);
    var n := nodes[order[k]];
    var v := ValueCode(nodes, order, k, Some(order[k]), 5);
    assert v == [LdrImm(4, 0, n.fieldIdx * 8), LdrScaled(5, 4, 20)];
    var a := ValueCode(nodes, order, k, n.left, 2) + ValueCode(nodes, order, k, n.right, 3);
    hide ValueCode, Exec;
    if Exec(a, columns, s).Some? {
      ExecSpares(a, columns, s, 0);
      LoadFaults(columns, Exec(a, columns, s).value, n.fieldIdx);
    }
    ExecAppend(a, v, columns, s);
    FaultStays(a + v, [StrImm(5, 1, k * 8)], columns, s);
  }

  lemma {:induction false} RowFaults(nodes: seq<Node>, order: seq<nat>, columns: Columns, s: State, m: nat, k: nat)
    requires WellBuilt(nodes) && InRange(nodes, order) && m < k <= |order| && LoadsBeyond(nodes, order, m)
    requires s.regs[0] == Ptr(FieldTable, 0)
    ensures Exec(RowCode(nodes, order, k), columns, s).None?
    decreases k
  {
    hide StepCode, Exec;
    var row, step := RowCode(nodes, order, k - 1), StepCode(nodes, order, k - 1);
    ExecAppend(row, step, columns, s);
    if m < k - 1 {
      RowFaults(nodes, order, columns, s, m, k - 1);
    } else if Exec(row, columns, s).Some? {
      RowSpares(nodes, order, k - 1);
      ExecSpares(row, columns, s, 0);
      StepFaults(nodes, order, columns, Exec(row, columns, s).value, m);
    }
  }

  /** The first turn of the row loop faults. */
  lemma TurnFaults(nodes: seq<Node>, order: seq<nat>, columns: Columns, s: State, m: nat)
    requires WellBuilt(nodes) && InRange(nodes, order) && m < |order| && LoadsBeyond(nodes, order, m)
    requires s.regs[0] == Ptr(FieldTable, 0) && s.regs[20] == Num(0)
    ensures var lp := RowLoop(nodes, order);
            AllStraight(SCALAR_PROLOGUE) && AllStraight(lp.body) && lp.start != lp.end && s.Get(lp.counter).Num?
            && !Holds(lp.exit, Guarded(lp, s).flags) && Exec(lp.body, columns, Guarded(lp, s)).None?
  {
    hide RowCode, Exec;
    var lp := RowLoop(nodes, order);
    var row := RowCode(nodes, order, |order|);
    StraightRow(nodes, order, |order|);
    StraightAppend(row, COLLECT);
    RowFaults(nodes, order, columns, Guarded(lp, s), m, |order|);
    FaultStays(row, COLLECT, columns, Guarded(lp, s));
  }

  /** With more than eight field names the scalar kernel reads past the pointer array on its first row,
      whatever the columns and the scratchpad hold. */
  lemma NinthFieldFaults(nodes: seq<Node>, root: nat, program: seq<Instr>, columns: Columns, s: State)
    requires ScalarCompiled(nodes, root, program) && |FieldNames(nodes, root)| > MAX_FIELDS && Entry(s)
    ensures Reaches(program, columns, Running(0, s), Stuck)
  {
    var order := Order(nodes, root);
    var m := NinthLoad(nodes, root);
    hide FieldNames, FieldsBound, Loads, Order, Reaches, RowLoop, LoadsBeyond, Exec, Holds, Guarded, AllStraight,
         Loop.Code;
    var s1 := ScalarPrologueRuns(columns, s);
    TurnFaults(nodes, order, columns, s1, m);
    var lp := RowLoop(nodes, order);
    Assoc(SCALAR_PROLOGUE + lp.Code(), SCALAR_EPILOGUE, [Ret]);
    CodeThenFault(program, SCALAR_PROLOGUE, lp, SCALAR_EPILOGUE + [Ret], columns, s, s1);
  }

  /** For a well-kinded predicate the kernel reads past the pointer array if and only if it loads more than
      eight names; otherwise it returns. */
  lemma ReadsBeyondIff(nodes: seq<Node>, root: nat, program: seq<Instr>, rows: seq<Row>, columns: Columns, s: State)
    requires ScalarCompiled(nodes, root, program) && WellKinded(nodes, Some(root)) && Entry(s)
    requires |Order(nodes, root)| <= 512
    requires |FieldNames(nodes, root)| <= MAX_FIELDS ==> GatheredColumns(rows, FieldNames(nodes, root), columns)
    ensures Reaches(program, columns, Running(0, s), Stuck) <==> |FieldNames(nodes, root)| > MAX_FIELDS
    ensures (exists t :: Reaches(program, columns, Running(0, s), Halted(t)))
            <==> |FieldNames(nodes, root)| <= MAX_FIELDS
  {
    assert WellBuilt(nodes) && root < |nodes|;
    hide ScalarCompiled, WellKinded, Entry, Order, FieldNames, GatheredColumns, Reaches;
    if |FieldNames(nodes, root)| <= MAX_FIELDS {
      var t, mask := ScalarKernelDecides(nodes, root, program, rows, columns, s);
      if Reaches(program, columns, Running(0, s), Stuck) {
        HaltsOnce(program, columns, Running(0, s), Halted(t), Stuck);
      }
    } else {
      NinthFieldFaults(nodes, root, program, columns, s);
      forall t ensures !Reaches(program, columns, Running(0, s), Halted(t)) {
        if Reaches(program, columns, Running(0, s), Halted(t)) {
          HaltsOnce(program, columns, Running(0, s), Halted(t), Stuck);
        }
      }
    }
  }
}
