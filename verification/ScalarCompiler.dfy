// The scalar compiler: a loop over 64 rows, each row evaluating every node once in walk order.
module ScalarCompiler {
  import opened Words
  import opened Options
  import opened Machine
  import opened Ir
  import opened Analyzer
  import opened Allocation
  import opened SlicedCompiler

  // Register roles: x0 field arrays, x1 scratchpad, x2 and x3 operands, x4 pointer, x5 result,
  // x19 result mask, x20 row number.

  /** The first position of x in the list; 0 when it is not there. */
  function FirstIndex(list: seq<nat>, x: nat): (j: nat)
    ensures x in list ==> j < |list| && list[j] == x
  {
    if x !in list then 0 else if list[0] == x then 0 else 1 + FirstIndex(list[1..], x)
  }

  lemma {:induction false} FirstIndexIs(list: seq<nat>, x: nat, j: nat)
    requires j < |list| && list[j] == x && forall k | 0 <= k < j :: list[k] != x
    ensures FirstIndex(list, x) == j
  {
    if j > 0 { FirstIndexIs(list[1..], x, j - 1); }
  }

  /** The value of an operand: from its column, as an immediate, or from the scratch word of its position. */
  function ValueCode(nodes: seq<Node>, order: seq<nat>, k: nat, p: Option<nat>, out: Reg): seq<Instr>
    requires Below(p, |nodes|) && k <= |order|
  {
    if p.None? then []
    else
      var n := nodes[p.value];
      if n.kind == LOAD then [LdrImm(4, 0, n.fieldIdx * 8), LdrScaled(out, 4, 20)]
      else if n.kind == CONST then MovImm64(out, ToWord(n.constValue))
      else [LdrImm(out, 1, FirstIndex(order[..k], p.value) * 8)]
  }

  function OperationCode(kind: NodeKind): seq<Instr> {
    match kind
    case ADD => [Add(5, 2, 3)]
    case SUB => [Sub(5, 2, 3)]
    case GT => [Cmp(2, 3), Cset(5, CondHI)]
    case LT => [Cmp(2, 3), Cset(5, CondLO)]
    case EQ => [Cmp(2, 3), Cset(5, CondEQ)]
    case AND => [Alu(OpAnd, 5, 2, 3)]
    case OR => [Alu(OpOrr, 5, 2, 3)]
    case _ => []
  }

  /** The k-th node of the walk on the current row. */
  function StepCode(nodes: seq<Node>, order: seq<nat>, k: nat): seq<Instr>
    requires WellBuilt(nodes) && InRange(nodes, order) && k < |order|
  {
    assert NodeOk(nodes[order[k]], order[k]);
    var n := nodes[order[k]];
    ValueCode(nodes, order, k, n.left, 2) + ValueCode(nodes, order, k, n.right, 3)
    + (if n.kind == LOAD || n.kind == CONST then ValueCode(nodes, order, k, Some(order[k]), 5)
       else OperationCode(n.kind))
    + [StrImm(5, 1, k * 8)]
  }

  function RowCode(nodes: seq<Node>, order: seq<nat>, k: nat): seq<Instr>
    requires WellBuilt(nodes) && InRange(nodes, order) && k <= |order|
  {
    if k == 0 then [] else RowCode(nodes, order, k - 1) + StepCode(nodes, order, k - 1)
  }

  const COLLECT: seq<Instr> := [LslReg(5, 5, 20), Alu(OpOrr, 19, 19, 5), AddImm(20, 20, 1)]

  function RowLoop(nodes: seq<Node>, order: seq<nat>): Loop
    requires WellBuilt(nodes) && InRange(nodes, order)
  {
    Loop(20, 64, CondHS, RowCode(nodes, order, |order|) + COLLECT, 0, 1)
  }

  const SCALAR_PROLOGUE: seq<Instr> := [Push(29, 30), MovSp(29), Push(19, 20)] + [MovImm(19, 0), MovImm(20, 0)]
  const SCALAR_EPILOGUE: seq<Instr> := [MovReg(0, 19), Pop(19, 20), Pop(29, 30)]

  function ScalarProgram(nodes: seq<Node>, order: seq<nat>): seq<Instr>
    requires WellBuilt(nodes) && InRange(nodes, order)
  {
    SCALAR_PROLOGUE + RowLoop(nodes, order).Code() + SCALAR_EPILOGUE + [Ret]
  }

  /** What a scalar compilation leaves behind. */
  ghost predicate ScalarCompiled(nodes: seq<Node>, root: nat, program: seq<Instr>) {
    WellBuilt(nodes) && root < |nodes|
    && FieldsBound(nodes, Loads(nodes, root), FieldNames(nodes, root))
    && program == ScalarProgram(nodes, Order(nodes, root))
  }

  /** The linear search for an operand among the nodes before position k. */
  method FindOperand(order: seq<nat>, k: nat, x: nat) returns (index: nat)
    requires k <= |order|
    ensures index == FirstIndex(order[..k], x)
  {
    for j := 0 to k
      invariant forall i | 0 <= i < j :: order[i] != x
    {
      if order[j] == x {
        FirstIndexIs(order[..k], x, j);
        return j;
      }
    }
    return 0;
  }

  method EmitValue(nodes: seq<Node>, order: seq<nat>, k: nat, p: Option<nat>, out: Reg) returns (code: seq<Instr>)
    requires Below(p, |nodes|) && k <= |order|
    ensures code == ValueCode(nodes, order, k, p, out)
  {
    if p.None? { return []; }
    var n := nodes[p.value];
    if n.kind == LOAD {
      code := [LdrImm(4, 0, n.fieldIdx * 8), LdrScaled(out, 4, 20)];
    } else if n.kind == CONST {
      code := MovImm64(out, ToWord(n.constValue));
    } else {
      var index := FindOperand(order, k, p.value);
      code := [LdrImm(out, 1, index * 8)];
    }
  }

  /** Emits the row body node by node. */
  method EmitRow(nodes: seq<Node>, order: seq<nat>) returns (code: seq<Instr>)
    requires WellBuilt(nodes) && InRange(nodes, order)
    ensures code == RowCode(nodes, order, |order|)
  {
    hide ValueCode, OperationCode;
    code := [];
    for k := 0 to |order|
      invariant code == RowCode(nodes, order, k)
    {
      assert NodeOk(nodes[order[k]], order[k]);
      var n := nodes[order[k]];
      var left := EmitValue(nodes, order, k, n.left, 2);
      var right := EmitValue(nodes, order, k, n.right, 3);
      var operation := OperationCode(n.kind);
      if n.kind == LOAD || n.kind == CONST {
        operation := EmitValue(nodes, order, k, Some(order[k]), 5);
      }
      code := code + (left + right + operation + [StrImm(5, 1, k * 8)]);
    }
  }

  /** The analysis and the field numbers; the scalar compiler allocates no slots. */
  method NumberFields(pool: NodePool, root: nat) returns (order: seq<nat>)
    requires pool.Valid() && root < pool.nextIdx
    modifies pool.storage
    ensures UpToMetadata(pool, old(pool.Nodes()))
    ensures order == Order(pool.Nodes(), root) && InRange(pool.Nodes(), order)
    ensures FieldsBound(pool.Nodes(), Loads(pool.Nodes(), root), FieldNames(pool.Nodes(), root))
  {
    hide Names, FieldsBound, Order, Loads, OfKind, Distinct;
    ghost var nodes := pool.Nodes();
    var loads, consts, arith;
    order, loads, consts, arith := AnalyzeRoot(pool, root);
    assert pool.Nodes() == nodes;
    ListsReady(nodes, root, consts);
    var ok := AssignFields(pool, loads, false, nodes);
    SameLists(nodes, pool.Nodes(), root);
    SameGraphInRange(nodes, pool.Nodes(), order);
  }

  /** The scalar compiler; it has no limit of its own and returns nothing only for a null root. */
  method CompileScalarExpression(pool: NodePool, root: Option<nat>) returns (kernel: Option<seq<Instr>>)
    requires pool.Valid() && Below(root, pool.nextIdx)
    modifies pool.storage
    ensures UpToMetadata(pool, old(pool.Nodes()))
    ensures kernel.Some? <==> root.Some?
    ensures kernel.Some? ==> ScalarCompiled(pool.Nodes(), root.value, kernel.value)
  {
    hide SameGraph, Names, FieldsBound, Order, Loads, RowCode, Loop.Code;
    if root.None? {
      SameGraphItself(pool.Nodes());
      return None;
    }
    var order := NumberFields(pool, root.value);
    var row := EmitRow(pool.storage[..pool.nextIdx], order);
    var rows := Loop(20, 64, CondHS, row + COLLECT, 0, 1);
    kernel := Some(SCALAR_PROLOGUE + rows.Code() + SCALAR_EPILOGUE + [Ret]);
  }
}
