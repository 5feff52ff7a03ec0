// The bit-sliced compiler: a ripple-carry loop over bits 0 to 63, then a comparator loop over
// bits 63 to 0, both on planes that hold one bit of 64 rows.
module SlicedCompiler {
  import opened Words
  import opened Options
  import opened Machine
  import opened Ir
  import opened Analyzer
  import opened Allocation
  import opened CircuitLibrary

  // Register roles: x19 field table, x20 scratchpad, x15 bit number, x2 and x3 operand planes,
  // x4 pointer, x5 result, x6, x7 and x14 temporaries, x21 to x28 carries, x8 to x13 comparisons.

  /** The initial carry word of SUB as emitted: the literal 1 is one bit, that of row 0. */
  const EMITTED_SUB_CARRY: Word := 1

  function CarryRegister(n: Node): Reg
    requires 0 <= n.carryReg < 8
  {
    21 + n.carryReg
  }

  /** The plane of an operand at the current bit, from its column, its constant or its slot. */
  function OperandCode(nodes: seq<Node>, p: Option<nat>, out: Reg): seq<Instr>
    requires Below(p, |nodes|)
  {
    if p.None? then []
    else
      var n := nodes[p.value];
      if n.kind == LOAD then [LdrImm(4, 19, n.fieldIdx * 8), LslImm(14, 15, 3), LdrReg(out, 4, 14)]
      else if n.kind == CONST then [MovAddr(4, n.constValue), LslImm(14, 15, 3), LdrReg(out, 4, 14)]
      else if n.resultKind == BITPLANE && 0 <= n.slotId < MAX_SLOTS then
        [LslImm(14, 15, 3), AddImm(14, 14, n.slotId * 512), LdrReg(out, 20, 14)]
      else []
  }

  function StoreCode(slot: nat): seq<Instr>
    requires slot < MAX_SLOTS
  {
    [LslImm(14, 15, 3), AddImm(14, 14, slot * 512), StrReg(5, 20, 14)]
  }

  /** Sum = a ^ b ^ carry; carry = (a & b) | ((a ^ b) & carry). */
  function AddCode(carry: Reg): seq<Instr> {
    [Alu(OpEor, 6, 2, 3), Alu(OpEor, 5, 6, carry)]
    + [Alu(OpAnd, 7, 2, 3), Alu(OpAnd, 14, 6, carry), Alu(OpOrr, carry, 7, 14)]
  }

  /** The same with the complement of b. */
  function SubCode(carry: Reg): seq<Instr> {
    [Mvn(6, 3), Alu(OpEor, 7, 2, 6), Alu(OpEor, 5, 7, carry)]
    + [Alu(OpAnd, 14, 2, 6), Alu(OpAnd, 6, carry, 7), Alu(OpOrr, carry, 14, 6)]
  }

  function AdderCode(n: Node): seq<Instr>
    requires 0 <= n.carryReg < 8
  {
    if n.kind == ADD then AddCode(CarryRegister(n)) else SubCode(CarryRegister(n))
  }

  /** One bit of one arithmetic node; shifts are skipped. */
  function NodeCode(nodes: seq<Node>, i: nat): seq<Instr>
    requires WellBuilt(nodes) && i < |nodes|
    requires Ripples(nodes[i]) ==> 0 <= nodes[i].carryReg < 8 && 0 <= nodes[i].slotId < MAX_SLOTS
  {
    assert NodeOk(nodes[i], i);
    var n := nodes[i];
    if !Ripples(n) then []
    else
      OperandCode(nodes, n.left, 2) + OperandCode(nodes, n.right, 3)
      + AdderCode(n)
      + StoreCode(n.slotId)
  }

  ghost predicate Allocated(nodes: seq<Node>, arith: seq<nat>) {
    WellBuilt(nodes) && SlotsBound(nodes, arith) && CarriesBound(nodes, arith)
  }

  lemma AllocatedPrefix(nodes: seq<Node>, arith: seq<nat>, k: nat)
    requires Allocated(nodes, arith) && k <= |arith|
    ensures Allocated(nodes, arith[..k])
  {
  }

  function BitCode(nodes: seq<Node>, arith: seq<nat>): seq<Instr>
    requires Allocated(nodes, arith)
  {
    if arith == [] then []
    else
      var k := |arith| - 1;
      AllocatedPrefix(nodes, arith, k);
      BitCode(nodes, arith[..k]) + NodeCode(nodes, arith[k])
  }

  /** Initial carries: zero for ADD, the given word for SUB. */
  function CarryInit(nodes: seq<Node>, arith: seq<nat>, subCarry: Word): seq<Instr>
    requires Allocated(nodes, arith)
  {
    if arith == [] then []
    else
      var k := |arith| - 1;
      var n := nodes[arith[k]];
      AllocatedPrefix(nodes, arith, k);
      CarryInit(nodes, arith[..k], subCarry)
      + if !Ripples(n) then [] else [MovImm(CarryRegister(n), if n.kind == ADD then 0 else subCarry)]
  }

  function RippleLoop(nodes: seq<Node>, arith: seq<nat>): Loop
    requires Allocated(nodes, arith)
  {
    Loop(15, 64, CondHS, BitCode(nodes, arith) + [AddImm(15, 15, 1)], 0, 1)
  }

  // ----- comparisons -----

  /** The comparison leaves of an AND-tree, left to right; anything else contributes none. */
  function Leaves(nodes: seq<Node>, p: Option<nat>): seq<nat>
    requires WellBuilt(nodes) && Below(p, |nodes|)
    decreases if p.Some? then p.value + 1 else 0
  {
    if p.None? then []
    else
      assert NodeOk(nodes[p.value], p.value);
      var n := nodes[p.value];
      if IsComparison(n.kind) then [p.value]
      else if n.kind == AND then Leaves(nodes, n.left) + Leaves(nodes, n.right)
      else []
  }

  const MAX_COMPARISONS: nat := 3

  function Compared(n: nat): nat {
    if n < MAX_COMPARISONS then n else MAX_COMPARISONS
  }

  function GtReg(c: nat): Reg
    requires c < MAX_COMPARISONS
  {
    8 + 2 * c
  }

  function EqReg(c: nat): Reg
    requires c < MAX_COMPARISONS
  {
    9 + 2 * c
  }

  function CompareInit(n: nat): seq<Instr>
    requires n <= MAX_COMPARISONS
  {
    if n == 0 then [] else CompareInit(n - 1) + [MovImm(GtReg(n - 1), 0), Mvn(EqReg(n - 1), XZR)]
  }

  /** One bit of one comparison; EQ leaves emit nothing. */
  function CompareCode(nodes: seq<Node>, i: nat, c: nat): seq<Instr>
    requires WellBuilt(nodes) && i < |nodes| && c < MAX_COMPARISONS
  {
    assert NodeOk(nodes[i], i);
    var n := nodes[i];
    if n.kind == LT then
      OperandCode(nodes, n.left, 2) + OperandCode(nodes, n.right, 3) + EmitGt64(3, 2, GtReg(c), EqReg(c))
    else if n.kind == GT then
      OperandCode(nodes, n.left, 2) + OperandCode(nodes, n.right, 3) + EmitGt64(2, 3, GtReg(c), EqReg(c))
    else []
  }

  function CompareBits(nodes: seq<Node>, leaves: seq<nat>, n: nat): seq<Instr>
    requires WellBuilt(nodes) && InRange(nodes, leaves) && n <= |leaves| && n <= MAX_COMPARISONS
  {
    if n == 0 then [] else CompareBits(nodes, leaves, n - 1) + CompareCode(nodes, leaves[n - 1], n - 1)
  }

  function CompareLoop(nodes: seq<Node>, leaves: seq<nat>): Loop
    requires WellBuilt(nodes) && InRange(nodes, leaves)
  {
    Loop(15, 0, CondLT, CompareBits(nodes, leaves, Compared(|leaves|)) + [SubImm(15, 15, 1)], 2, 3)
  }

  /** The conjunction of the comparison masks in x0; all ones when there is no comparison. */
  function FoldCode(n: nat): seq<Instr>
    requires n <= MAX_COMPARISONS
  {
    if n == 0 then [MovImm(0, ALL_ONES)]
    else if n == 1 then [MovReg(0, GtReg(0))]
    else FoldCode(n - 1) + [Alu(OpAnd, 0, 0, GtReg(n - 1))]
  }

  const PROLOGUE: seq<Instr> :=
    [Push(29, 30), MovSp(29), Push(19, 20)] + [Push(21, 22), Push(23, 24), Push(25, 26), Push(27, 28)]
    + [MovReg(19, 0), MovReg(20, 1)]

  const EPILOGUE: seq<Instr> :=
    [Pop(27, 28), Pop(25, 26), Pop(23, 24)] + [Pop(21, 22), Pop(19, 20), Pop(29, 30)]

  function Before(nodes: seq<Node>, arith: seq<nat>, subCarry: Word): seq<Instr>
    requires Allocated(nodes, arith)
  {
    PROLOGUE + CarryInit(nodes, arith, subCarry) + [MovImm(15, 0)]
  }

  function Between(n: nat): seq<Instr> {
    CompareInit(Compared(n)) + [MovImm(15, 63)]
  }

  function After(n: nat): seq<Instr> {
    FoldCode(Compared(n)) + EPILOGUE
  }

  function Program(nodes: seq<Node>, arith: seq<nat>, leaves: seq<nat>, subCarry: Word): seq<Instr>
    requires Allocated(nodes, arith) && InRange(nodes, leaves)
  {
    Before(nodes, arith, subCarry) + RippleLoop(nodes, arith).Code()
    + Between(|leaves|) + CompareLoop(nodes, leaves).Code() + After(|leaves|) + [Ret]
  }

  lemma {:induction false} LeavesInRange(nodes: seq<Node>, p: Option<nat>)
    requires WellBuilt(nodes) && Below(p, |nodes|)
    ensures InRange(nodes, Leaves(nodes, p))
    decreases if p.Some? then p.value + 1 else 0
  {
    if p.Some? {
      assert NodeOk(nodes[p.value], p.value);
      var n := nodes[p.value];
      if n.kind == AND {
        LeavesInRange(nodes, n.left);
        LeavesInRange(nodes, n.right);
      }
    }
  }

  // ----- the compiler -----

  /** The comparisons of the expression. */
  function RootLeaves(nodes: seq<Node>, root: nat): (leaves: seq<nat>)
    requires WellBuilt(nodes) && root < |nodes|
    ensures InRange(nodes, leaves)
  {
    LeavesInRange(nodes, Some(root));
    Leaves(nodes, Some(root))
  }

  function FieldNames(nodes: seq<Node>, root: nat): seq<string>
    requires WellBuilt(nodes) && root < |nodes|
  {
    Names(nodes, Loads(nodes, root))
  }

  /** What a successful compilation leaves behind: bound metadata and this program. */
  ghost predicate Compiled(nodes: seq<Node>, root: nat, subCarry: Word, program: seq<Instr>) {
    WellBuilt(nodes) && root < |nodes|
    && FieldsBound(nodes, Loads(nodes, root), FieldNames(nodes, root))
    && |FieldNames(nodes, root)| <= MAX_FIELDS
    && Allocated(nodes, Arithmetics(nodes, root))
    && program == Program(nodes, Arithmetics(nodes, root), RootLeaves(nodes, root), subCarry)
  }

  /** Exactly when the bit-sliced compiler has enough field entries and slots. */
  predicate Fits(nodes: seq<Node>, root: nat)
    requires WellBuilt(nodes) && root < |nodes|
  {
    |FieldNames(nodes, root)| <= MAX_FIELDS && |Arithmetics(nodes, root)| <= MAX_SLOTS
  }

  lemma {:induction false} NamesShort(nodes: seq<Node>, loads: seq<nat>)
    requires InRange(nodes, loads)
    ensures |Names(nodes, loads)| <= |loads|
  {
    if loads != [] { NamesShort(nodes, loads[..|loads| - 1]); }
  }

  /** Graphs of at most eight nodes always fit. */
  lemma SmallGraphsFit(nodes: seq<Node>, root: nat)
    requires WellBuilt(nodes) && root < |nodes| <= 8
    ensures Fits(nodes, root) && |Order(nodes, root)| <= 8
  {
    OrderFits(nodes, root);
    OfKindShort(nodes, Order(nodes, root), {LOAD});
    OfKindShort(nodes, Order(nodes, root), ARITHMETIC);
    NamesShort(nodes, Loads(nodes, root));
  }

  lemma {:induction false} SameNames(a: seq<Node>, b: seq<Node>, loads: seq<nat>)
    requires SameGraph(a, b) && InRange(a, loads)
    ensures Names(a, loads) == Names(b, loads)
  {
    if loads != [] {
      var n := |loads| - 1;
      assert SameNode(a[loads[n]], b[loads[n]]);
      SameNames(a, b, loads[..n]);
    }
  }

  lemma {:induction false} SameLeaves(a: seq<Node>, b: seq<Node>, p: Option<nat>)
    requires SameGraph(a, b) && WellBuilt(a) && WellBuilt(b) && Below(p, |a|)
    ensures Leaves(a, p) == Leaves(b, p)
    decreases if p.Some? then p.value + 1 else 0
  {
    if p.Some? {
      assert NodeOk(a[p.value], p.value) && SameNode(a[p.value], b[p.value]);
      if a[p.value].kind == AND {
        SameLeaves(a, b, a[p.value].left);
        SameLeaves(a, b, a[p.value].right);
      }
    }
  }

  /** Writing metadata changes none of the lists the compiler works from. */
  lemma SameLists(a: seq<Node>, b: seq<Node>, root: nat)
    requires SameGraph(a, b) && WellBuilt(a) && WellBuilt(b) && root < |a|
    ensures Order(a, root) == Order(b, root) && Loads(a, root) == Loads(b, root)
    ensures Arithmetics(a, root) == Arithmetics(b, root) && FieldNames(a, root) == FieldNames(b, root)
    ensures RootLeaves(a, root) == RootLeaves(b, root)
  {
    SameWalk(a, b, [], Some(root));
    SameKinds(a, b, Order(a, root), {LOAD});
    SameKinds(a, b, Order(a, root), ARITHMETIC);
    SameNames(a, b, Loads(a, root));
    SameLeaves(a, b, Some(root));
  }

  /** Marks the constants as pool constants and makes sure their planes exist. */
  method SliceConstants(pool: NodePool, constants: ConstPool, consts: seq<nat>,
                        ghost nodes: seq<Node>, ghost loads: seq<nat>, ghost names: seq<string>)
    requires UpToMetadata(pool, nodes) && constants.Valid() && InRange(nodes, consts)
    requires InRange(nodes, loads) && FieldsBound(pool.Nodes(), loads, names)
    requires forall k, l | 0 <= k < |consts| && 0 <= l < |loads| :: consts[k] != loads[l]
    modifies pool.storage, constants
    ensures UpToMetadata(pool, nodes) && FieldsBound(pool.Nodes(), loads, names)
    ensures constants.Valid() && forall k | 0 <= k < |consts| :: nodes[consts[k]].constValue in constants.pools
    ensures forall k | 0 <= k < |consts| :: consts[k] < |pool.Nodes()| && pool.Nodes()[consts[k]].fieldIdx == -2
  {
    hide WellBuilt;
    for k := 0 to |consts|
      invariant UpToMetadata(pool, nodes) && FieldsBound(pool.Nodes(), loads, names)
      invariant constants.Valid() && forall l | 0 <= l < k :: nodes[consts[l]].constValue in constants.pools
      invariant forall l | 0 <= l < k :: pool.Nodes()[consts[l]].fieldIdx == -2
    {
      var i := consts[k];
      assert SameNode(nodes[i], pool.Nodes()[i]);
      var planes := constants.GetOrCreate(pool.storage[i].constValue);
      ghost var before := pool.Nodes();
      pool.SetFieldIdx(i, -2);
      forall l | 0 <= l < |loads| ensures FieldBound(pool.Nodes(), loads[l], names) {
        assert FieldBound(before, loads[l], names);
      }
    }
  }

  /** Emits the initial carries and one bit of every ADD and SUB, in walk order. */
  method EmitArithmetic(nodes: seq<Node>, arith: seq<nat>, subCarry: Word) returns (carries: seq<Instr>,
                        bits: seq<Instr>)
    requires Allocated(nodes, arith)
    ensures carries == CarryInit(nodes, arith, subCarry) && bits == BitCode(nodes, arith)
  {
    hide NodeCode;
    carries, bits := [], [];
    for k := 0 to |arith|
      invariant Allocated(nodes, arith[..k])
      invariant carries == CarryInit(nodes, arith[..k], subCarry) && bits == BitCode(nodes, arith[..k])
    {
      AllocatedPrefix(nodes, arith, k + 1);
      assert arith[..k + 1][..k] == arith[..k];
      var n := nodes[arith[k]];
      if n.kind == ADD {
        carries := carries + [MovImm(CarryRegister(n), 0)];
      } else if n.kind == SUB {
        carries := carries + [MovImm(CarryRegister(n), subCarry)];
      }
      bits := bits + NodeCode(nodes, arith[k]);
    }
    assert arith[..|arith|] == arith;
  }

  /** Emits the mask initialisation, one bit of each of the first three comparisons, and their conjunction. */
  method EmitComparisons(nodes: seq<Node>, leaves: seq<nat>) returns (starts: seq<Instr>, compares: seq<Instr>,
                         fold: seq<Instr>)
    requires WellBuilt(nodes) && InRange(nodes, leaves)
    ensures var n := Compared(|leaves|);
            starts == CompareInit(n) && compares == CompareBits(nodes, leaves, n) && fold == FoldCode(n)
  {
    hide CompareCode;
    starts, compares := [], [];
    for c := 0 to Compared(|leaves|)
      invariant starts == CompareInit(c) && compares == CompareBits(nodes, leaves, c)
    {
      starts := starts + [MovImm(GtReg(c), 0), Mvn(EqReg(c), XZR)];
      compares := compares + CompareCode(nodes, leaves[c], c);
    }
    if |leaves| == 0 {
      fold := [MovImm(0, ALL_ONES)];
    } else {
      fold := [MovReg(0, GtReg(0))];
      for c := 1 to Compared(|leaves|)
        invariant fold == FoldCode(c)
      {
        fold := fold + [Alu(OpAnd, 0, 0, GtReg(c))];
      }
    }
  }

  /** The comparisons below p, appended to those collected so far. */
  method CollectComparisons(nodes: seq<Node>, p: Option<nat>, sofar: seq<nat>) returns (leaves: seq<nat>)
    requires WellBuilt(nodes) && Below(p, |nodes|)
    ensures leaves == sofar + Leaves(nodes, p)
    decreases if p.Some? then p.value + 1 else 0
  {
    leaves := sofar;
    if p.None? { return; }
    assert NodeOk(nodes[p.value], p.value);
    var node := nodes[p.value];
    if node.kind == GT || node.kind == LT || node.kind == EQ {
      leaves := leaves + [p.value];
      return;
    }
    if node.kind == AND {
      leaves := CollectComparisons(nodes, node.left, leaves);
      leaves := CollectComparisons(nodes, node.right, leaves);
    }
  }

  /** Emits the two loops between prologue and epilogue. */
  method EmitProgram(nodes: seq<Node>, arith: seq<nat>, root: nat, subCarry: Word) returns (code: seq<Instr>)
    requires Allocated(nodes, arith) && root < |nodes|
    ensures code == Program(nodes, arith, RootLeaves(nodes, root), subCarry)
  {
    var carries, bits := EmitArithmetic(nodes, arith, subCarry);
    var leaves := CollectComparisons(nodes, Some(root), []);
    assert leaves == RootLeaves(nodes, root);
    var starts, compares, fold := EmitComparisons(nodes, leaves);
    hide BitCode, CarryInit, CompareBits, CompareInit, FoldCode, Loop.Code;
    var ripple := Loop(15, 64, CondHS, bits + [AddImm(15, 15, 1)], 0, 1);
    var compare := Loop(15, 0, CondLT, compares + [SubImm(15, 15, 1)], 2, 3);
    code := PROLOGUE + carries + [MovImm(15, 0)] + ripple.Code() + (starts + [MovImm(15, 63)]) + compare.Code()
            + (fold + EPILOGUE) + [Ret];
  }

  /** The lists of the walk are ready for allocation. */
  lemma ListsReady(nodes: seq<Node>, root: nat, consts: seq<nat>)
    requires WellBuilt(nodes) && root < |nodes| && consts == OfKind(nodes, Order(nodes, root), {CONST})
    ensures Distinct(Loads(nodes, root)) && Distinct(Arithmetics(nodes, root)) && InRange(nodes, consts)
    ensures forall k, l | 0 <= k < |consts| && 0 <= l < |Loads(nodes, root)| :: consts[k] != Loads(nodes, root)[l]
  {
    WalkFromRoot(nodes, root);
    var order := Order(nodes, root);
    OfKindDistinct(nodes, order, {LOAD});
    OfKindDistinct(nodes, order, ARITHMETIC);
    OfKindInRange(nodes, order, {CONST});
    OfKindMembers(nodes, order, {LOAD});
    OfKindMembers(nodes, order, {CONST});
    var loads := Loads(nodes, root);
    forall k, l | 0 <= k < |consts| && 0 <= l < |loads| ensures consts[k] != loads[l] {
      assert consts[k] in consts && loads[l] in loads;
    }
  }

  /** Hands out field indices, constant planes, slots and carry registers. */
  method Allocate(pool: NodePool, constants: ConstPool, loads: seq<nat>, consts: seq<nat>, arith: seq<nat>,
                  ghost nodes: seq<Node>, ghost root: nat)
    returns (ok: bool)
    requires UpToMetadata(pool, nodes) && constants.Valid() && WellBuilt(nodes) && root < |nodes|
    requires loads == Loads(nodes, root) && consts == OfKind(nodes, Order(nodes, root), {CONST})
    requires arith == Arithmetics(nodes, root)
    modifies pool.storage, constants
    ensures UpToMetadata(pool, nodes) && constants.Valid()
    ensures ok == Fits(nodes, root)
    ensures ok ==>
        FieldsBound(pool.Nodes(), loads, FieldNames(nodes, root)) && SlotsBound(pool.Nodes(), arith)
            && CarriesBound(pool.Nodes(), arith)
  {
    hide WellBuilt, SameGraph, Names, FieldsBound, SlotsBound, CarriesBound, Order;
    ListsReady(nodes, root, consts);
    ghost var names := FieldNames(nodes, root);
    ok := AssignFields(pool, loads, true, nodes);
    if !ok { return; }
    SliceConstants(pool, constants, consts, nodes, loads, names);
    ok := AssignSlots(pool, arith, nodes, loads, names);
    if !ok { return; }
    SameGraphInRange(nodes, pool.Nodes(), arith);
    ok := AssignCarries(pool, arith, nodes, loads, names);
  }

  lemma SameGraphInRange(a: seq<Node>, b: seq<Node>, list: seq<nat>)
    requires SameGraph(a, b) && InRange(a, list)
    ensures InRange(b, list)
  {
  }

  /** The bit-sliced compiler. It returns nothing exactly for a null root, more than eight distinct
      field names or more than eight arithmetic nodes; the carry limit is never the reason. */
  method CompileExpression(pool: NodePool, constants: ConstPool, root: Option<nat>, subCarry: Word)
    returns (kernel: Option<seq<Instr>>)
    requires pool.Valid() && constants.Valid() && Below(root, pool.nextIdx)
    modifies pool.storage, constants
    ensures UpToMetadata(pool, old(pool.Nodes())) && constants.Valid()
    ensures kernel.Some? <==>
              root.Some? && |FieldNames(old(pool.Nodes()), root.value)| <= 8
              && |Arithmetics(old(pool.Nodes()), root.value)| <= 8
    ensures kernel.Some? ==> Compiled(pool.Nodes(), root.value, subCarry, kernel.value)
  {
    hide SameGraph, Program, Names, FieldsBound, SlotsBound, CarriesBound, Order, Arithmetics, Loads, RootLeaves,
         OfKind;
    SameGraphItself(pool.Nodes());
    if root.None? { return None; }
    ghost var nodes := pool.Nodes();
    var order, loads, consts, arith := AnalyzeRoot(pool, root.value);
    assert pool.Nodes() == nodes;
    var ok := Allocate(pool, constants, loads, consts, arith, nodes, root.value);
    if !ok { return None; }
    SameLists(nodes, pool.Nodes(), root.value);
    SameGraphInRange(nodes, pool.Nodes(), [root.value]);
    var code := EmitProgram(pool.storage[..pool.nextIdx], arith, root.value, subCarry);
    kernel := Some(code);
  }
}
