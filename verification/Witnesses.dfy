// Concrete inputs on which the original answers wrongly or reads past an array, one for each cause.
module Witnesses {
  import opened Words
  import opened Options
  import opened Machine
  import opened Ir
  import opened Analyzer
  import opened Allocation
  import opened Drifts
  import opened SlicedCompiler
  import opened SlicedCorrectness
  import opened SlicedLaw
  import opened ScalarCompiler
  import opened ScalarCorrectness
  import opened ScalarFaults
  import opened Agreement
  import opened Rows
  import opened Counting
  import opened KernelCall
  import opened ParallelRunner
  import opened ChunkClaiming

  // ----- the emitted carry word -----

  /** The graph of a - b > 0. */
  function DifferenceGraph(): (nodes: seq<Node>)
    ensures WellBuilt(nodes) && |nodes| == 5
  {
    [Fresh(LOAD).(fieldName := "a"), Fresh(LOAD).(fieldName := "b"),
     Fresh(SUB).(left := Some(0), right := Some(1)), Fresh(CONST), Fresh(GT).(left := Some(2), right := Some(3))]
  }

  function FiveAndFive(): Row {
    map["a" := 5, "b" := 5]
  }

  lemma DifferenceFacts()
    ensures var nodes, row := DifferenceGraph(), FiveAndFive();
            InFragment(nodes, 4) && !Verdict(nodes, 4, row, true) && Verdict(nodes, 4, row, false)
  {
    var nodes := DifferenceGraph();
    var row := FiveAndFive();
    assert Arithmetic(nodes, Some(0)) && Arithmetic(nodes, Some(1)) && Arithmetic(nodes, Some(3));
    assert Arithmetic(nodes, Some(2));
    assert Leaves(nodes, Some(4)) == [4];
    assert Eval(nodes, 0, row, false) == 5 && Eval(nodes, 1, row, false) == 5 && Eval(nodes, 3, row, false) == 0;
    assert Eval(nodes, 0, row, true) == 5 && Eval(nodes, 1, row, true) == 5 && Eval(nodes, 3, row, true) == 0;
    assert Eval(nodes, 2, row, false) == ALL_ONES && Eval(nodes, 2, row, true) == 0;
  }

  lemma SameFragment(a: seq<Node>, b: seq<Node>, root: nat)
    requires SameGraph(a, b) && WellBuilt(a) && WellBuilt(b) && root < |a|
    ensures InFragment(a, root) == InFragment(b, root)
  {
    SameConjunctive(a, b, root);
    SameLists(a, b, root);
  }

  lemma {:induction false} SameConjunctive(a: seq<Node>, b: seq<Node>, i: nat)
    requires SameGraph(a, b) && WellBuilt(a) && WellBuilt(b) && i < |a|
    ensures Conjunctive(a, Some(i)) == Conjunctive(b, Some(i))
    decreases i
  {
    hide WellKinded;
    assert SameNode(a[i], b[i]) && NodeOk(a[i], i) && NodeOk(b[i], i);
    SameKinded(a, b, Some(i));
    if a[i].kind == AND {
      if a[i].left.Some? { SameConjunctive(a, b, a[i].left.value); }
      if a[i].right.Some? { SameConjunctive(a, b, a[i].right.value); }
    }
  }

  lemma DifferenceLoads(i: nat)
    requires i < 5 && DifferenceGraph()[i].kind == LOAD
    ensures DifferenceGraph()[i].fieldName == "a" || DifferenceGraph()[i].fieldName == "b"
  {
  }

  /** The graph loads no other field. */
  lemma FieldsAreTwo(nodes: seq<Node>, name: string)
    requires SameGraph(DifferenceGraph(), nodes) && WellBuilt(nodes) && name in FieldNames(nodes, 4)
    ensures name == "a" || name == "b"
  {
    hide Order, OfKind, Names, DifferenceGraph;
    var loads := Loads(nodes, 4);
    OfKindMembers(nodes, Order(nodes, 4), {LOAD});
    NamesDistinct(nodes, loads);
    var k :| 0 <= k < |loads| && nodes[loads[k]].fieldName == name;
    assert loads[k] in loads && SameNode(DifferenceGraph()[loads[k]], nodes[loads[k]]);
    DifferenceLoads(loads[k]);
  }

  /** Both fields hold five in all 64 rows. */
  lemma FivesGathered(nodes: seq<Node>, names: seq<string>)
    requires SameGraph(DifferenceGraph(), nodes) && WellBuilt(nodes) && names == FieldNames(nodes, 4)
    ensures GatheredColumns(seq(64, i => FiveAndFive()), names, Fives(|names|))
  {
    hide FieldNames, DifferenceGraph;
    forall f | 0 <= f < |names| ensures GatheredColumn(seq(64, i => FiveAndFive()), names[f], Fives(|names|)[f]) {
      FieldsAreTwo(nodes, names[f]);
    }
  }

  function Fives(n: nat): (columns: Columns)
    ensures |columns| == n && forall f | 0 <= f < n :: |columns[f]| == 64
  {
    seq(n, f => seq(64, i => 5))
  }

  /** With the emitted carry word the kernel of a - b > 0 answers yes in every row but the first where
      both fields are five; the scalar kernel answers no in every row. */
  lemma EmittedSubtractionFails(sliced: seq<Node>, scalar: seq<Node>, slicedProgram: seq<Instr>,
                                scalarProgram: seq<Instr>,
                                s: State, u: State, s': State, u': State)
    requires SameGraph(DifferenceGraph(), sliced) && SameGraph(DifferenceGraph(), scalar)
    requires Compiled(sliced, 4, EMITTED_SUB_CARRY, slicedProgram) && ScalarCompiled(scalar, 4, scalarProgram)
    requires Entry(s) && Entry(u)
    requires Reaches(slicedProgram, SliceAll(Fives(|FieldNames(sliced, 4)|)), Running(0, s), Halted(s'))
    requires Reaches(scalarProgram, Fives(|FieldNames(scalar, 4)|), Running(0, u), Halted(u'))
    ensures s'.regs[0] == Num(ALL_ONES - 1) && u'.regs[0] == Num(0)
  {
    var columns := Fives(|FieldNames(sliced, 4)|);
    var t, mask := EmittedDifference(sliced, slicedProgram, s);
    var v, mask' := ScalarDifference(scalar, scalarProgram, u);
    hide Reaches, Compiled, ScalarCompiled, Entry, SliceAll, Fives, FieldNames, SameGraph;
    HaltsOnce(slicedProgram, SliceAll(columns), Running(0, s), Halted(t), Halted(s'));
    HaltsOnce(scalarProgram, Fives(|FieldNames(scalar, 4)|), Running(0, u), Halted(v), Halted(u'));
  }

  lemma EmittedDifference(nodes: seq<Node>, program: seq<Instr>, s: State) returns (t: State, mask: Word)
    requires SameGraph(DifferenceGraph(), nodes) && Compiled(nodes, 4, EMITTED_SUB_CARRY, program) && Entry(s)
    ensures Reaches(program, SliceAll(Fives(|FieldNames(nodes, 4)|)), Running(0, s), Halted(t))
    ensures t.regs[0] == Num(mask) && mask == ALL_ONES - 1
  {
    var rows := seq(64, i => FiveAndFive());
    var columns := Fives(|FieldNames(nodes, 4)|);
    DifferenceFacts();
    SameFragment(DifferenceGraph(), nodes, 4);
    FivesGathered(nodes, FieldNames(nodes, 4));
    SlicingGathered(rows, FieldNames(nodes, 4), columns);
    t, mask := SlicedKernelDecides(nodes, 4, EMITTED_SUB_CARRY, program, rows, SliceAll(columns), s);
    forall r | 0 <= r < 64 ensures Bit(mask, r) == Bit(Not(1), r) {
      assert Bit(mask, r) == Verdict(nodes, 4, rows[r], Bit(1, r));
      SameMeaning(DifferenceGraph(), nodes, 4, FiveAndFive(), Bit(1, r));
      hide Verdict, DifferenceGraph, FiveAndFive;
      ConstantBits(r);
    }
    WordsEqual(mask, Not(1));
  }

  lemma ScalarDifference(nodes: seq<Node>, program: seq<Instr>, s: State) returns (t: State, mask: Word)
    requires SameGraph(DifferenceGraph(), nodes) && ScalarCompiled(nodes, 4, program) && Entry(s)
    ensures Reaches(program, Fives(|FieldNames(nodes, 4)|), Running(0, s), Halted(t))
    ensures t.regs[0] == Num(mask) && mask == 0
  {
    var rows := seq(64, i => FiveAndFive());
    DifferenceFacts();
    SameFragment(DifferenceGraph(), nodes, 4);
    FivesGathered(nodes, FieldNames(nodes, 4));
    SmallGraphsFit(nodes, 4);
    t, mask := ScalarKernelDecides(nodes, 4, program, rows, Fives(|FieldNames(nodes, 4)|), s);
    forall r | 0 <= r < 64 ensures Bit(mask, r) == Bit(0, r) {
      assert Bit(mask, r) == Verdict(nodes, 4, rows[r], true);
      SameMeaning(DifferenceGraph(), nodes, 4, FiveAndFive(), true);
      ConstantBits(r);
    }
    WordsEqual(mask, 0);
  }

  method BuildDifference() returns (pool: NodePool, root: Option<nat>)
    ensures fresh(pool) && fresh(pool.storage) && pool.Valid() && pool.Nodes() == DifferenceGraph() && root == Some(4)
  {
    pool := new NodePool();
    var a := pool.Load("a");
    var b := pool.Load("b");
    var d := pool.Binary(SUB, a, b);
    var zero := pool.Const(0);
    root := pool.Binary(GT, d, zero);
  }

  method RunSliced(pool: NodePool, program: seq<Instr>) returns (mask: Word)
    requires pool.Valid() && SameGraph(DifferenceGraph(), pool.Nodes())
    requires Compiled(pool.Nodes(), 4, EMITTED_SUB_CARRY, program)
    ensures mask == ALL_ONES - 1
  {
    hide Compiled, WellBuilt, Reaches, SliceAll;
    var nodes := pool.storage[..pool.nextIdx];
    CompiledBounds(nodes, program);
    ghost var t, expected := EmittedDifference(nodes, program, EntryState(seq(512, i => 0)));
    var final := RunToReturn(program, SliceAll(Fives(|FieldNames(nodes, 4)|)), EntryState(seq(512, i => 0)), t);
    mask := final.regs[0].word;
  }

  method RunScalar(pool: NodePool, program: seq<Instr>) returns (mask: Word)
    requires pool.Valid() && SameGraph(DifferenceGraph(), pool.Nodes())
    requires ScalarCompiled(pool.Nodes(), 4, program)
    ensures mask == 0
  {
    hide ScalarCompiled, WellBuilt, Reaches;
    var nodes := pool.storage[..pool.nextIdx];
    ScalarCompiledBounds(nodes, program);
    ghost var t, expected := ScalarDifference(nodes, program, EntryState(seq(512, i => 0)));
    var final := RunToReturn(program, Fives(|FieldNames(nodes, 4)|), EntryState(seq(512, i => 0)), t);
    mask := final.regs[0].word;
  }

  /** Builds a - b > 0, compiles it both ways, and runs both kernels where both fields are five. */
  method CompareDifference() returns (sliced: Word, scalar: Word)
    ensures sliced == ALL_ONES - 1 && scalar == 0
  {
    hide Compiled, ScalarCompiled, SameGraph, Fits, WellBuilt;
    var pool, root := BuildDifference();
    SmallGraphsFit(pool.Nodes(), 4);
    var constants := new ConstPool();
    var kernel := CompileExpression(pool, constants, root, EMITTED_SUB_CARRY);
    ghost var was := pool.Nodes();
    sliced := RunSliced(pool, kernel.value);
    var scalarKernel := CompileScalarExpression(pool, root);
    SameGraphTrans(DifferenceGraph(), was, pool.Nodes());
    scalar := RunScalar(pool, scalarKernel.value);
  }

  lemma SameGraphTrans(a: seq<Node>, b: seq<Node>, c: seq<Node>)
    requires SameGraph(a, b) && SameGraph(b, c)
    ensures SameGraph(a, c)
  {
    forall i | 0 <= i < |a| ensures SameNode(a[i], c[i]) { assert SameNode(a[i], b[i]) && SameNode(b[i], c[i]); }
  }

  lemma CompiledBounds(nodes: seq<Node>, program: seq<Instr>)
    requires Compiled(nodes, 4, EMITTED_SUB_CARRY, program)
    ensures WellBuilt(nodes) && 4 < |nodes|
  {
  }

  lemma ScalarCompiledBounds(nodes: seq<Node>, program: seq<Instr>)
    requires ScalarCompiled(nodes, 4, program)
    ensures WellBuilt(nodes) && 4 < |nodes|
  {
  }

  // ----- outside the bit-sliced fragment -----

  /** The columns of 64 equal rows. */
  function Uniform(row: Row, names: seq<string>): (columns: Columns)
    ensures |columns| == |names| && forall f | 0 <= f < |columns| :: |columns[f]| == 64
  {
    seq(|names|, f requires 0 <= f < |names| => seq(64, i => Lookup(row, names[f])))
  }

  lemma SameAnswer(a: seq<Node>, b: seq<Node>, root: nat, row: Row, c: bool)
    requires SameGraph(a, b) && WellBuilt(a) && WellBuilt(b) && root < |a|
    ensures Answer(a, root, row, c) == Answer(b, root, row, c)
  {
    SameLists(a, b, root);
    var leaves := ComparedLeaves(a, root);
    forall k | 0 <= k < |leaves| ensures LeafTrue(a, leaves[k], row, c) == LeafTrue(b, leaves[k], row, c) {
      assert SameNode(a[leaves[k]], b[leaves[k]]);
      SameMeaning(a, b, leaves[k], row, c);
    }
  }

  lemma UniformSliced(row: Row, names: seq<string>)
    ensures SlicedColumns(seq(64, i => row), names, SliceAll(Uniform(row, names)))
  {
    SlicingGathered(seq(64, i => row), names, Uniform(row, names));
  }

  /** The compiled kernel of a graph, on 64 equal rows that are answered alike with and without carry-in,
      returns all ones or zero. */
  lemma UniformMask(graph: seq<Node>, root: nat, nodes: seq<Node>, program: seq<Instr>, row: Row, yes: bool,
                    s: State, t: State)
    requires WellBuilt(graph) && root < |graph| && WellKinded(graph, Some(root)) && SameGraph(graph, nodes)
    requires forall c :: Answer(graph, root, row, c) == yes
    requires Compiled(nodes, root, EMITTED_SUB_CARRY, program) && Entry(s)
    requires Reaches(program, SliceAll(Uniform(row, FieldNames(nodes, root))), Running(0, s), Halted(t))
    ensures t.regs[0] == Num(if yes then ALL_ONES else 0)
  {
    assert WellBuilt(nodes) && |graph| == |nodes|;
    hide Compiled, Reaches, Entry, Answer, SliceAll, Uniform, FieldNames, WellKinded, SameGraph, Returned;
    var rows, names := seq(64, i => row), FieldNames(nodes, root);
    var columns := Uniform(row, names);
    SameKinded(graph, nodes, Some(root));
    UniformSliced(row, names);
    var u, mask := SlicedKernel(nodes, root, EMITTED_SUB_CARRY, program, rows, SliceAll(columns), s);
    HaltsOnce(program, SliceAll(columns), Running(0, s), Halted(u), Halted(t));
    var word: Word := if yes then ALL_ONES else 0;
    forall r | 0 <= r < 64 ensures Bit(mask, r) == Bit(word, r) {
      assert Bit(mask, r) == Answer(nodes, root, rows[r], Bit(EMITTED_SUB_CARRY, r));
      SameAnswer(graph, nodes, root, row, Bit(EMITTED_SUB_CARRY, r));
      ConstantBits(r);
    }
    WordsEqual(mask, word);
  }

  /** The graph of a > 0 or a > 0. */
  function OrGraph(): (nodes: seq<Node>)
    ensures WellBuilt(nodes) && |nodes| == 4
  {
    PositiveGraph() + [Fresh(OR).(left := Some(2), right := Some(2))]
  }

  lemma OrFacts(c: bool)
    ensures WellKinded(OrGraph(), Some(3)) && Answer(OrGraph(), 3, map["a" := 0], c)
    ensures !Verdict(OrGraph(), 3, map["a" := 0], c)
  {
    var nodes := OrGraph();
    var row: Row := map["a" := 0];
    assert Arithmetic(nodes, Some(0)) && Arithmetic(nodes, Some(1));
    assert WellKinded(nodes, Some(2));
    assert RootLeaves(nodes, 3) == [];
    assert Eval(nodes, 0, row, c) == 0 && Eval(nodes, 1, row, c) == 0;
    assert Eval(nodes, 2, row, c) == 0;
  }

  /** The bit-sliced kernel of a > 0 or a > 0 answers yes in every row where a is zero. */
  lemma OrIsDropped(nodes: seq<Node>, program: seq<Instr>, s: State, t: State)
    requires SameGraph(OrGraph(), nodes) && Compiled(nodes, 3, EMITTED_SUB_CARRY, program) && Entry(s)
    requires Reaches(program, SliceAll(Uniform(map["a" := 0], FieldNames(nodes, 3))), Running(0, s), Halted(t))
    ensures t.regs[0] == Num(ALL_ONES) && !Verdict(OrGraph(), 3, map["a" := 0], true)
  {
    OrFacts(true);
    OrFacts(false);
    hide Compiled, Reaches, Entry, Answer, Verdict, SameGraph, OrGraph, SliceAll, Uniform, WellKinded;
    UniformMask(OrGraph(), 3, nodes, program, map["a" := 0], true, s, t);
  }

  /** The graph of a == a. */
  function EqualGraph(): (nodes: seq<Node>)
    ensures WellBuilt(nodes) && |nodes| == 2
  {
    [Fresh(LOAD).(fieldName := "a"), Fresh(EQ).(left := Some(0), right := Some(0))]
  }

  lemma EqualFacts(c: bool)
    ensures WellKinded(EqualGraph(), Some(1)) && !Answer(EqualGraph(), 1, map["a" := 0], c)
    ensures Verdict(EqualGraph(), 1, map["a" := 0], c)
  {
    var nodes := EqualGraph();
    assert Arithmetic(nodes, Some(0));
    assert RootLeaves(nodes, 1) == [1];
    assert ComparedLeaves(nodes, 1)[0] == 1;
    assert !LeafTrue(nodes, ComparedLeaves(nodes, 1)[0], map["a" := 0], c);
  }

  /** The bit-sliced kernel of a == a answers no in every row. */
  lemma EqualIsNeverTrue(nodes: seq<Node>, program: seq<Instr>, s: State, t: State)
    requires SameGraph(EqualGraph(), nodes) && Compiled(nodes, 1, EMITTED_SUB_CARRY, program) && Entry(s)
    requires Reaches(program, SliceAll(Uniform(map["a" := 0], FieldNames(nodes, 1))), Running(0, s), Halted(t))
    ensures t.regs[0] == Num(0) && Verdict(EqualGraph(), 1, map["a" := 0], true)
  {
    EqualFacts(true);
    EqualFacts(false);
    hide Compiled, Reaches, Entry, Answer, Verdict, SameGraph, EqualGraph, SliceAll, Uniform, WellKinded;
    UniformMask(EqualGraph(), 1, nodes, program, map["a" := 0], false, s, t);
  }

  /** The graph of a > 0 and a > 0 and a > 0 and 0 > a. */
  function FourLeafGraph(): (nodes: seq<Node>)
    ensures WellBuilt(nodes) && |nodes| == 7
  {
    PositiveGraph()
    + [Fresh(GT).(left := Some(1), right := Some(0)), Fresh(AND).(left := Some(2), right := Some(2)),
       Fresh(AND).(left := Some(4), right := Some(2)), Fresh(AND).(left := Some(5), right := Some(3))]
  }

  lemma FourLeafKinds()
    ensures WellKinded(FourLeafGraph(), Some(6))
  {
    var nodes := FourLeafGraph();
    assert Arithmetic(nodes, Some(0)) && Arithmetic(nodes, Some(1));
    assert WellKinded(nodes, Some(2)) && WellKinded(nodes, Some(3));
    assert WellKinded(nodes, Some(4)) && WellKinded(nodes, Some(5));
  }

  lemma FourLeafShape()
    ensures WellKinded(FourLeafGraph(), Some(6)) && ComparedLeaves(FourLeafGraph(), 6) == [2, 2, 2]
  {
    hide WellKinded, Arithmetic;
    FourLeafKinds();
    var nodes := FourLeafGraph();
    assert Leaves(nodes, Some(2)) == [2] && Leaves(nodes, Some(3)) == [3];
    assert Leaves(nodes, Some(4)) == [2, 2];
    assert Leaves(nodes, Some(5)) == [2, 2, 2];
    assert RootLeaves(nodes, 6) == [2, 2, 2, 3];
  }

  lemma FourLeafFacts(c: bool)
    ensures WellKinded(FourLeafGraph(), Some(6)) && Answer(FourLeafGraph(), 6, map["a" := 1], c)
    ensures !Verdict(FourLeafGraph(), 6, map["a" := 1], c)
  {
    hide WellKinded, ComparedLeaves;
    FourLeafShape();
    var nodes := FourLeafGraph();
    var row: Row := map["a" := 1];
    assert Eval(nodes, 0, row, c) == 1 && Eval(nodes, 1, row, c) == 0;
    assert Eval(nodes, 2, row, c) == 1 && Eval(nodes, 3, row, c) == 0;
  }

  /** The bit-sliced kernel answers yes in every row where a is one: the fourth leaf is not compared. */
  lemma FourthLeafIsIgnored(nodes: seq<Node>, program: seq<Instr>, s: State, t: State)
    requires SameGraph(FourLeafGraph(), nodes) && Compiled(nodes, 6, EMITTED_SUB_CARRY, program) && Entry(s)
    requires Reaches(program, SliceAll(Uniform(map["a" := 1], FieldNames(nodes, 6))), Running(0, s), Halted(t))
    ensures t.regs[0] == Num(ALL_ONES) && !Verdict(FourLeafGraph(), 6, map["a" := 1], true)
  {
    FourLeafFacts(true);
    FourLeafFacts(false);
    hide Compiled, Reaches, Entry, Answer, Verdict, SameGraph, FourLeafGraph, SliceAll, Uniform, WellKinded;
    UniformMask(FourLeafGraph(), 6, nodes, program, map["a" := 1], true, s, t);
  }

  // ----- a ninth field -----

  /** Nine field names, told apart by their lengths. */
  function NthName(i: nat): string {
    seq(i + 1, k => 'f')
  }

  /** Nine fields, their sum by eight ADD nodes, a constant, and the comparison of the two. */
  function NineFields(): (nodes: seq<Node>)
    ensures |nodes| == 19
  {
    seq(19, i requires 0 <= i < 19 => NineFieldsNode(i))
  }

  function NineFieldsNode(i: nat): Node {
    if i < 9 then Fresh(LOAD).(fieldName := NthName(i))
    else if i < 17 then Fresh(ADD).(left := Some(if i == 9 then 0 else i - 1), right := Some(i - 8))
    else if i == 17 then Fresh(CONST)
    else Fresh(GT).(left := Some(16), right := Some(17))
  }

  lemma NineFieldsBuilt()
    ensures WellBuilt(NineFields())
  {
    forall i | 0 <= i < 19 ensures NodeOk(NineFields()[i], i) {}
  }

  lemma {:induction false} SumOfFields(i: nat)
    requires 9 <= i < 17
    ensures WellBuilt(NineFields()) && Arithmetic(NineFields(), Some(i))
    ensures forall j: nat | j <= i - 8 :: Reach(NineFields(), i, j)
  {
    NineFieldsBuilt();
    var nodes := NineFields();
    assert nodes[i] == NineFieldsNode(i) && nodes[i - 8] == NineFieldsNode(i - 8);
    assert Arithmetic(nodes, Some(i - 8)) && Reach(nodes, i - 8, i - 8);
    if i == 9 {
      assert nodes[0] == NineFieldsNode(0);
      assert Arithmetic(nodes, Some(0)) && Reach(nodes, 0, 0);
    } else {
      SumOfFields(i - 1);
    }
    hide NineFields;
    forall j: nat | j <= i - 8 ensures Reach(nodes, i, j) {
      assert j == i - 8 || i == 9 || Reach(nodes, i - 1, j);
    }
  }

  lemma NineFieldsReached(j: nat)
    requires j < 9
    ensures WellBuilt(NineFields()) && WellKinded(NineFields(), Some(18)) && Reach(NineFields(), 18, j)
  {
    NineFieldsBuilt();
    SumOfFields(16);
    var nodes := NineFields();
    assert nodes[18] == NineFieldsNode(18) && nodes[17] == NineFieldsNode(17);
    assert Arithmetic(nodes, Some(17));
  }

  lemma NthFieldNamed(j: nat)
    requires j < 9
    ensures WellBuilt(NineFields()) && NthName(j) in FieldNames(NineFields(), 18)
  {
    NineFieldsReached(j);
    var nodes := NineFields();
    assert nodes[j] == NineFieldsNode(j);
    WalkFromRoot(nodes, 18);
    OfKindMembers(nodes, Order(nodes, 18), {LOAD});
    NamesDistinct(nodes, Loads(nodes, 18));
    assert j in Loads(nodes, 18);
  }

  /** Positions of the first k names, all different. */
  lemma {:induction false} NamePositions(names: seq<string>, k: nat) returns (at: seq<nat>)
    requires forall j: nat | j < k :: NthName(j) in names
    ensures |at| == k && Distinct(at) && forall j | 0 <= j < k :: at[j] < |names| && names[at[j]] == NthName(j)
  {
    if k == 0 {
      at := [];
    } else {
      at := NamePositions(names, k - 1);
      var p :| 0 <= p < |names| && names[p] == NthName(k - 1);
      forall j | 0 <= j < k - 1 ensures at[j] != p { assert |NthName(j)| != |NthName(k - 1)|; }
      at := at + [p];
    }
  }

  /** Nine different fields exceed the eight entries of the pointer array. */
  lemma NineFieldsNamed()
    ensures WellBuilt(NineFields()) && WellKinded(NineFields(), Some(18))
    ensures |FieldNames(NineFields(), 18)| > MAX_FIELDS
  {
    NineFieldsReached(0);
    forall j: nat | j < 9 ensures NthName(j) in FieldNames(NineFields(), 18) { NthFieldNamed(j); }
    hide FieldNames, NineFields, NthName, WellKinded;
    var at := NamePositions(FieldNames(NineFields(), 18), 9);
    DistinctFits(at, |FieldNames(NineFields(), 18)|);
  }

  /** The scalar kernel of a well-kinded predicate over nine fields reads past the pointer array, whatever
      the columns hold. */
  lemma NinthFieldIsReadBeyond(nodes: seq<Node>, program: seq<Instr>, columns: Columns, s: State)
    requires SameGraph(NineFields(), nodes) && ScalarCompiled(nodes, 18, program) && Entry(s)
    ensures WellBuilt(NineFields()) && WellKinded(NineFields(), Some(18))
    ensures Reaches(program, columns, Running(0, s), Stuck)
  {
    NineFieldsNamed();
    SameLists(NineFields(), nodes, 18);
    hide FieldNames, NineFields, Reaches, SameGraph;
    NinthFieldFaults(nodes, 18, program, columns, s);
  }

  // ----- padding -----

  /** The graph of 1 > 0. */
  function TrueGraph(): (nodes: seq<Node>)
    ensures WellBuilt(nodes) && |nodes| == 3
  {
    [Fresh(CONST).(constValue := 1), Fresh(CONST), Fresh(GT).(left := Some(0), right := Some(1))]
  }

  /** One row, and a predicate true of every row: both modes count all 64 rows of the chunk. */
  lemma PaddingIsCounted(form: Form)
    ensures var t := Table([], 0, 1, map[]);
            CountRows(t, TrueGraph(), 2, form, 0, RoundUp(1)) == 64 && Matches(t, TrueGraph(), 2, 1) == 1
  {
    var t, nodes := Table([], 0, 1, map[]), TrueGraph();
    assert Arithmetic(nodes, Some(0)) && Arithmetic(nodes, Some(1));
    assert Leaves(nodes, Some(2)) == [2];
    assert Steady(nodes, 2);
    assert Exact(nodes, 2, form);
    forall row: Row ensures Verdict(nodes, 2, row, true) {
      assert Eval(nodes, 0, row, true) == 1 && Eval(nodes, 1, row, true) == 0;
    }
    hide Verdict, CountRows;
    ExactCount(t, nodes, 2, form);
    assert Matches(t, nodes, 2, 0) == 0;
  }

  // ----- overrun -----

  /** The graph of a > 0. */
  function PositiveGraph(): (nodes: seq<Node>)
    ensures WellBuilt(nodes) && |nodes| == 3
  {
    [Fresh(LOAD).(fieldName := "a"), Fresh(CONST), Fresh(GT).(left := Some(0), right := Some(1))]
  }

  /** Memory for 128 rows of one eight-byte field, all bytes one, of which 65 rows are the table's. */
  function OnesTable(): Table {
    Table(seq(1024, i => 1), 8, 65, map["a" := Field("a", 0, 64)])
  }

  /** The memory after the table's last row matches. */
  lemma PastMatches(form: Form)
    ensures var past := OnesTable().(rows := 128);
            Readable(past, 128) && CountRows(past, PositiveGraph(), 2, form, 65, 128) > 0
  {
    var past, nodes := OnesTable().(rows := 128), PositiveGraph();
    OnesReadable(past, 128);
    PositiveExact(form);
    CountSplits(past, nodes, 2, form, 65, 66, 128);
    RowExact(past, nodes, 2, form, 65);
    PositiveRow(RowAt(past, 65));
    OnesRow(past);
    hide Satisfies, Verdict, Exact, OnesTable, PositiveGraph;
    assert CountRows(past, nodes, 2, form, 65, 65) == 0;
  }

  /** Zero padding does not. */
  lemma PaddingFails(form: Form)
    ensures Readable(OnesTable(), 65) && CountRows(OnesTable(), PositiveGraph(), 2, form, 65, 128) == 0
  {
    OnesReadable(OnesTable(), 65);
    PositiveExact(form);
    PositiveRow(ZeroRow(OnesTable()));
    hide Verdict, Exact, PositiveGraph, CountRows;
    PaddingCounts(OnesTable(), PositiveGraph(), 2, form, 128);
  }

  /** Three threads over 65 rows: the second thread's share passes the last row and counts rows that
      the sequential run does not. */
  lemma OverrunIsCounted(form: Form)
    ensures var t := OnesTable();
            Readable(t, t.rows) && Readable(t, Visited(t.rows, 3))
            && SumCounts(t, PositiveGraph(), 2, form, 3, 3)
               != CountRows(t, PositiveGraph(), 2, form, 0, RoundUp(t.rows))
  {
    assert RoundUp(65) == 128 && Overruns(65, 3);
    OnesReadable(OnesTable(), 128);
    PastMatches(form);
    PaddingFails(form);
    assert OnesTable().rows == 65;
    hide CountRows, PositiveGraph, Readable, SumCounts, OnesTable;
    OverrunAgreesIff(OnesTable(), PositiveGraph(), 2, form, 3);
  }

  lemma OnesReadable(t: Table, n: nat)
    requires t.data == seq(1024, i => 1) && t.stride == 8 && t.fields == map["a" := Field("a", 0, 64)] && n <= 128
    ensures Readable(t, n)
  {
  }

  lemma OnesRow(past: Table)
    requires past == OnesTable().(rows := 128) && Readable(past, 128)
    ensures Lookup(RowAt(past, 65), "a") > 0
  {
    assert CellReadable(past, 65, "a");
  }

  lemma PositiveExact(form: Form)
    ensures Exact(PositiveGraph(), 2, form)
  {
    var nodes := PositiveGraph();
    assert Arithmetic(nodes, Some(0)) && Arithmetic(nodes, Some(1));
    assert Leaves(nodes, Some(2)) == [2];
    assert Steady(nodes, 2);
  }

  lemma PositiveRow(row: Row)
    ensures Verdict(PositiveGraph(), 2, row, true) == (Lookup(row, "a") > 0)
  {
    var nodes := PositiveGraph();
    assert Eval(nodes, 0, row, true) == Lookup(row, "a") && Eval(nodes, 1, row, true) == 0;
  }

  // ----- the dropped tail -----

  /** One price above the threshold and no whole chunk: every finished run of the claiming workers
      counts nothing, and the reference counts one. */
  lemma TailIsDropped(threads: nat, schedule: seq<nat>)
    requires threads > 0 && AllFinished(ChunkClaiming.RunSchedule(Input([5], 0), threads, schedule))
    ensures ChunkClaiming.RunSchedule(Input([5], 0), threads, schedule).total == 0 && CountGreater([5], 1, 0) == 1
  {
    TotalAtJoin(Input([5], 0), threads, schedule);
    assert CountGreater([5], 0, 0) == 0;
  }
}
