// The engine: binding an expression to registered fields, and counting rows chunk by chunk.
module Engine {
  import opened Words
  import opened Options
  import opened BitSlicer
  import opened Machine
  import opened Ir
  import opened Analyzer
  import opened Allocation
  import opened SlicedCompiler
  import opened ScalarCompiler
  import opened ComparisonKernel
  import opened Rows
  import opened Counting
  import opened KernelCall
  import opened Chunks
  import opened ParallelRunner

  type Schema = map<string, Field>

  // ----- binding field names to descriptors -----

  /** The descriptor that belongs at field index f: the registered field of that name. */
  function BoundField(names: seq<string>, schema: Schema, f: int): Option<Field> {
    if 0 <= f < |names| && f < MAX_FIELDS && names[f] in schema then Some(schema[names[f]]) else None
  }

  /** The descriptors collected for an expression, without trailing gaps. */
  ghost predicate Collected(fields: seq<Option<Field>>, names: seq<string>, schema: Schema) {
    |fields| <= MAX_FIELDS && (forall f | 0 <= f < |fields| :: fields[f] == BoundField(names, schema, f))
    && (forall f | |fields| <= f < MAX_FIELDS :: BoundField(names, schema, f) == None)
    && (fields != [] ==> fields[|fields| - 1].Some?)
  }

  /** The registered fields among those an expression loads. */
  function LoadedFields(names: seq<string>, schema: Schema): Schema {
    map x | x in names && x in schema :: schema[x]
  }

  /** When every loaded name is registered, each kernel index gets the descriptor of its own name. */
  lemma CollectedIsBound(fields: seq<Option<Field>>, names: seq<string>, schema: Schema)
    requires Collected(fields, names, schema) && |names| <= MAX_FIELDS && forall x | x in names :: x in schema
    ensures AllBound(fields, names, LoadedFields(names, schema))
  {
    forall f | 0 <= f < |names| ensures BoundField(names, schema, f) == Some(schema[names[f]]) {
      assert names[f] in names;
    }
    assert |fields| < |names| ==> BoundField(names, schema, |fields|) == None;
    assert |fields| > |names| ==> BoundField(names, schema, |fields| - 1) == None;
    forall f | 0 <= f < |names| ensures BoundTo(fields[f], names[f], LoadedFields(names, schema)) {
      assert fields[f] == BoundField(names, schema, f);
    }
  }

  /** Every descriptor in the table stands at the index of its own name. */
  ghost predicate Proper(fields: seq<Option<Field>>, names: seq<string>, schema: Schema) {
    |fields| == MAX_FIELDS && forall f | 0 <= f < MAX_FIELDS && fields[f].Some? ::
        fields[f] == BoundField(names, schema, f)
  }

  /** The loads below p carry the index of their name. */
  ghost predicate LoadsIndexed(nodes: seq<Node>, p: Option<nat>, names: seq<string>)
    requires WellBuilt(nodes) && Below(p, |nodes|)
  {
    forall j: nat | LiesBelow(nodes, p, j) && j < |nodes| && nodes[j].kind == LOAD :: FieldBound(nodes, j, names)
  }

  /** The loads below p have their descriptors in the table. */
  ghost predicate LoadsCollected(nodes: seq<Node>, p: Option<nat>, fields: seq<Option<Field>>, names: seq<string>,
                                 schema: Schema)
    requires WellBuilt(nodes) && Below(p, |nodes|)
  {
    forall j: nat | LiesBelow(nodes, p, j) && j < |nodes| && nodes[j].kind == LOAD ::
        LoadCollected(nodes[j], fields, names, schema)
  }

  ghost predicate LoadCollected(n: Node, fields: seq<Option<Field>>, names: seq<string>, schema: Schema) {
    0 <= n.fieldIdx < |fields| ==> fields[n.fieldIdx] == BoundField(names, schema, n.fieldIdx)
  }

  /** Entries once bound stay. */
  ghost predicate Kept(before: seq<Option<Field>>, after: seq<Option<Field>>) {
    |before| == |after| && forall f | 0 <= f < |before| && before[f].Some? :: after[f] == before[f]
  }

  lemma CollectedStays(nodes: seq<Node>, p: Option<nat>, before: seq<Option<Field>>, after: seq<Option<Field>>,
                       names: seq<string>, schema: Schema)
    requires WellBuilt(nodes) && Below(p, |nodes|) && LoadsCollected(nodes, p, before, names, schema)
    requires Kept(before, after) && Proper(after, names, schema)
    ensures LoadsCollected(nodes, p, after, names, schema)
  {
    forall j: nat | LiesBelow(nodes, p, j) && j < |nodes| && nodes[j].kind == LOAD
      ensures LoadCollected(nodes[j], after, names, schema)
    {
      assert LoadCollected(nodes[j], before, names, schema);
    }
  }

  /** Walks the expression, without remembering visited nodes, and puts the descriptor of each load's
      name at the load's index. */
  method CollectFields(nodes: seq<Node>, p: Option<nat>, schema: Schema, fields: array<Option<Field>>,
                       ghost names: seq<string>)
    requires WellBuilt(nodes) && Below(p, |nodes|) && Proper(fields[..], names, schema) && LoadsIndexed(nodes, p, names)
    modifies fields
    ensures Proper(fields[..], names, schema) && Kept(old(fields[..]), fields[..])
    ensures LoadsCollected(nodes, p, fields[..], names, schema)
    decreases if p.Some? then p.value + 1 else 0
  {
    if p.None? { return; }
    var i := p.value;
    var n := nodes[i];
    assert NodeOk(n, i);
    assert LiesBelow(nodes, p, i);
    if n.kind == LOAD {
      assert FieldBound(nodes, i, names);
      if n.fieldIdx < MAX_FIELDS && n.fieldName in schema {
        fields[n.fieldIdx] := Some(schema[n.fieldName]);
      }
    }
    ghost var f0 := fields[..];
    ChildrenIndexed(nodes, i, names);
    CollectFields(nodes, n.left, schema, fields, names);
    ghost var f1 := fields[..];
    CollectFields(nodes, n.right, schema, fields, names);
    ghost var f2 := fields[..];
    if n.kind == SELECT { CollectFields(nodes, n.cond, schema, fields, names); }
    CollectedStays(nodes, n.left, f1, fields[..], names, schema);
    CollectedStays(nodes, n.right, f2, fields[..], names, schema);
    ChildrenCollected(nodes, i, f0, fields[..], names, schema);
  }

  lemma ChildrenIndexed(nodes: seq<Node>, i: nat, names: seq<string>)
    requires WellBuilt(nodes) && i < |nodes| && LoadsIndexed(nodes, Some(i), names)
    ensures NodeOk(nodes[i], i) && LoadsIndexed(nodes, nodes[i].left, names)
    ensures LoadsIndexed(nodes, nodes[i].right, names) && LoadsIndexed(nodes, nodes[i].cond, names)
  {
    assert NodeOk(nodes[i], i);
    forall j: nat | LiesBelow(nodes, nodes[i].left, j) || LiesBelow(nodes, nodes[i].right, j)
        || LiesBelow(nodes, nodes[i].cond, j)
      ensures LiesBelow(nodes, Some(i), j)
    {
    }
  }

  lemma ChildrenCollected(nodes: seq<Node>, i: nat, f0: seq<Option<Field>>, fields: seq<Option<Field>>,
                          names: seq<string>, schema: Schema)
    requires WellBuilt(nodes) && i < |nodes| && NodeOk(nodes[i], i) && Proper(fields, names, schema) && Kept(f0, fields)
    requires nodes[i].kind == LOAD ==>
               FieldBound(nodes, i, names)
               && (nodes[i].fieldIdx < MAX_FIELDS && nodes[i].fieldName in schema
                   ==> f0[nodes[i].fieldIdx] == Some(schema[nodes[i].fieldName]))
    requires LoadsCollected(nodes, nodes[i].left, fields, names, schema)
    requires LoadsCollected(nodes, nodes[i].right, fields, names, schema)
    requires nodes[i].kind == SELECT ==> LoadsCollected(nodes, nodes[i].cond, fields, names, schema)
    ensures LoadsCollected(nodes, Some(i), fields, names, schema)
  {
    forall j: nat | LiesBelow(nodes, Some(i), j) && j < |nodes| && nodes[j].kind == LOAD
      ensures LoadCollected(nodes[j], fields, names, schema)
    {
      if j != i {
        assert LiesBelow(nodes, nodes[i].left, j) || LiesBelow(nodes, nodes[i].right, j)
            || LiesBelow(nodes, nodes[i].cond, j);
      } else if 0 <= nodes[i].fieldIdx < |fields| {
        assert fields[nodes[i].fieldIdx].Some? ==>
            fields[nodes[i].fieldIdx] == BoundField(names, schema, nodes[i].fieldIdx);
      }
    }
  }

  /** Cuts the table after its last descriptor. */
  method Trim(fields: array<Option<Field>>) returns (trimmed: seq<Option<Field>>)
    requires fields.Length == MAX_FIELDS
    ensures trimmed <= fields[..] && (trimmed != [] ==> trimmed[|trimmed| - 1].Some?)
    ensures forall f | |trimmed| <= f < MAX_FIELDS :: fields[f].None?
  {
    var size := 0;
    for i := 0 to MAX_FIELDS
      invariant size <= i && (size > 0 ==> fields[size - 1].Some?)
      invariant forall f | size <= f < i :: fields[f].None?
    {
      if fields[i].Some? { size := i + 1; }
    }
    trimmed := fields[..size];
  }

  /** Walking and trimming gives exactly the collected descriptors. */
  lemma TrimmedIsCollected(nodes: seq<Node>, root: nat, table: seq<Option<Field>>, fields: seq<Option<Field>>,
                           schema: Schema)
    requires WellBuilt(nodes) && root < |nodes|
    requires FieldsBound(nodes, Loads(nodes, root), FieldNames(nodes, root))
    requires Proper(table, FieldNames(nodes, root), schema)
    requires LoadsCollected(nodes, Some(root), table, FieldNames(nodes, root), schema)
    requires fields <= table && (fields != [] ==> fields[|fields| - 1].Some?)
    requires forall f | |fields| <= f < MAX_FIELDS :: table[f].None?
    ensures Collected(fields, FieldNames(nodes, root), schema)
  {
    var names := FieldNames(nodes, root);
    forall f | 0 <= f < MAX_FIELDS ensures table[f] == BoundField(names, schema, f) {
      if table[f].None? && f < |names| { NameCollected(nodes, root, table, schema, f); }
    }
    forall f | 0 <= f < |fields| ensures fields[f] == BoundField(names, schema, f) { assert fields[f] == table[f]; }
  }

  /** Every index below the number of names belongs to some load below the root. */
  lemma NameCollected(nodes: seq<Node>, root: nat, table: seq<Option<Field>>, schema: Schema, f: nat)
    requires WellBuilt(nodes) && root < |nodes| && f < |FieldNames(nodes, root)| && f < MAX_FIELDS
    requires FieldsBound(nodes, Loads(nodes, root), FieldNames(nodes, root)) && |table| == MAX_FIELDS
    requires LoadsCollected(nodes, Some(root), table, FieldNames(nodes, root), schema)
    ensures table[f] == BoundField(FieldNames(nodes, root), schema, f)
  {
    var names, loads := FieldNames(nodes, root), Loads(nodes, root);
    NamesDistinct(nodes, loads);
    assert names[f] in names;
    var k :| 0 <= k < |loads| && nodes[loads[k]].fieldName == names[f];
    assert FieldBound(nodes, loads[k], names);
    assert nodes[loads[k]].fieldIdx == f;
    OfKindMembers(nodes, Order(nodes, root), {LOAD});
    WalkFromRoot(nodes, root);
    assert loads[k] in loads;
    assert LiesBelow(nodes, Some(root), loads[k]);
    assert LoadCollected(nodes[loads[k]], table, names, schema);
  }

  lemma LoadsAreIndexed(nodes: seq<Node>, root: nat)
    requires WellBuilt(nodes) && root < |nodes| && FieldsBound(nodes, Loads(nodes, root), FieldNames(nodes, root))
    ensures LoadsIndexed(nodes, Some(root), FieldNames(nodes, root))
  {
    var names, loads := FieldNames(nodes, root), Loads(nodes, root);
    OfKindMembers(nodes, Order(nodes, root), {LOAD});
    WalkFromRoot(nodes, root);
    forall j: nat | LiesBelow(nodes, Some(root), j) && j < |nodes| && nodes[j].kind == LOAD
      ensures FieldBound(nodes, j, names)
    {
      assert j in loads;
      var k :| 0 <= k < |loads| && loads[k] == j;
      assert FieldBound(nodes, loads[k], names);
    }
  }

  /** The descriptors of an expression, by kernel index. */
  method BindFields(nodes: seq<Node>, root: nat, schema: Schema) returns (fields: seq<Option<Field>>)
    requires WellBuilt(nodes) && root < |nodes| && FieldsBound(nodes, Loads(nodes, root), FieldNames(nodes, root))
    ensures Collected(fields, FieldNames(nodes, root), schema)
  {
    var table := new Option<Field>[MAX_FIELDS](i => None);
    LoadsAreIndexed(nodes, root);
    CollectFields(nodes, Some(root), schema, table, FieldNames(nodes, root));
    fields := Trim(table);
    TrimmedIsCollected(nodes, root, table[..], fields, schema);
  }

  // ----- the engine -----

  /** The threshold comparison set for one field, and its kernel. */
  datatype Logic = Logic(field: Field, kernel: seq<Instr>)

  /** Sequential counting: the scratchpad is cleared for every chunk, and the total counts the
      satisfying rows of all chunks, padding rows of the last one included. */
  method CountChunks(e: Expression, d: Memory, lanes: nat, buffers: seq<array<Word>>, ghost t: Table,
                     ghost nodes: seq<Node>, ghost root: nat)
    returns (total: nat)
    requires Prepared(e, nodes, root, t) && Backs(d, t) && Buffers(buffers)
    modifies buffers
    ensures WellBuilt(nodes) && root < |nodes| && Readable(t, t.rows)
    ensures total == CountRows(t, nodes, root, ModeForm(e.mode), 0, RoundUp(t.rows))
  {
    hide Prepared, Readable, CountRows, RoundUp, WellBuilt, Buffers;
    PreparedFacts(e, nodes, root, t);
    NothingToCount(t, nodes, root, ModeForm(e.mode), 0);
    ChunksCover(t.rows);
    var scratch := new Word[512](i => 0);
    total := 0;
    var chunk := 0;
    while chunk * 64 < d.rows
      invariant chunk * 64 <= RoundUp(t.rows) && (t.rows <= chunk * 64 ==> chunk * 64 == RoundUp(t.rows))
      invariant fresh(scratch) && Buffers(buffers)
      invariant total == CountRows(t, nodes, root, ModeForm(e.mode), 0, chunk * 64)
      decreases RoundUp(t.rows) - chunk * 64
    {
      forall i | 0 <= i < 512 { scratch[i] := 0; }
      var mask := ProcessChunk(e, d, chunk * 64, lanes, buffers, scratch, t, nodes, root);
      CountSplits(t, nodes, root, ModeForm(e.mode), 0, chunk * 64, chunk * 64 + 64);
      NextChunk(chunk * 64, t.rows);
      total := total + PopCount(mask);
      chunk := chunk + 1;
    }
  }

  /** One chunk of a threshold comparison: gather, slice, compare, and count the rows above. */
  method CompareChunk(logic: Logic, ghost threshold: Word, d: Memory, start: nat, lanes: nat, buffer: array<Word>,
                      ghost t: Table)
    returns (mask: Word)
    requires buffer.Length == 64 && Backs(d, t) && Readable(t, t.rows) && start < t.rows
    requires logic.field.name in t.fields && t.fields[logic.field.name] == logic.field
    requires logic.kernel == CompareProgram(threshold)
    modifies buffer
    ensures forall r | 0 <= r < 64 :: Bit(mask, r) == (Gathered(t, logic.field.name, start, r) > threshold)
  {
    hide Readable, Transpose, Gathered, CompareProgram, Reaches;
    FillBuffer(d, t, logic.field, logic.field.name, start, BIT_SLICED, lanes, buffer);
    ghost var values := GatheredSeq(t, logic.field.name, start);
    ghost var final, expected := ComparisonDecides(values, threshold, PlanesState());
    var state := RunToReturn(logic.kernel, [buffer[..]], PlanesState(), final);
    mask := state.regs[0].word;
  }

  /** Sequential counting of the rows above a threshold. */
  method CountChunksAbove(logic: Logic, ghost threshold: Word, d: Memory, lanes: nat, buffer: array<Word>,
                          ghost t: Table)
    returns (total: nat)
    requires buffer.Length == 64 && Backs(d, t) && Readable(t, t.rows)
    requires logic.field.name in t.fields && t.fields[logic.field.name] == logic.field
    requires logic.kernel == CompareProgram(threshold)
    modifies buffer
    ensures total == CountAbove(t, logic.field.name, threshold, t.rows)
  {
    hide CountAbove, Readable, CompareProgram, Gathered;
    ghost var x := logic.field.name;
    NoneAbove(t, x, threshold);
    total := 0;
    var chunk := 0;
    while chunk * 64 < d.rows
      invariant total == CountAbove(t, x, threshold, if chunk * 64 < t.rows then chunk * 64 else t.rows)
      decreases t.rows - chunk * 64
    {
      var mask := CompareChunk(logic, threshold, d, chunk * 64, lanes, buffer, t);
      PopCountsAbove(t, x, threshold, chunk * 64, mask, 64);
      total := total + PopCount(mask);
      chunk := chunk + 1;
    }
  }

  class ApexEngine {
    const schema: Schema
    const rowStride: nat
    const lanes: nat
    const buffers: seq<array<Word>>
    const constants: ConstPool
    var expression: Option<Expression>
    var logic: Option<Logic>
    ghost var graph: seq<Node>
    ghost var root: nat
    ghost var threshold: Word

    /** What set_expression and set_logic leave behind. */
    ghost predicate Valid()
      reads this
    {
      Buffers(buffers)
      && (expression.Some? ==>
            KernelOf(expression.value, graph, root) && |graph| <= MAX_NODES
            && Collected(expression.value.fields, FieldNames(graph, root), schema))
      && (logic.Some? ==>
            logic.value.field.name in schema && schema[logic.value.field.name] == logic.value.field
            && logic.value.kernel == CompareProgram(threshold))
    }

    constructor (schema: Schema, rowStride: nat, lanes: nat)
      ensures Valid() && expression.None? && logic.None?
      ensures this.schema == schema && this.rowStride == rowStride && fresh(buffers) && fresh(constants)
      ensures constants.Valid()
    {
      this.schema, this.rowStride, this.lanes := schema, rowStride, lanes;
      var columns := NewBuffers();
      buffers := columns;
      constants := new ConstPool();
      expression, logic := None, None;
    }

    /** Compiles a threshold comparison on a registered field; an unknown field changes nothing. */
    method SetLogic(name: string, threshold: Word)
      requires Valid() && forall x | x in schema :: schema[x].name == x
      modifies this
      ensures Valid() && expression == old(expression) && graph == old(graph) && root == old(root)
      ensures if name in schema then
                logic == Some(Logic(schema[name], CompareProgram(threshold))) && this.threshold == threshold
              else logic == old(logic) && this.threshold == old(this.threshold)
    {
      if name !in schema { return; }
      var kernel := CompileComparison(threshold);
      logic := Some(Logic(schema[name], kernel));
      this.threshold := threshold;
    }

    /** Compiles an expression and binds its fields. When the compiler gives up nothing changes. */
    method SetExpression(pool: NodePool, expr: Option<nat>, mode: Mode)
      requires Valid() && constants.Valid() && pool.Valid() && Below(expr, pool.nextIdx)
      requires pool.storage as object != this
      modifies this, pool.storage, constants
      ensures Valid() && constants.Valid() && UpToMetadata(pool, old(pool.Nodes()))
      ensures logic == old(logic) && threshold == old(threshold)
      ensures if expr.Some? && (mode == SCALAR || Fits(old(pool.Nodes()), expr.value)) then
                expression.Some? && expression.value.mode == mode && graph == pool.Nodes() && root == expr.value
              else expression == old(expression) && graph == old(graph) && root == old(root)
    {
      hide KernelOf, Collected, FieldNames, Arithmetics, Compiled, ScalarCompiled, FieldsBound, Loads, SameGraph;
      var kernel;
      if mode == BIT_SLICED {
        kernel := CompileExpression(pool, constants, expr, EMITTED_SUB_CARRY);
      } else {
        kernel := CompileScalarExpression(pool, expr);
      }
      if kernel.None? { return; }
      var nodes := pool.storage[..pool.nextIdx];
      KernelBound(kernel.value, mode, nodes, expr.value);
      var fields := BindFields(nodes, expr.value, schema);
      expression := Some(Expression(kernel.value, fields, mode));
      graph, root := nodes, expr.value;
      KernelIs(expression.value, nodes, expr.value);
    }

    /** The rows as the expression's kernel sees them. */
    ghost function ExpressionTable(data: seq<Byte>, rows: nat): Table
      reads this
      requires WellBuilt(graph) && root < |graph|
    {
      Table(data, rowStride, rows, LoadedFields(FieldNames(graph, root), schema))
    }

    /** What the kernel counts over the whole chunks of the first rows, of which `existing` exist. */
    ghost function CountExpression(data: seq<Byte>, existing: nat, rows: nat): nat
      reads this
      requires expression.Some? && WellBuilt(graph) && root < |graph|
      requires Readable(ExpressionTable(data, existing), existing)
    {
      CountRows(ExpressionTable(data, existing), graph, root, ModeForm(expression.value.mode), 0, RoundUp(rows))
    }

    /** The expression is a well-kinded predicate, in scalar mode over at most eight fields, its fields are
        registered, and the rows are readable. */
    ghost predicate CanExecute(data: seq<Byte>, rows: nat)
      reads this
    {
      expression.Some? && WellBuilt(graph) && root < |graph| && WellKinded(graph, Some(root))
      && (expression.value.mode == SCALAR ==> |FieldNames(graph, root)| <= MAX_FIELDS)
      && (forall x | x in FieldNames(graph, root) :: x in schema)
      && Readable(ExpressionTable(data, rows), rows)
    }

    lemma ReadyToRun(data: seq<Byte>, rows: nat)
      requires Valid() && CanExecute(data, rows)
      ensures WellBuilt(graph) && root < |graph|
      ensures Prepared(expression.value, graph, root, ExpressionTable(data, rows))
    {
      OrderFits(graph, root);
      CollectedIsBound(expression.value.fields, FieldNames(graph, root), schema);
    }

    /** Sequential execution of an expression: the scratchpad is cleared for every chunk, and the
        result counts the satisfying rows of all chunks, padding rows of the last one included. */
    method ExecuteExpression(data: seq<Byte>, rows: nat) returns (total: nat)
      requires Valid() && CanExecute(data, rows)
      modifies buffers
      ensures WellBuilt(graph) && root < |graph| && Readable(ExpressionTable(data, rows), rows)
      ensures total == CountExpression(data, rows, rows)
    {
      ReadyToRun(data, rows);
      hide Prepared, Readable, CountRows;
      total := CountChunks(expression.value, Memory(data, rowStride, rows), lanes, buffers,
                           ExpressionTable(data, rows), graph, root);
    }

    /** Parallel execution of an expression; the count is that of one run over the visited rows, which
        are the table's own rows unless a share overruns them. */
    method RunParallel(data: seq<Byte>, rows: nat, numThreads: int) returns (total: nat)
      requires Valid() && CanExecute(data, rows)
      requires CanExecute(data, Visited(rows, if numThreads <= 0 then 1 else numThreads))
      ensures var v := Visited(rows, if numThreads <= 0 then 1 else numThreads);
              WellBuilt(graph) && root < |graph| && Readable(ExpressionTable(data, v), v)
              && total == CountExpression(data, v, rows)
    {
      ghost var threads := if numThreads <= 0 then 1 else numThreads;
      ReadyToRun(data, rows);
      ReadyToRun(data, Visited(rows, threads));
      hide Prepared, CountRows, Readable, Visited;
      assert ExpressionTable(data, rows).(rows := Visited(rows, threads))
          == ExpressionTable(data, Visited(rows, threads));
      VisitedPrepared(expression.value, graph, root, ExpressionTable(data, rows), threads);
      total := ParallelRunner.Run(expression.value, Memory(data, rowStride, rows), numThreads, lanes,
                                  ExpressionTable(data, rows), graph, root);
    }

    /** The rows as the threshold comparison sees them. */
    ghost function LogicTable(data: seq<Byte>, rows: nat): Table
      reads this
      requires logic.Some?
    {
      Table(data, rowStride, rows, map[logic.value.field.name := logic.value.field])
    }

    /** Sequential execution of a threshold comparison counts exactly the rows above the threshold,
        for every row count and every threshold. */
    method ExecuteLogic(data: seq<Byte>, rows: nat) returns (total: nat)
      requires Valid() && logic.Some? && Readable(LogicTable(data, rows), rows)
      modifies buffers
      ensures total == CountAbove(LogicTable(data, rows), logic.value.field.name, threshold, rows)
    {
      hide CountAbove, Readable;
      total := CountChunksAbove(logic.value, threshold, Memory(data, rowStride, rows), lanes, buffers[0],
          LogicTable(data, rows));
    }

    /** An expression takes precedence over a threshold comparison; with neither the count is zero. */
    method Execute(data: seq<Byte>, rows: nat) returns (total: nat)
      requires Valid()
      requires expression.Some? ==> CanExecute(data, rows)
      requires expression.None? && logic.Some? ==> Readable(LogicTable(data, rows), rows)
      modifies buffers
      ensures expression.Some? ==>
                WellBuilt(graph) && root < |graph| && Readable(ExpressionTable(data, rows), rows)
                && total == CountExpression(data, rows, rows)
      ensures expression.None? && logic.Some? ==>
          total == CountAbove(LogicTable(data, rows), logic.value.field.name, threshold, rows)
      ensures expression.None? && logic.None? ==> total == 0
    {
      if expression.Some? {
        total := ExecuteExpression(data, rows);
      } else if logic.Some? {
        total := ExecuteLogic(data, rows);
      } else {
        total := 0;
      }
    }

    /** Parallel execution of an expression; anything else runs sequentially. */
    method ExecuteParallel(data: seq<Byte>, rows: nat, numThreads: int) returns (total: nat)
      requires Valid()
      requires expression.Some? ==>
                 CanExecute(data, rows) && CanExecute(data, Visited(rows, if numThreads <= 0 then 1 else numThreads))
      requires expression.None? && logic.Some? ==> Readable(LogicTable(data, rows), rows)
      modifies buffers
      ensures expression.Some? ==>
                var v := Visited(rows, if numThreads <= 0 then 1 else numThreads);
                WellBuilt(graph) && root < |graph| && Readable(ExpressionTable(data, v), v)
                && total == CountExpression(data, v, rows)
      ensures expression.None? && logic.Some? ==>
          total == CountAbove(LogicTable(data, rows), logic.value.field.name, threshold, rows)
      ensures expression.None? && logic.None? ==> total == 0
    {
      hide Visited, CountRows, Readable, CountAbove;
      if expression.Some? {
        total := RunParallel(data, rows, numThreads);
      } else {
        total := Execute(data, rows);
      }
    }
  }

  lemma KernelBound(kernel: seq<Instr>, mode: Mode, nodes: seq<Node>, root: nat)
    requires if mode == BIT_SLICED then Compiled(nodes, root, EMITTED_SUB_CARRY, kernel)
        else ScalarCompiled(nodes, root, kernel)
    ensures WellBuilt(nodes) && root < |nodes| && FieldsBound(nodes, Loads(nodes, root), FieldNames(nodes, root))
  {
  }

  lemma KernelIs(e: Expression, nodes: seq<Node>, root: nat)
    requires if e.mode == BIT_SLICED then Compiled(nodes, root, EMITTED_SUB_CARRY, e.kernel)
        else ScalarCompiled(nodes, root, e.kernel)
    ensures KernelOf(e, nodes, root)
  {
  }

  lemma ChunksCover(rows: nat)
    ensures rows == 0 ==> RoundUp(rows) == 0
  {
  }

  lemma NoneAbove(t: Table, x: string, threshold: Word)
    requires Readable(t, t.rows) && x in t.fields
    ensures CountAbove(t, x, threshold, 0) == 0
  {
  }
}
