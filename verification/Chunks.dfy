// One chunk of up to 64 rows through gather, slice, kernel and mask.
module Chunks {
  import opened Words
  import opened Options
  import opened BitSlicer
  import opened Machine
  import opened Ir
  import opened Analyzer
  import opened Allocation
  import opened SlicedCompiler
  import opened SlicedCorrectness
  import opened SlicedLaw
  import opened ScalarCompiler
  import opened ScalarCorrectness
  import opened Rows
  import opened Counting
  import opened KernelCall

  datatype Mode = BIT_SLICED | SCALAR

  /** A compiled expression with the descriptors of the fields it loads, by field index. */
  datatype Expression = Expression(kernel: seq<Instr>, fields: seq<Option<Field>>, mode: Mode)

  /** How each mode evaluates: the bit-sliced one with the carry word as emitted. */
  function ModeForm(mode: Mode): Form {
    if mode == BIT_SLICED then Sliced(EMITTED_SUB_CARRY) else Scalar
  }

  /** The kernel is what the mode's compiler made of the graph. */
  ghost predicate KernelOf(e: Expression, nodes: seq<Node>, root: nat) {
    WellBuilt(nodes) && root < |nodes|
    && if e.mode == BIT_SLICED then Compiled(nodes, root, EMITTED_SUB_CARRY, e.kernel)
       else ScalarCompiled(nodes, root, e.kernel)
  }

  /** Well-kinded predicates over at most eight fields; a ninth field makes the scalar kernel fault. */
  ghost predicate Supported(nodes: seq<Node>, root: nat) {
    WellBuilt(nodes) && root < |nodes| && WellKinded(nodes, Some(root))
    && |FieldNames(nodes, root)| <= MAX_FIELDS && |Order(nodes, root)| <= 512
  }

  /** Every loaded field is registered and its descriptor stands at its index. */
  ghost predicate AllBound(fields: seq<Option<Field>>, names: seq<string>, table: map<string, Field>) {
    |fields| == |names| && table.Keys == (set x | x in names)
    && forall f | 0 <= f < |names| :: BoundTo(fields[f], names[f], table)
  }

  predicate BoundTo(field: Option<Field>, name: string, table: map<string, Field>) {
    name in table && field == Some(table[name])
  }

  /** Everything a chunk needs: kernel, supported expression, bound fields, readable rows. */
  ghost predicate Prepared(e: Expression, nodes: seq<Node>, root: nat, t: Table) {
    KernelOf(e, nodes, root) && Supported(nodes, root)
    && AllBound(e.fields, FieldNames(nodes, root), t.fields) && Readable(t, t.rows)
  }

  /** Eight column buffers, all different. */
  ghost predicate Buffers(buffers: seq<array<Word>>) {
    |buffers| == 8 && (forall f | 0 <= f < 8 :: buffers[f].Length == 64)
    && forall f, g | 0 <= f < g < 8 :: buffers[f] != buffers[g]
  }

  function ChunkRows(t: Table, start: nat): (rows: seq<Row>)
    requires Readable(t, t.rows)
    ensures |rows| == 64 && forall r | 0 <= r < 64 :: rows[r] == RowAt(t, start + r)
  {
    seq(64, r requires 0 <= r < 64 => RowAt(t, start + r))
  }

  function GatheredSeq(t: Table, x: string, start: nat): (values: seq<Word>)
    requires x in t.fields && Readable(t, t.rows)
    ensures |values| == 64 && forall r | 0 <= r < 64 :: values[r] == Gathered(t, x, start, r)
  {
    seq(64, r requires 0 <= r < 64 => Gathered(t, x, start, r))
  }

  /** What a field's buffer holds when its kernel is called. */
  function BufferContents(t: Table, x: string, start: nat, mode: Mode): (words: seq<Word>)
    requires x in t.fields && Readable(t, t.rows)
    ensures |words| == 64
  {
    if mode == BIT_SLICED then Transpose(GatheredSeq(t, x, start)) else GatheredSeq(t, x, start)
  }

  /** Where the rows of a table lie in memory. */
  datatype Memory = Memory(data: seq<Byte>, stride: nat, rows: nat)

  ghost predicate Backs(d: Memory, t: Table) {
    d.data == t.data && d.stride == t.stride && d.rows == t.rows
  }

  /** Fills one buffer: gather, and slice in place when the kernel wants planes. */
  method FillBuffer(d: Memory, ghost t: Table, field: Field, ghost x: string, start: nat, mode: Mode, lanes: nat,
                    buffer: array<Word>)
    requires Backs(d, t) && buffer.Length == 64 && x in t.fields && t.fields[x] == field && Readable(t, t.rows)
    requires start < t.rows
    modifies buffer
    ensures buffer[..] == BufferContents(t, x, start, mode)
  {
    hide Transpose, Gathered, GatheredCell, Address, Within;
    var count := if d.rows - start < 64 then d.rows - start else 64;
    forall i | 0 <= i < 64
      ensures i < count ==> Within(t.data, start * t.stride, field.offset, t.stride, i)
      ensures GatheredCell(t.data, start * t.stride, field.offset, t.stride, count, i) == Gathered(t, x, start, i)
    {
      GatheredIsColumn(t, x, start, count, i);
    }
    GatherField(d.data, start * d.stride, field.offset, d.stride, count, buffer);
    assert buffer[..] == GatheredSeq(t, x, start);
    if mode == BIT_SLICED { Slice(buffer, buffer, lanes); }
  }

  /** The first n buffers as a kernel reads them. */
  function Snapshot(buffers: seq<array<Word>>, n: nat): (columns: Columns)
    requires n <= |buffers|
    reads buffers
    ensures |columns| == n && forall f | 0 <= f < n :: columns[f] == buffers[f][..]
  {
    if n == 0 then [] else Snapshot(buffers, n - 1) + [buffers[n - 1][..]]
  }

  /** Fills the buffers of all fields. */
  method FillBuffers(e: Expression, d: Memory, ghost t: Table, start: nat, lanes: nat, buffers: seq<array<Word>>,
                     ghost names: seq<string>)
    requires Buffers(buffers) && AllBound(e.fields, names, t.fields) && |names| <= MAX_FIELDS
    requires Backs(d, t) && Readable(t, t.rows) && start < t.rows
    modifies buffers
    ensures forall f | 0 <= f < |names| ::
        names[f] in t.fields && buffers[f][..] == BufferContents(t, names[f], start, e.mode)
  {
    hide BufferContents;
    for f := 0 to |e.fields|
      invariant forall g | 0 <= g < f ::
          names[g] in t.fields && buffers[g][..] == BufferContents(t, names[g], start, e.mode)
    {
      assert BoundTo(e.fields[f], names[f], t.fields);
      FillBuffer(d, t, e.fields[f].value, names[f], start, e.mode, lanes, buffers[f]);
    }
  }

  /** The kernel's run on a chunk's columns: bit r of the mask is the verdict on row start + r. */
  lemma KernelRuns(e: Expression, nodes: seq<Node>, root: nat, t: Table, start: nat, columns: Columns, s: State)
    returns (final: State, mask: Word)
    requires Prepared(e, nodes, root, t) && Entry(s) && |columns| == |FieldNames(nodes, root)|
    requires forall f | 0 <= f < |columns| ::
               FieldNames(nodes, root)[f] in t.fields
                   && columns[f] == BufferContents(t, FieldNames(nodes, root)[f], start, e.mode)
    ensures Reaches(e.kernel, columns, Running(0, s), Halted(final)) && final.regs[0] == Num(mask)
    ensures |final.scratch| == 512
    ensures forall r | 0 <= r < 64 :: Bit(mask, r) == Says(ModeForm(e.mode), nodes, root, RowAt(t, start + r), r)
  {
    hide Reaches, Transpose, Compiled, ScalarCompiled, FieldNames, WellKinded, Answer, Verdict;
    var rows, names := ChunkRows(t, start), FieldNames(nodes, root);
    if e.mode == BIT_SLICED {
      forall f | 0 <= f < |names| ensures SlicedColumn(rows, names[f], columns[f]) {
        SlicedField(t, names[f], start, columns[f], rows);
      }
      final, mask := SlicedKernel(nodes, root, EMITTED_SUB_CARRY, e.kernel, rows, columns, s);
    } else {
      forall f | 0 <= f < |names| ensures GatheredColumn(rows, names[f], columns[f]) {
        assert columns[f] == GatheredSeq(t, names[f], start);
      }
      final, mask := ScalarKernelDecides(nodes, root, e.kernel, rows, columns, s);
    }
  }

  lemma SlicedField(t: Table, x: string, start: nat, planes: seq<Word>, rows: seq<Row>)
    requires x in t.fields && Readable(t, t.rows) && rows == ChunkRows(t, start)
    requires planes == BufferContents(t, x, start, BIT_SLICED)
    ensures SlicedColumn(rows, x, planes)
  {
    var values := GatheredSeq(t, x, start);
    forall k, r | 0 <= k < 64 && 0 <= r < 64 ensures Bit(planes[k], r) == Bit(Lookup(rows[r], x), k) {
      assert Bit(Transpose(values)[k], r) == Bit(values[r], k);
    }
  }

  /** One chunk through gather, slice and kernel; the mask's population count is the number of
      satisfying rows of the chunk, padding included, whatever the scratchpad held before. */
  method ProcessChunk(e: Expression, d: Memory, start: nat, lanes: nat, buffers: seq<array<Word>>, scratch: array<Word>,
                      ghost t: Table, ghost nodes: seq<Node>, ghost root: nat)
    returns (mask: Word)
    requires Prepared(e, nodes, root, t) && Buffers(buffers) && scratch.Length == 512 && scratch !in buffers
    requires Backs(d, t) && start < t.rows && start % 64 == 0
    modifies buffers, scratch
    ensures forall r | 0 <= r < 64 :: Bit(mask, r) == Says(ModeForm(e.mode), nodes, root, RowAt(t, start + r), r)
    ensures PopCount(mask) == CountRows(t, nodes, root, ModeForm(e.mode), start, start + 64)
  {
    hide Reaches, BufferContents, KernelOf, Supported, Compiled, ScalarCompiled, FieldNames, Says, Readable;
    PreparedFacts(e, nodes, root, t);
    ghost var names := FieldNames(nodes, root);
    FillBuffers(e, d, t, start, lanes, buffers, names);
    var columns := Snapshot(buffers, |e.fields|);
    assert |scratch[..]| == 512;
    ghost var final, expected := KernelRuns(e, nodes, root, t, start, columns, EntryState(scratch[..]));
    mask := Call(e.kernel, columns, scratch, final);
    PopCountsRows(t, nodes, root, ModeForm(e.mode), start, mask, 64);
  }

  lemma PreparedFacts(e: Expression, nodes: seq<Node>, root: nat, t: Table)
    requires Prepared(e, nodes, root, t)
    ensures WellBuilt(nodes) && root < |nodes| && |FieldNames(nodes, root)| <= MAX_FIELDS
    ensures Readable(t, t.rows) && AllBound(e.fields, FieldNames(nodes, root), t.fields)
  {
  }
}
