// The routes agree: bit-sliced against scalar, and the specialised comparison against the generic one.
module Agreement {
  import opened Words
  import opened Options
  import opened BitSlicer
  import opened Machine
  import opened Ir
  import opened Analyzer
  import opened Allocation
  import opened SlicedCompiler
  import opened SlicedComparison
  import opened SlicedCorrectness
  import opened Drifts
  import opened SlicedLaw
  import opened ScalarCompiler
  import opened ScalarCorrectness
  import opened ComparisonKernel

  /** The sliced columns of gathered ones. */
  function SliceAll(columns: Columns): (sliced: Columns)
    requires forall f | 0 <= f < |columns| :: |columns[f]| == 64
  {
    seq(|columns|, f requires 0 <= f < |columns| => Transpose(columns[f]))
  }

  /** Transposing a gathered column gives the planes the bit-sliced kernel expects. */
  lemma SlicingGathered(rows: seq<Row>, names: seq<string>, columns: Columns)
    requires GatheredColumns(rows, names, columns)
    ensures forall f | 0 <= f < |columns| :: |columns[f]| == 64
    ensures SlicedColumns(rows, names, SliceAll(columns))
  {
    forall f | 0 <= f < |names| ensures |columns[f]| == 64 && SlicedColumn(rows, names[f], Transpose(columns[f])) {
      assert GatheredColumn(rows, names[f], columns[f]);
    }
  }

  /** Exactly when the two compilers agree, for every well-kinded predicate and every carry word: compiled
      from the same graph and run on the same 64 rows, the kernels return the same word if and only if
      in every row the compared leaves, shifted by their drifts where the carry bit is missing, say what
      the predicate says. */
  lemma CompilersAgreeIff(sliced: seq<Node>, scalar: seq<Node>, root: nat, subCarry: Word,
                          slicedProgram: seq<Instr>, scalarProgram: seq<Instr>,
                          rows: seq<Row>, columns: Columns, s: State, u: State, s': State, u': State)
    requires SameGraph(sliced, scalar)
    requires Compiled(sliced, root, subCarry, slicedProgram) && ScalarCompiled(scalar, root, scalarProgram)
    requires WellKinded(sliced, Some(root)) && |Order(sliced, root)| <= 512
    requires GatheredColumns(rows, FieldNames(sliced, root), columns) && Entry(s) && Entry(u)
    requires forall f | 0 <= f < |columns| :: |columns[f]| == 64
    requires Reaches(slicedProgram, SliceAll(columns), Running(0, s), Halted(s'))
    requires Reaches(scalarProgram, columns, Running(0, u), Halted(u'))
    ensures s'.regs[0] == u'.regs[0]
            <==> forall r | 0 <= r < 64 ::
                   JudgedAnswer(sliced, root, rows[r], Bit(subCarry, r)) == Verdict(sliced, root, rows[r], true)
  {
    SlicingGathered(rows, FieldNames(sliced, root), columns);
    SameLists(sliced, scalar, root);
    SameKinded(sliced, scalar, Some(root));
    var t, mask := SlicedKernel(sliced, root, subCarry, slicedProgram, rows, SliceAll(columns), s);
    var v, mask' := ScalarKernelDecides(scalar, root, scalarProgram, rows, columns, u);
    HaltsOnce(slicedProgram, SliceAll(columns), Running(0, s), Halted(t), Halted(s'));
    HaltsOnce(scalarProgram, columns, Running(0, u), Halted(v), Halted(u'));
    hide Compiled, ScalarCompiled, Reaches, Entry, Answer, JudgedAnswer, Verdict, Order, FieldNames, Bit;
    forall r | 0 <= r < 64
      ensures Bit(mask, r) == JudgedAnswer(sliced, root, rows[r], Bit(subCarry, r))
      ensures Bit(mask', r) == Verdict(sliced, root, rows[r], true)
    {
      AnswerIsJudged(sliced, root, rows[r], Bit(subCarry, r));
      SameVerdict(sliced, scalar, root, rows[r]);
    }
    SameWords(mask, mask');
  }

  lemma SameVerdict(a: seq<Node>, b: seq<Node>, root: nat, row: Row)
    requires SameGraph(a, b) && WellBuilt(a) && WellBuilt(b) && root < |a|
    ensures Verdict(a, root, row, true) == Verdict(b, root, row, true)
  {
    SameMeaning(a, b, root, row, true);
  }

  lemma SameWords(a: Word, b: Word)
    ensures a == b <==> forall r | 0 <= r < 64 :: Bit(a, r) == Bit(b, r)
  {
    if a != b {
      assert exists r | 0 <= r < 64 :: Bit(a, r) != Bit(b, r) by {
        if forall r | 0 <= r < 64 :: Bit(a, r) == Bit(b, r) { WordsEqual(a, b); }
      }
    }
  }

  /** The two compilers agree in the fragment of the bit-sliced one when the carry word is all ones, or
      when every compared operand is steady: then the word does not matter, not even the emitted one. */
  lemma CompilersAgree(sliced: seq<Node>, scalar: seq<Node>, root: nat, subCarry: Word,
                       slicedProgram: seq<Instr>, scalarProgram: seq<Instr>,
                       rows: seq<Row>, columns: Columns, s: State, u: State, s': State, u': State)
    requires SameGraph(sliced, scalar)
    requires Compiled(sliced, root, subCarry, slicedProgram) && ScalarCompiled(scalar, root, scalarProgram)
    requires InFragment(sliced, root) && |Order(sliced, root)| <= 512
    requires subCarry == ALL_ONES || Steady(sliced, root)
    requires GatheredColumns(rows, FieldNames(sliced, root), columns) && Entry(s) && Entry(u)
    requires forall f | 0 <= f < |columns| :: |columns[f]| == 64
    requires Reaches(slicedProgram, SliceAll(columns), Running(0, s), Halted(s'))
    requires Reaches(scalarProgram, columns, Running(0, u), Halted(u'))
    ensures s'.regs[0] == u'.regs[0]
  {
    assert WellBuilt(sliced) && root < |sliced| && |rows| == 64 && WellKinded(sliced, Some(root));
    hide Compiled, ScalarCompiled, Reaches, Entry, JudgedAnswer, Verdict, Order, FieldNames, GatheredColumns, Bit;
    CompilersAgreeIff(sliced, scalar, root, subCarry, slicedProgram, scalarProgram, rows, columns, s, u, s', u');
    forall r | 0 <= r < 64
      ensures JudgedAnswer(sliced, root, rows[r], Bit(subCarry, r)) == Verdict(sliced, root, rows[r], true)
    {
      FragmentExact(sliced, root, rows[r], subCarry, r);
    }
  }

  /** The bit-sliced result does not depend on what the scratchpad or any register but the arguments
      held before, for every well-kinded predicate. */
  lemma SlicedIgnoresScratch(nodes: seq<Node>, root: nat, subCarry: Word, program: seq<Instr>,
                             rows: seq<Row>, columns: Columns, s: State, u: State, s': State, u': State)
    requires Compiled(nodes, root, subCarry, program) && WellKinded(nodes, Some(root))
    requires SlicedColumns(rows, FieldNames(nodes, root), columns) && Entry(s) && Entry(u)
    requires Reaches(program, columns, Running(0, s), Halted(s'))
    requires Reaches(program, columns, Running(0, u), Halted(u'))
    ensures s'.regs[0] == u'.regs[0]
  {
    hide Compiled, WellKinded, SlicedColumns, Entry, Reaches, Returned, Conjunction;
    var t, mask := SlicedKernel(nodes, root, subCarry, program, rows, columns, s);
    var v, mask' := SlicedKernel(nodes, root, subCarry, program, rows, columns, u);
    HaltsOnce(program, columns, Running(0, s), Halted(t), Halted(s'));
    HaltsOnce(program, columns, Running(0, u), Halted(v), Halted(u'));
    WordsEqual(mask, mask');
  }

  /** Nor does the scalar result. */
  lemma ScalarIgnoresScratch(nodes: seq<Node>, root: nat, program: seq<Instr>,
                             rows: seq<Row>, columns: Columns, s: State, u: State, s': State, u': State)
    requires ScalarCompiled(nodes, root, program) && WellKinded(nodes, Some(root)) && Entry(s) && Entry(u)
    requires |FieldNames(nodes, root)| <= MAX_FIELDS && |Order(nodes, root)| <= 512
    requires GatheredColumns(rows, FieldNames(nodes, root), columns)
    requires Reaches(program, columns, Running(0, s), Halted(s'))
    requires Reaches(program, columns, Running(0, u), Halted(u'))
    ensures s'.regs[0] == u'.regs[0]
  {
    hide WellKinded, Entry, Reaches, Returned, Verdict;
    var t, mask := ScalarKernelDecides(nodes, root, program, rows, columns, s);
    var v, mask' := ScalarKernelDecides(nodes, root, program, rows, columns, u);
    HaltsOnce(program, columns, Running(0, s), Halted(t), Halted(s'));
    HaltsOnce(program, columns, Running(0, u), Halted(v), Halted(u'));
    WordsEqual(mask, mask');
  }

  /** Every scratch word the bit-sliced kernel reads it wrote earlier in the same run: with no word
      present at the start, where reading an absent one is a fault, it returns, and the same mask. */
  lemma SlicedWritesBeforeReads(nodes: seq<Node>, root: nat, subCarry: Word, program: seq<Instr>,
                                rows: seq<Row>, columns: Columns, s: State, s': State)
    returns (t: State)
    requires Compiled(nodes, root, subCarry, program) && WellKinded(nodes, Some(root))
    requires SlicedColumns(rows, FieldNames(nodes, root), columns) && Entry(s)
    requires Reaches(program, columns, Running(0, s), Halted(s'))
    ensures Reaches(program, columns, Running(0, Blank(s)), Halted(t)) && t.regs[0] == s'.regs[0]
  {
    hide Compiled, WellKinded, SlicedColumns, Reaches, Returned;
    var mask;
    t, mask := SlicedKernel(nodes, root, subCarry, program, rows, columns, Blank(s));
    SlicedIgnoresScratch(nodes, root, subCarry, program, rows, columns, s, Blank(s), s', t);
  }

  /** The scalar kernel on a scratchpad with no word present. */
  lemma ScalarWritesBeforeReads(nodes: seq<Node>, root: nat, program: seq<Instr>,
                                rows: seq<Row>, columns: Columns, s: State, s': State)
    returns (t: State)
    requires ScalarCompiled(nodes, root, program) && WellKinded(nodes, Some(root)) && Entry(s)
    requires |FieldNames(nodes, root)| <= MAX_FIELDS && |Order(nodes, root)| <= 512
    requires GatheredColumns(rows, FieldNames(nodes, root), columns)
    requires Reaches(program, columns, Running(0, s), Halted(s'))
    ensures Reaches(program, columns, Running(0, Blank(s)), Halted(t)) && t.regs[0] == s'.regs[0]
  {
    hide ScalarCompiled, WellKinded, Reaches, Returned, Order, FieldNames, GatheredColumns;
    var mask;
    t, mask := ScalarKernelDecides(nodes, root, program, rows, columns, Blank(s));
    ScalarIgnoresScratch(nodes, root, program, rows, columns, s, Blank(s), s', t);
  }

  lemma {:induction false} SameKinded(a: seq<Node>, b: seq<Node>, p: Option<nat>)
    requires SameGraph(a, b) && WellBuilt(a) && WellBuilt(b) && Below(p, |a|)
    ensures Arithmetic(a, p) == Arithmetic(b, p) && WellKinded(a, p) == WellKinded(b, p)
    decreases if p.Some? then p.value + 1 else 0
  {
    if p.Some? {
      assert NodeOk(a[p.value], p.value) && SameNode(a[p.value], b[p.value]);
      SameKinded(a, b, a[p.value].left);
      SameKinded(a, b, a[p.value].right);
    }
  }

  // ----- specialisation -----

  /** The planes of a constant are the transpose of a column holding it in all 64 rows. */
  lemma ConstPlanesAreTransposed(c: Int64)
    ensures ConstPlanes(c) == Transpose(seq(64, r => ToWord(c)))
  {
    var column := seq(64, r => ToWord(c));
    forall k | 0 <= k < 64 ensures ConstPlanes(c)[k] == Transpose(column)[k] {
      Pow2Of64();
      AsrBit(c, 64, k);
      forall r | 0 <= r < 64 ensures Bit(ConstPlanes(c)[k], r) == Bit(Transpose(column)[k], r) {
        ConstantBits(r);
      }
      WordsEqual(ConstPlanes(c)[k], Transpose(column)[k]);
    }
  }

  /** A comparison of the named field with the constant. */
  predicate FieldAbove(nodes: seq<Node>, root: nat, name: string, c: Int64)
    requires WellBuilt(nodes) && root < |nodes|
  {
    assert NodeOk(nodes[root], root);
    InFragment(nodes, root) && nodes[root].kind == GT
    && nodes[nodes[root].left.value].kind == LOAD && nodes[nodes[root].left.value].fieldName == name
    && nodes[nodes[root].right.value].kind == CONST && nodes[nodes[root].right.value].constValue == c
  }

  lemma FieldAboveMeans(nodes: seq<Node>, root: nat, name: string, c: Int64, row: Row, carryIn: bool)
    requires WellBuilt(nodes) && root < |nodes| && FieldAbove(nodes, root, name, c)
    ensures Verdict(nodes, root, row, carryIn) == (Lookup(row, name) > ToWord(c))
  {
    assert NodeOk(nodes[root], root);
    var l, q := nodes[root].left.value, nodes[root].right.value;
    assert NodeOk(nodes[l], l) && NodeOk(nodes[q], q);
    assert Eval(nodes, l, row, carryIn) == Lookup(row, name);
    assert Eval(nodes, q, row, carryIn) == ToWord(c);
  }

  /** The kernel specialised to a threshold returns what the generic bit-sliced kernel returns for
      GT(field, constant), for every constant including negative ones. */
  lemma SpecialisationRefines(nodes: seq<Node>, root: nat, program: seq<Instr>, subCarry: Word, name: string, c: Int64,
                              rows: seq<Row>, columns: Columns, values: seq<Word>,
                              s: State, u: State, s': State, u': State)
    requires Compiled(nodes, root, subCarry, program) && FieldAbove(nodes, root, name, c) && |rows| == 64
    requires SlicedColumns(rows, FieldNames(nodes, root), columns) && GatheredColumn(rows, name, values)
    requires Entry(s) && PlanesEntry(u)
    requires Reaches(program, columns, Running(0, s), Halted(s'))
    requires Reaches(CompareProgram(ToWord(c)), [Transpose(values)], Running(0, u), Halted(u'))
    ensures s'.regs[0] == u'.regs[0]
  {
    hide Reaches, CompareProgram, Transpose, SlicedColumns, Entry, PlanesEntry, Returned, Compiled, FieldAbove,
         InFragment;
    CompiledBuilt(nodes, root, program, subCarry, name, c);
    var t, mask := SlicedKernelDecides(nodes, root, subCarry, program, rows, columns, s);
    var v, mask' := ComparisonDecides(values, ToWord(c), u);
    HaltsOnce(program, columns, Running(0, s), Halted(t), Halted(s'));
    HaltsOnce(CompareProgram(ToWord(c)), [Transpose(values)], Running(0, u), Halted(v), Halted(u'));
    forall r | 0 <= r < 64 ensures Bit(mask, r) == Bit(mask', r) {
      FieldAboveMeans(nodes, root, name, c, rows[r], Bit(subCarry, r));
    }
    WordsEqual(mask, mask');
  }

  lemma CompiledBuilt(nodes: seq<Node>, root: nat, program: seq<Instr>, subCarry: Word, name: string, c: Int64)
    requires Compiled(nodes, root, subCarry, program) && FieldAbove(nodes, root, name, c)
    ensures WellBuilt(nodes) && root < |nodes| && InFragment(nodes, root)
  {
  }
}
