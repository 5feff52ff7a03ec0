// The comparison kernel specialised to a threshold: 64 unrolled steps, one per bit.
module ComparisonKernel {
  import opened Words
  import opened Options
  import opened Machine
  import opened BitSlicer

  // Register roles: x0 planes, x9 greater mask, x10 equal mask, x11 walking pointer, x12 plane, x13 temporary.

  /** One bit of the comparison with a constant: a zero bit can decide, a one bit can only refute. */
  function StepCode(threshold: Word, bit: nat): seq<Instr> {
    [LdrPost(12, 11, -8)]
    + if !Bit(threshold, bit) then [Alu(OpAnd, 13, 10, 12), Alu(OpOrr, 9, 9, 13), Alu(OpBic, 10, 10, 12)]
      else [Alu(OpAnd, 10, 10, 12)]
  }

  /** The steps for bits 63 down to k. */
  function Steps(threshold: Word, k: nat): seq<Instr>
    requires k <= 64
    decreases 64 - k
  {
    if k == 64 then [] else Steps(threshold, k + 1) + StepCode(threshold, k)
  }

  const COMPARE_START: seq<Instr> := [Alu(OpOrr, 9, XZR, XZR), MovImm(10, ALL_ONES), AddImm(11, 0, 504)]

  function CompareCode(threshold: Word): seq<Instr> {
    COMPARE_START + Steps(threshold, 0) + [MovReg(0, 9)]
  }

  function CompareProgram(threshold: Word): seq<Instr> {
    CompareCode(threshold) + [Ret]
  }

  /** Emits the kernel, most significant bit first. */
  method CompileComparison(threshold: Word) returns (code: seq<Instr>)
    ensures code == CompareProgram(threshold)
  {
    var steps := [];
    var bit := 63;
    while bit >= 0
      invariant -1 <= bit <= 63 && steps == Steps(threshold, bit + 1)
    {
      var step := [LdrPost(12, 11, -8)];
      ShrBit(threshold, bit, 0);
      if Shr(threshold, bit) % 2 == 0 {
        step := step + [Alu(OpAnd, 13, 10, 12), Alu(OpOrr, 9, 9, 13), Alu(OpBic, 10, 10, 12)];
      } else {
        step := step + [Alu(OpAnd, 10, 10, 12)];
      }
      assert step == StepCode(threshold, bit);
      steps := steps + step;
      bit := bit - 1;
    }
    code := COMPARE_START + steps + [MovReg(0, 9)] + [Ret];
  }

  // ----- what the masks mean -----

  /** Rows whose value exceeds, or agrees with, the threshold from bit k up. */
  function AboveMask(values: seq<Word>, threshold: Word, k: nat): (w: Word)
    requires |values| == 64
    ensures forall r | 0 <= r < 64 :: Bit(w, r) == (Shr(values[r], k) > Shr(threshold, k))
  {
    Pack(seq(64, r requires 0 <= r < 64 => Shr(values[r], k) > Shr(threshold, k)))
  }

  function SameMask(values: seq<Word>, threshold: Word, k: nat): (w: Word)
    requires |values| == 64
    ensures forall r | 0 <= r < 64 :: Bit(w, r) == (Shr(values[r], k) == Shr(threshold, k))
  {
    Pack(seq(64, r requires 0 <= r < 64 => Shr(values[r], k) == Shr(threshold, k)))
  }

  lemma MasksStart(values: seq<Word>, threshold: Word)
    requires |values| == 64
    ensures AboveMask(values, threshold, 64) == 0 && SameMask(values, threshold, 64) == ALL_ONES
  {
    Pow2Of64();
    ShrAll(threshold, 64);
    forall r | 0 <= r < 64
      ensures Bit(AboveMask(values, threshold, 64), r) == Bit(0, r)
      ensures Bit(SameMask(values, threshold, 64), r) == Bit(ALL_ONES, r)
    {
      ConstantBits(r);
      ShrAll(values[r], 64);
    }
    WordsEqual(AboveMask(values, threshold, 64), 0);
    WordsEqual(SameMask(values, threshold, 64), ALL_ONES);
  }

  /** The generic comparator's formulas, on a threshold plane of all ones or all zeros, come down to the
      specialised step. */
  lemma StepIsGeneric(p: Word, gt: Word, eq: Word)
    ensures Or(gt, And(eq, Bic(p, ALL_ONES))) == gt && Bic(eq, Xor(p, ALL_ONES)) == And(eq, p)
    ensures Or(gt, And(eq, Bic(p, 0))) == Or(gt, And(eq, p)) && Bic(eq, Xor(p, 0)) == Bic(eq, p)
  {
    forall r | 0 <= r < 64 ensures !Bit(0, r) && Bit(ALL_ONES, r) { ConstantBits(r); }
    hide Bit;
    WordsEqual(Or(gt, And(eq, Bic(p, ALL_ONES))), gt);
    WordsEqual(Bic(eq, Xor(p, ALL_ONES)), And(eq, p));
    WordsEqual(Or(gt, And(eq, Bic(p, 0))), Or(gt, And(eq, p)));
    WordsEqual(Bic(eq, Xor(p, 0)), Bic(eq, p));
  }

  /** A specialised step extends the greater and equal masks of the high parts by one lower bit. */
  lemma MaskStep(values: seq<Word>, threshold: Word, k: nat)
    requires |values| == 64 && k < 64
    ensures var p := Transpose(values)[k];
            var gt, eq := AboveMask(values, threshold, k + 1), SameMask(values, threshold, k + 1);
            if Bit(threshold, k)
            then gt == AboveMask(values, threshold, k) && And(eq, p) == SameMask(values, threshold, k)
            else Or(gt, And(eq, p)) == AboveMask(values, threshold, k) && Bic(eq, p) == SameMask(values, threshold, k)
  {
    var p, gt, eq := Transpose(values)[k], AboveMask(values, threshold, k + 1), SameMask(values, threshold, k + 1);
    var bit := Bit(threshold, k);
    var gt', eq' := if bit then gt else Or(gt, And(eq, p)), if bit then And(eq, p) else Bic(eq, p);
    ShrStep(threshold, k);
    forall r | 0 <= r < 64
      ensures Bit(gt', r) == Bit(AboveMask(values, threshold, k), r)
      ensures Bit(eq', r) == Bit(SameMask(values, threshold, k), r)
    {
      ShrStep(values[r], k);
      assert Bit(p, r) == Bit(values[r], k);
      assert Bit(gt, r) == (Shr(values[r], k + 1) > Shr(threshold, k + 1));
      assert Bit(eq, r) == (Shr(values[r], k + 1) == Shr(threshold, k + 1));
      hide Shr, Bit, Transpose, AboveMask, SameMask;
    }
    WordsEqual(gt', AboveMask(values, threshold, k));
    WordsEqual(eq', SameMask(values, threshold, k));
  }

  // ----- running the kernel -----

  ghost predicate AtBit(values: seq<Word>, threshold: Word, s: State, k: nat) {
    |values| == 64 && k <= 64
    && s.regs[9] == Num(AboveMask(values, threshold, k)) && s.regs[10] == Num(SameMask(values, threshold, k))
    && s.regs[11] == Ptr(Column(0), 8 * (k - 1))
  }

  lemma StepRuns(values: seq<Word>, threshold: Word, s: State, k: nat) returns (t: State)
    requires k < 64 && AtBit(values, threshold, s, k + 1)
    ensures Exec(StepCode(threshold, k), [Transpose(values)], s) == Some(t) && AtBit(values, threshold, t, k)
  {
    hide Transpose, AboveMask, SameMask, And, Or, Bic;
    var columns := [Transpose(values)];
    var p, gt, eq := Transpose(values)[k], AboveMask(values, threshold, k + 1), SameMask(values, threshold, k + 1);
    MaskStep(values, threshold, k);
    var s1 := s.Set(12, Num(p)).Set(11, Ptr(Column(0), 8 * (k - 1)));
    LoadsPlane(columns, s, k, s1);
    if Bit(threshold, k) {
      t := s1.Set(10, Num(And(eq, p)));
      assert Exec1(Alu(OpAnd, 10, 10, 12), columns, s1) == Some(t);
      assert StepCode(threshold, k) == [LdrPost(12, 11, -8), Alu(OpAnd, 10, 10, 12)];
      Exec2(LdrPost(12, 11, -8), Alu(OpAnd, 10, 10, 12), columns, s);
    } else {
      var s2 := s1.Set(13, Num(And(eq, p)));
      var s3 := s2.Set(9, Num(Or(gt, And(eq, p))));
      t := s3.Set(10, Num(Bic(eq, p)));
      assert Exec1(Alu(OpAnd, 13, 10, 12), columns, s1) == Some(s2);
      assert Exec1(Alu(OpOrr, 9, 9, 13), columns, s2) == Some(s3);
      assert Exec1(Alu(OpBic, 10, 10, 12), columns, s3) == Some(t);
      assert StepCode(threshold, k) ==
             [LdrPost(12, 11, -8), Alu(OpAnd, 13, 10, 12), Alu(OpOrr, 9, 9, 13), Alu(OpBic, 10, 10, 12)];
      Exec4(LdrPost(12, 11, -8), Alu(OpAnd, 13, 10, 12), Alu(OpOrr, 9, 9, 13), Alu(OpBic, 10, 10, 12), columns, s);
    }
  }

  lemma LoadsPlane(columns: Columns, s: State, k: nat, t: State)
    requires |columns| == 1 && |columns[0]| == 64 && k < 64 && s.regs[11] == Ptr(Column(0), 8 * k)
    requires t == s.Set(12, Num(columns[0][k])).Set(11, Ptr(Column(0), 8 * (k - 1)))
    ensures Exec1(LdrPost(12, 11, -8), columns, s) == Some(t)
  {
  }

  lemma {:induction false} StepsRun(values: seq<Word>, threshold: Word, s: State, k: nat) returns (t: State)
    requires k <= 64 && |values| == 64 && AtBit(values, threshold, s, 64)
    ensures Exec(Steps(threshold, k), [Transpose(values)], s) == Some(t) && AtBit(values, threshold, t, k)
    decreases 64 - k
  {
    hide StepCode, AtBit;
    if k == 64 {
      t := s;
    } else {
      var u := StepsRun(values, threshold, s, k + 1);
      t := StepRuns(values, threshold, u, k);
      ExecAppend(Steps(threshold, k + 1), StepCode(threshold, k), [Transpose(values)], s);
    }
  }

  /** A call of the comparison kernel: the planes in x0. */
  ghost predicate PlanesEntry(s: State) {
    s.regs[0] == Ptr(Column(0), 0)
  }

  lemma StartRuns(values: seq<Word>, threshold: Word, columns: Columns, s: State) returns (t: State)
    requires |values| == 64 && PlanesEntry(s)
    ensures Exec(COMPARE_START, columns, s) == Some(t) && AtBit(values, threshold, t, 64)
  {
    OrOfZeros();
    hide Or;
    MasksStart(values, threshold);
    var s1 := s.Set(9, Num(0));
    var s2 := s1.Set(10, Num(ALL_ONES));
    t := s2.Set(11, Ptr(Column(0), 504));
    Exec3(Alu(OpOrr, 9, XZR, XZR), MovImm(10, ALL_ONES), AddImm(11, 0, 504), columns, s);
  }

  lemma OrOfZeros()
    ensures Or(0, 0) == 0
  {
    WordsEqual(Or(0, 0), 0);
  }

  lemma {:induction false} StraightSteps(threshold: Word, k: nat)
    requires k <= 64
    ensures AllStraight(Steps(threshold, k))
    decreases 64 - k
  {
    if k < 64 {
      StraightSteps(threshold, k + 1);
      assert AllStraight(StepCode(threshold, k));
    }
  }

  /** On the transposed planes of 64 values, bit r of the mask is exactly "value r exceeds the threshold". */
  lemma ComparisonDecides(values: seq<Word>, threshold: Word, s: State) returns (t: State, mask: Word)
    requires |values| == 64 && PlanesEntry(s)
    ensures Reaches(CompareProgram(threshold), [Transpose(values)], Running(0, s), Halted(t)) && t.regs[0] == Num(mask)
    ensures forall r | 0 <= r < 64 :: Bit(mask, r) == (values[r] > threshold)
  {
    hide Steps, Exec, Reaches, AllStraight, Transpose, SameMask;
    var columns := [Transpose(values)];
    var s1 := StartRuns(values, threshold, columns, s);
    var s2 := StepsRun(values, threshold, s1, 0);
    mask := AboveMask(values, threshold, 0);
    t := s2.Set(0, Num(mask));
    ExecAppend(COMPARE_START, Steps(threshold, 0), columns, s);
    ExecSnoc(COMPARE_START + Steps(threshold, 0), MovReg(0, 9), columns, s, s2, t);
    StraightCode(threshold);
    StraightProgram(CompareCode(threshold), columns, s, t);
  }

  lemma StraightCode(threshold: Word)
    ensures AllStraight(CompareCode(threshold))
  {
    StraightSteps(threshold, 0);
    hide Steps;
  }
}
