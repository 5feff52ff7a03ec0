// The bit-sliced compiler is correct: its program computes, for 64 rows at once, the conjunction
// of the comparisons it was given.
module SlicedCorrectness {
  import opened Words
  import opened Options
  import opened Machine
  import opened Ir
  import opened Analyzer
  import opened Allocation
  import opened CircuitLibrary
  import opened SlicedCompiler
  import opened Planes
  import opened SlicedSimulation
  import opened SlicedComparison

  // ----- entry and exit -----

  /** A kernel call: field table in x0, scratchpad in x1, nothing known about anything else. */
  ghost predicate Entry(s: State) {
    s.regs[0] == Ptr(FieldTable, 0) && s.regs[1] == Ptr(Scratch, 0) && |s.scratch| == 512 && s.stack == []
  }

  /** The callee-saved registers, as the prologue stacks them. */
  function Saved(s: State): seq<Val> {
    [s.regs[29], s.regs[30], s.regs[19], s.regs[20], s.regs[21], s.regs[22],
     s.regs[23], s.regs[24], s.regs[25], s.regs[26], s.regs[27], s.regs[28]]
  }

  /** A return: callee-saved registers restored, stack empty. */
  ghost predicate Returned(s: State, t: State) {
    (forall r: Reg | 19 <= r <= 30 :: t.regs[r] == s.regs[r]) && t.stack == [] && |t.scratch| == 512
  }

  lemma PushRuns(columns: Columns, s: State, a: Reg, b: Reg)
    requires a != XZR && b != XZR
    ensures Exec1(Push(a, b), columns, s) == Some(s.(stack := s.stack + [s.regs[a], s.regs[b]]))
  {
  }

  lemma PrologueRuns(columns: Columns, s: State) returns (t: State)
    requires Entry(s)
    ensures Exec(PROLOGUE, columns, s) == Some(t)
    ensures t.stack == Saved(s) && t.scratch == s.scratch
    ensures t.regs[19] == Ptr(FieldTable, 0) && t.regs[20] == Ptr(Scratch, 0)
  {
    hide Exec1;
    var p1, p2, p3 := [Push(29, 30), MovSp(29), Push(19, 20)],
                      [Push(21, 22), Push(23, 24), Push(25, 26), Push(27, 28)], [MovReg(19, 0), MovReg(20, 1)];
    var s1 := s.(stack := s.stack + [s.regs[29], s.regs[30]]);
    var s2 := s1.Set(29, Ptr(Frame, -16));
    var s3 := s2.(stack := s1.stack + [s.regs[19], s.regs[20]]);
    var s4 := s3.(stack := s3.stack + [s.regs[21], s.regs[22]]);
    var s5 := s4.(stack := s4.stack + [s.regs[23], s.regs[24]]);
    var s6 := s5.(stack := s5.stack + [s.regs[25], s.regs[26]]);
    var s7 := s6.(stack := s6.stack + [s.regs[27], s.regs[28]]);
    var s8 := s7.Set(19, Ptr(FieldTable, 0));
    t := s8.Set(20, Ptr(Scratch, 0));
    PushRuns(columns, s, 29, 30);
    MovesRun(columns, s1, s7, s8);
    PushRuns(columns, s2, 19, 20);
    PushRuns(columns, s3, 21, 22);
    PushRuns(columns, s4, 23, 24);
    PushRuns(columns, s5, 25, 26);
    PushRuns(columns, s6, 27, 28);
    Exec3(p1[0], p1[1], p1[2], columns, s);
    Exec4(p2[0], p2[1], p2[2], p2[3], columns, s3);
    Exec2(p3[0], p3[1], columns, s7);
    ExecAppend(p1, p2, columns, s);
    ExecAppend(p1 + p2, p3, columns, s);
    assert t.stack == Saved(s);
  }

  lemma MovesRun(columns: Columns, s1: State, s7: State, s8: State)
    requires |s1.stack| == 2 && s7.regs[0] == Ptr(FieldTable, 0) && s8.regs[1] == Ptr(Scratch, 0)
    ensures Exec1(MovSp(29), columns, s1) == Some(s1.Set(29, Ptr(Frame, -16)))
    ensures Exec1(MovReg(19, 0), columns, s7) == Some(s7.Set(19, Ptr(FieldTable, 0)))
    ensures Exec1(MovReg(20, 1), columns, s8) == Some(s8.Set(20, Ptr(Scratch, 0)))
  {
  }

  lemma PopRuns(columns: Columns, s: State, rest: seq<Val>, a: Reg, b: Reg, v: Val, w: Val)
    requires s.stack == rest + [v, w] && a != XZR && b != XZR
    ensures Exec1(Pop(a, b), columns, s) == Some(s.(stack := rest).Set(a, v).Set(b, w))
  {
    assert s.stack[..|s.stack| - 2] == rest;
  }

  lemma ThreePopsRun(columns: Columns, u: State, rest: seq<Val>, a: Reg, b: Reg, c: Reg, d: Reg, e: Reg, f: Reg,
                     va: Val, vb: Val, vc: Val, vd: Val, ve: Val, vf: Val) returns (t: State)
    requires u.stack == rest + [va, vb, vc, vd, ve, vf]
    requires XZR !in {a, b, c, d, e, f}
    ensures Exec([Pop(e, f), Pop(c, d), Pop(a, b)], columns, u) == Some(t)
    ensures t == u.(stack := rest).Set(e, ve).Set(f, vf).Set(c, vc).Set(d, vd).Set(a, va).Set(b, vb)
  {
    hide Exec1;
    var u1 := u.(stack := rest + [va, vb, vc, vd]).Set(e, ve).Set(f, vf);
    var u2 := u1.(stack := rest + [va, vb]).Set(c, vc).Set(d, vd);
    t := u2.(stack := rest).Set(a, va).Set(b, vb);
    assert u.stack == rest + [va, vb, vc, vd] + [ve, vf];
    assert u1.stack == rest + [va, vb] + [vc, vd];
    PopRuns(columns, u, rest + [va, vb, vc, vd], e, f, ve, vf);
    PopRuns(columns, u1, rest + [va, vb], c, d, vc, vd);
    PopRuns(columns, u2, rest, a, b, va, vb);
    Exec3(Pop(e, f), Pop(c, d), Pop(a, b), columns, u);
  }

  lemma EpilogueRuns(columns: Columns, s: State, u: State) returns (t: State)
    requires u.stack == Saved(s)
    ensures Exec(EPILOGUE, columns, u) == Some(t)
    ensures t.stack == [] && t.scratch == u.scratch && t.regs[0] == u.regs[0]
    ensures forall r: Reg | 19 <= r <= 30 :: t.regs[r] == s.regs[r]
  {
    var low := [s.regs[29], s.regs[30], s.regs[19], s.regs[20], s.regs[21], s.regs[22]];
    assert u.stack == low + [s.regs[23], s.regs[24], s.regs[25], s.regs[26], s.regs[27], s.regs[28]];
    assert low == [] + low;
    var v := ThreePopsRun(columns, u, low, 23, 24, 25, 26, 27, 28,
                          s.regs[23], s.regs[24], s.regs[25], s.regs[26], s.regs[27], s.regs[28]);
    t := ThreePopsRun(columns, v, [], 29, 30, 19, 20, 21, 22,
                      s.regs[29], s.regs[30], s.regs[19], s.regs[20], s.regs[21], s.regs[22]);
    ExecAppend([Pop(27, 28), Pop(25, 26), Pop(23, 24)], [Pop(21, 22), Pop(19, 20), Pop(29, 30)], columns, u);
  }

  // ----- initial carries -----

  ghost predicate CarriesStart(b: Batch, t: State, arith: seq<nat>, n: nat) {
    forall l | 0 <= l < |arith| && l < n :: CarryStarts(b, t, arith[l])
  }

  ghost predicate CarryStarts(b: Batch, t: State, i: nat) {
    Adds(b, i) && 0 <= b.nodes[i].carryReg < 8 && t.regs[21 + b.nodes[i].carryReg] == Num(CarryPlane(b, i, 0))
  }

  lemma CarryStep1(b: Batch, u: State, t: State, columns: Columns, arith: seq<nat>, n: nat)
    requires Runnable(b, columns, arith) && n < |arith| && CarriesStart(b, u, arith, n)
    requires CarryStarts(b, t, arith[n]) && OnlyRegs(u, t, {21 + b.nodes[arith[n]].carryReg})
    ensures CarriesStart(b, t, arith, n + 1)
  {
    hide CarryPlane;
    forall l | 0 <= l < n + 1 ensures CarryStarts(b, t, arith[l]) {
      if l < n {
        assert CarryStarts(b, u, arith[l]);
        assert NodeRunnable(b, columns, arith, l) && NodeRunnable(b, columns, arith, n);
      }
    }
  }

  lemma CarryInitStep(b: Batch, columns: Columns, arith: seq<nat>, u: State, n: nat) returns (i: Instr, t: State)
    requires Runnable(b, columns, arith) && n < |arith| && CarriesStart(b, u, arith, n)
    ensures Allocated(b.nodes, arith[..n]) && Allocated(b.nodes, arith[..n + 1])
    ensures CarryInit(b.nodes, arith[..n + 1], b.subCarry) == CarryInit(b.nodes, arith[..n], b.subCarry) + [i]
    ensures Exec1(i, columns, u) == Some(t) && CarriesStart(b, t, arith, n + 1)
    ensures t.scratch == u.scratch && t.stack == u.stack && forall r: Reg | r < 21 :: t.regs[r] == u.regs[r]
  {
    hide CarriesStart, CarryPlane;
    AllocatedPrefix(b.nodes, arith, n);
    AllocatedPrefix(b.nodes, arith, n + 1);
    assert NodeRunnable(b, columns, arith, n);
    assert arith[..n + 1][..n] == arith[..n] && arith[..n + 1][n] == arith[n];
    var node := b.nodes[arith[n]];
    var d, seed := CarryRegister(node), if node.kind == ADD then 0 else b.subCarry;
    i := MovImm(d, seed);
    t := u.Set(d, Num(seed));
    FirstCarry(b, arith[n]);
    CarryStep1(b, u, t, columns, arith, n);
  }

  lemma {:induction false} CarryInitRuns(b: Batch, columns: Columns, arith: seq<nat>, s: State,
                                         n: nat) returns (t: State)
    requires Runnable(b, columns, arith) && n <= |arith|
    ensures Allocated(b.nodes, arith[..n]) && Exec(CarryInit(b.nodes, arith[..n], b.subCarry), columns, s) == Some(t)
    ensures CarriesStart(b, t, arith, n)
    ensures t.scratch == s.scratch && t.stack == s.stack && forall r: Reg | r < 21 :: t.regs[r] == s.regs[r]
    decreases n
  {
    if n == 0 {
      AllocatedPrefix(b.nodes, arith, 0);
      t := s;
      NoCarries(b, t, arith);
    } else {
      hide Runnable, Allocated, CarryInit, Exec1, CarriesStart;
      var u := CarryInitRuns(b, columns, arith, s, n - 1);
      var i;
      i, t := CarryInitStep(b, columns, arith, u, n - 1);
      ExecSnoc(CarryInit(b.nodes, arith[..n - 1], b.subCarry), i, columns, s, u, t);
    }
  }

  lemma NoCarries(b: Batch, t: State, arith: seq<nat>)
    ensures CarriesStart(b, t, arith, 0)
  {
  }

  // ----- the three straight pieces and the two loops -----

  lemma BeforeRuns(b: Batch, columns: Columns, arith: seq<nat>, s: State) returns (t: State)
    requires Runnable(b, columns, arith) && Entry(s)
    ensures Exec(Before(b.nodes, arith, b.subCarry), columns, s) == Some(t)
    ensures RippleInv(b, t, arith, 0) && t.stack == Saved(s)
  {
    var u := PrologueRuns(columns, s);
    assert arith[..|arith|] == arith;
    var v := CarryInitRuns(b, columns, arith, u, |arith|);
    t := v.Set(15, Num(0));
    ExecAppend(PROLOGUE, CarryInit(b.nodes, arith, b.subCarry), columns, s);
    ExecSnoc(PROLOGUE + CarryInit(b.nodes, arith, b.subCarry), MovImm(15, 0), columns, s, v, t);
    StartLevel(b, columns, arith, v, t);
  }

  lemma StartLevel(b: Batch, columns: Columns, arith: seq<nat>, v: State, t: State)
    requires Runnable(b, columns, arith) && CarriesStart(b, v, arith, |arith|) && OnlyRegs(v, t, {15})
    requires |v.scratch| == 512
    ensures Level(b, t, arith, 0, 0)
  {
    hide CarryPlane;
    forall l | 0 <= l < |arith| ensures Filled(b, t, arith[l], 0) {
      assert CarryStarts(b, v, arith[l]) && NodeRunnable(b, columns, arith, l);
    }
  }

  lemma LevelDone(b: Batch, s: State, arith: seq<nat>)
    requires RippleInv(b, s, arith, 64)
    ensures SlotsDone(b, s.scratch, arith)
  {
    hide CarryPlane, Plane;
    forall l | 0 <= l < |arith| ensures SlotDone(b, s.scratch, arith[l]) {
      assert Filled(b, s, arith[l], 64);
      assert NodeOk(b.nodes[arith[l]], arith[l]);
    }
  }

  lemma BetweenRuns(b: Batch, columns: Columns, arith: seq<nat>, leaves: seq<nat>, s: State) returns (t: State)
    requires Comparable(b, columns, arith, leaves) && RippleInv(b, s, arith, 64)
    ensures Exec(Between(|leaves|), columns, s) == Some(t)
    ensures CompareInv(b, t, arith, leaves, 64) && t.stack == s.stack
  {
    var n := Compared(|leaves|);
    LevelDone(b, s, arith);
    forall c | 0 <= c < n ensures Compares(b, leaves[c]) { assert LeafComparable(b, columns, arith, leaves[c]); }
    hide Comparable, RippleInv, SlotsDone, Compares;
    var u := CompareInitRuns(b, columns, leaves, s, n);
    t := u.Set(15, Num(63));
    ExecSnoc(CompareInit(n), MovImm(15, 63), columns, s, u, t);
    forall c | 0 <= c < n ensures LeafAt(b, t, leaves[c], c, 64) { LeafKept(b, u, t, leaves[c], c, 64); }
  }

  lemma AfterRuns(b: Batch, columns: Columns, arith: seq<nat>, leaves: seq<nat>, s: State, u: State)
    returns (t: State, mask: Word)
    requires Comparable(b, columns, arith, leaves) && CompareInv(b, u, arith, leaves, 0) && u.stack == Saved(s)
    ensures Exec(After(|leaves|), columns, u) == Some(t) && t.regs[0] == Num(mask) && Returned(s, t)
    ensures forall r | 0 <= r < 64 :: Bit(mask, r) == Conjunction(b, leaves, Compared(|leaves|), r)
  {
    var v;
    v, mask := FoldRuns(b, columns, leaves, u, Compared(|leaves|));
    t := EpilogueRuns(columns, s, v);
    hide Conjunction, Exec, FoldCode;
    ExecAppend(FoldCode(Compared(|leaves|)), EPILOGUE, columns, u);
  }

  // ----- all emitted code but the loops is straight -----

  lemma StraightAppend(a: seq<Instr>, b: seq<Instr>)
    requires AllStraight(a) && AllStraight(b)
    ensures AllStraight(a + b)
  {
  }

  lemma StraightOperand(nodes: seq<Node>, p: Option<nat>, out: Reg)
    requires Below(p, |nodes|)
    ensures AllStraight(OperandCode(nodes, p, out))
  {
  }

  lemma StraightAdders(carry: Reg, slot: nat)
    requires slot < MAX_SLOTS
    ensures AllStraight(AddCode(carry)) && AllStraight(SubCode(carry)) && AllStraight(StoreCode(slot))
  {
  }

  lemma StraightNode(nodes: seq<Node>, i: nat)
    requires WellBuilt(nodes) && i < |nodes|
    requires Ripples(nodes[i]) ==> 0 <= nodes[i].carryReg < 8 && 0 <= nodes[i].slotId < MAX_SLOTS
    ensures AllStraight(NodeCode(nodes, i))
  {
    assert NodeOk(nodes[i], i);
    var n := nodes[i];
    if Ripples(n) {
      hide AllStraight, OperandCode, AddCode, SubCode, StoreCode;
      var carry := CarryRegister(n);
      StraightOperand(nodes, n.left, 2);
      StraightOperand(nodes, n.right, 3);
      StraightAdders(carry, n.slotId);
      var l, r := OperandCode(nodes, n.left, 2), OperandCode(nodes, n.right, 3);
      var adder := AdderCode(n);
      StraightAppend(l, r);
      StraightAppend(l + r, adder);
      StraightAppend(l + r + adder, StoreCode(n.slotId));
    }
  }

  lemma {:induction false} StraightBits(nodes: seq<Node>, arith: seq<nat>, subCarry: Word)
    requires Allocated(nodes, arith)
    ensures AllStraight(BitCode(nodes, arith)) && AllStraight(CarryInit(nodes, arith, subCarry))
    decreases |arith|
  {
    if arith != [] {
      var k := |arith| - 1;
      AllocatedPrefix(nodes, arith, k);
      StraightBits(nodes, arith[..k], subCarry);
      StraightNode(nodes, arith[k]);
      StraightAppend(BitCode(nodes, arith[..k]), NodeCode(nodes, arith[k]));
    }
  }

  lemma StraightCompare(nodes: seq<Node>, i: nat, c: nat)
    requires WellBuilt(nodes) && i < |nodes| && c < MAX_COMPARISONS
    ensures AllStraight(CompareCode(nodes, i, c))
  {
    assert NodeOk(nodes[i], i);
    var n := nodes[i];
    var l, r := OperandCode(nodes, n.left, 2), OperandCode(nodes, n.right, 3);
    StraightOperand(nodes, n.left, 2);
    StraightOperand(nodes, n.right, 3);
    hide OperandCode;
    StraightAppend(l, r);
    StraightAppend(l + r, EmitGt64(3, 2, GtReg(c), EqReg(c)));
    StraightAppend(l + r, EmitGt64(2, 3, GtReg(c), EqReg(c)));
  }

  lemma {:induction false} StraightCompares(nodes: seq<Node>, leaves: seq<nat>, n: nat)
    requires WellBuilt(nodes) && InRange(nodes, leaves) && n <= |leaves| && n <= MAX_COMPARISONS
    ensures AllStraight(CompareBits(nodes, leaves, n))
    decreases n
  {
    if n > 0 {
      hide CompareCode;
      StraightCompares(nodes, leaves, n - 1);
      StraightCompare(nodes, leaves[n - 1], n - 1);
      StraightAppend(CompareBits(nodes, leaves, n - 1), CompareCode(nodes, leaves[n - 1], n - 1));
    }
  }

  lemma {:induction false} StraightSmall(n: nat)
    requires n <= MAX_COMPARISONS
    ensures AllStraight(CompareInit(n)) && AllStraight(FoldCode(n))
    decreases n
  {
    if n > 0 { StraightSmall(n - 1); }
  }

  lemma StraightProgramParts(b: Batch, arith: seq<nat>, leaves: seq<nat>)
    requires Allocated(b.nodes, arith) && InRange(b.nodes, leaves)
    ensures AllStraight(Before(b.nodes, arith, b.subCarry)) && AllStraight(Between(|leaves|))
    ensures AllStraight(After(|leaves|))
    ensures AllStraight(RippleLoop(b.nodes, arith).body) && AllStraight(CompareLoop(b.nodes, leaves).body)
  {
    hide BitCode, CarryInit, CompareBits, CompareInit, FoldCode;
    StraightBits(b.nodes, arith, b.subCarry);
    StraightCompares(b.nodes, leaves, Compared(|leaves|));
    StraightSmall(Compared(|leaves|));
  }

  lemma ComparableRunnable(b: Batch, columns: Columns, arith: seq<nat>, leaves: seq<nat>)
    requires Comparable(b, columns, arith, leaves)
    ensures Runnable(b, columns, arith) && Ok(b)
  {
  }

  lemma LoopLabels(b: Batch, arith: seq<nat>, leaves: seq<nat>)
    requires Allocated(b.nodes, arith) && InRange(b.nodes, leaves)
    ensures var lp, lq := RippleLoop(b.nodes, arith), CompareLoop(b.nodes, leaves);
            lp.start != lp.end && lq.start != lq.end && {lp.start, lp.end} !! {lq.start, lq.end}
  {
    hide BitCode, CompareBits;
  }

  /** The program halts with the conjunction of the compared leaves, whatever the scratchpad held. */
  lemma ProgramRuns(b: Batch, columns: Columns, arith: seq<nat>, leaves: seq<nat>, s: State) returns (t: State,
                    mask: Word)
    requires Allocated(b.nodes, arith) && InRange(b.nodes, leaves)
    requires Comparable(b, columns, arith, leaves) && Entry(s)
    ensures Reaches(Program(b.nodes, arith, leaves, b.subCarry), columns, Running(0, s), Halted(t))
    ensures t.regs[0] == Num(mask) && Returned(s, t)
    ensures forall r | 0 <= r < 64 :: Bit(mask, r) == Conjunction(b, leaves, Compared(|leaves|), r)
  {
    hide Allocated, Comparable, RippleInv, CompareInv, Conjunction, Returned, AllStraight, Reaches, Exec, Loops, Before,
         Between, After,
         RippleLoop, CompareLoop, Bit, Entry;
    StraightProgramParts(b, arith, leaves);
    LoopLabels(b, arith, leaves);
    ComparableRunnable(b, columns, arith, leaves);
    var s1 := BeforeRuns(b, columns, arith, s);
    var s2 := RippleRuns(b, columns, arith, s1, 0);
    var s3 := BetweenRuns(b, columns, arith, leaves, s2);
    var s4 := CompareRuns(b, columns, arith, leaves, s3, 64);
    t, mask := AfterRuns(b, columns, arith, leaves, s, s4);
    TwoLoopProgram(Before(b.nodes, arith, b.subCarry), RippleLoop(b.nodes, arith), Between(|leaves|),
                   CompareLoop(b.nodes, leaves), After(|leaves|), columns, s, s1, 65, s2, s3, 65, s4, t);
  }
}
