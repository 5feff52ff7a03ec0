// Running the bit-sliced kernel: what each piece of emitted code does to the machine state.
module SlicedSimulation {
  import opened Words
  import opened Options
  import opened Machine
  import opened Ir
  import opened Allocation
  import opened SlicedCompiler
  import opened Planes

  /** The base registers and the bit number hold what the loops expect. */
  ghost predicate Based(s: State, k: int) {
    |s.scratch| == 512 && s.regs[19] == Ptr(FieldTable, 0) && s.regs[20] == Ptr(Scratch, 0)
    && 0 <= k < 64 && s.regs[15] == Num(k)
  }

  /** The plane of operand i at bit k can be found where its code looks for it. */
  ghost predicate Ready(b: Batch, columns: Columns, s: State, i: nat, k: nat) {
    Ok(b) && i < |b.nodes| && |columns| <= 8 && k < 64 && |s.scratch| == 512
    && match b.nodes[i].kind
       case LOAD => 0 <= b.nodes[i].fieldIdx < |columns| && |columns[b.nodes[i].fieldIdx]| == 64
                    && columns[b.nodes[i].fieldIdx][k] == Plane(b, i, k)
       case CONST => true
       case _ => b.nodes[i].resultKind == BITPLANE && 0 <= b.nodes[i].slotId < MAX_SLOTS
                 && s.scratch[b.nodes[i].slotId * 64 + k] == Some(Plane(b, i, k))
  }

  lemma LoadsColumn(columns: Columns, s: State, f: nat, out: Reg, k: nat) returns (t: State)
    requires Based(s, k) && (out == 2 || out == 3) && f < |columns| <= 8 && |columns[f]| == 64
    ensures Exec([LdrImm(4, 19, f * 8), LslImm(14, 15, 3), LdrReg(out, 4, 14)], columns, s) == Some(t)
    ensures t.regs[out] == Num(columns[f][k]) && OnlyRegs(s, t, {4, 14, out})
  {
    ShlByThree(k);
    hide Shl;
    var s1 := s.Set(4, Ptr(Column(f), 0));
    var s2 := s1.Set(14, Num(8 * k));
    t := s2.Set(out, Num(columns[f][k]));
    assert Exec1(LdrImm(4, 19, f * 8), columns, s) == Some(s1);
    assert Exec1(LslImm(14, 15, 3), columns, s1) == Some(s2);
    assert Exec1(LdrReg(out, 4, 14), columns, s2) == Some(t);
    hide Exec1;
    Exec3(LdrImm(4, 19, f * 8), LslImm(14, 15, 3), LdrReg(out, 4, 14), columns, s);
  }

  lemma LoadsConstant(columns: Columns, s: State, c: Int64, out: Reg, k: nat) returns (t: State)
    requires Based(s, k) && (out == 2 || out == 3)
    ensures Exec([MovAddr(4, c), LslImm(14, 15, 3), LdrReg(out, 4, 14)], columns, s) == Some(t)
    ensures t.regs[out] == Num(ConstPlanes(c)[k]) && OnlyRegs(s, t, {4, 14, out})
  {
    ShlByThree(k);
    hide Shl, ConstPlanes;
    var s1 := s.Set(4, Ptr(Block.Planes(c), 0));
    var s2 := s1.Set(14, Num(8 * k));
    t := s2.Set(out, Num(ConstPlanes(c)[k]));
    assert Exec1(MovAddr(4, c), columns, s) == Some(s1);
    assert Exec1(LslImm(14, 15, 3), columns, s1) == Some(s2);
    assert Exec1(LdrReg(out, 4, 14), columns, s2) == Some(t);
    hide Exec1;
    Exec3(MovAddr(4, c), LslImm(14, 15, 3), LdrReg(out, 4, 14), columns, s);
  }

  lemma LoadsSlot(columns: Columns, s: State, slot: nat, out: Reg, k: nat) returns (t: State)
    requires Based(s, k) && (out == 2 || out == 3) && slot < MAX_SLOTS && s.scratch[slot * 64 + k].Some?
    ensures Exec([LslImm(14, 15, 3), AddImm(14, 14, slot * 512), LdrReg(out, 20, 14)], columns, s) == Some(t)
    ensures t.regs[out] == Num(s.scratch[slot * 64 + k].value) && OnlyRegs(s, t, {4, 14, out})
  {
    ShlByThree(k);
    hide Shl;
    var s1 := s.Set(14, Num(8 * k));
    var s2 := s1.Set(14, Num(8 * k + slot * 512));
    t := s2.Set(out, Num(s.scratch[slot * 64 + k].value));
    assert Exec1(LslImm(14, 15, 3), columns, s) == Some(s1);
    assert Exec1(AddImm(14, 14, slot * 512), columns, s1) == Some(s2);
    assert Exec1(LdrReg(out, 20, 14), columns, s2) == Some(t);
    hide Exec1;
    Exec3(LslImm(14, 15, 3), AddImm(14, 14, slot * 512), LdrReg(out, 20, 14), columns, s);
  }

  /** Loading an operand puts its plane into the requested register. */
  lemma LoadsOperand(b: Batch, columns: Columns, s: State, i: nat, out: Reg, k: nat) returns (t: State)
    requires Ready(b, columns, s, i, k) && Based(s, k) && (out == 2 || out == 3)
    ensures Exec(OperandCode(b.nodes, Some(i), out), columns, s) == Some(t)
    ensures t.regs[out] == Num(Plane(b, i, k)) && OnlyRegs(s, t, {4, 14, out})
  {
    hide Plane, Exec, ConstPlanes;
    var n := b.nodes[i];
    if n.kind == LOAD {
      t := LoadsColumn(columns, s, n.fieldIdx, out, k);
    } else if n.kind == CONST {
      ConstPlane(b, i, k);
      t := LoadsConstant(columns, s, n.constValue, out, k);
    } else {
      t := LoadsSlot(columns, s, n.slotId, out, k);
    }
  }

  /** The store writes the result plane to the node's slot. */
  lemma StoresResult(columns: Columns, s: State, slot: nat, k: nat, w: Word) returns (t: State)
    requires Based(s, k) && slot < MAX_SLOTS && s.regs[5] == Num(w)
    ensures Exec(StoreCode(slot), columns, s) == Some(t)
    ensures t.scratch == s.scratch[slot * 64 + k := Some(w)] && t.stack == s.stack
    ensures forall r: Reg | r != 14 :: t.regs[r] == s.regs[r]
  {
    ShlByThree(k);
    hide Shl;
    var s1 := s.Set(14, Num(8 * k));
    var s2 := s1.Set(14, Num(8 * k + slot * 512));
    assert Exec1(LslImm(14, 15, 3), columns, s) == Some(s1);
    assert Exec1(AddImm(14, 14, slot * 512), columns, s1) == Some(s2);
    t := s2.(scratch := s.scratch[slot * 64 + k := Some(w)]);
    assert Exec1(StrReg(5, 20, 14), columns, s2) == Some(t);
    hide Exec1;
    Exec3(LslImm(14, 15, 3), AddImm(14, 14, slot * 512), StrReg(5, 20, 14), columns, s);
  }

  /** The full-adder instructions of ADD. */
  lemma AddRuns(columns: Columns, s: State, carry: Reg, x: Word, y: Word, z: Word) returns (t: State)
    requires 21 <= carry <= 28 && s.regs[2] == Num(x) && s.regs[3] == Num(y) && s.regs[carry] == Num(z)
    ensures Exec(AddCode(carry), columns, s) == Some(t)
    ensures t.regs[5] == Num(Xor(Xor(x, y), z)) && t.regs[carry] == Num(Or(And(x, y), And(Xor(x, y), z)))
    ensures OnlyRegs(s, t, {5, 6, 7, 14, carry})
  {
    hide Exec1, Xor, And, Or;
    var s1 := s.Set(6, Num(Xor(x, y)));
    var s2 := s1.Set(5, Num(Xor(Xor(x, y), z)));
    var s3 := s2.Set(7, Num(And(x, y)));
    var s4 := s3.Set(14, Num(And(Xor(x, y), z)));
    t := s4.Set(carry, Num(Or(And(x, y), And(Xor(x, y), z))));
    AluRuns(columns, s, OpEor, 6, 2, 3);
    AluRuns(columns, s1, OpEor, 5, 6, carry);
    AluRuns(columns, s2, OpAnd, 7, 2, 3);
    AluRuns(columns, s3, OpAnd, 14, 6, carry);
    AluRuns(columns, s4, OpOrr, carry, 7, 14);
    Exec2(Alu(OpEor, 6, 2, 3), Alu(OpEor, 5, 6, carry), columns, s);
    Exec3(Alu(OpAnd, 7, 2, 3), Alu(OpAnd, 14, 6, carry), Alu(OpOrr, carry, 7, 14), columns, s2);
    ExecAppend([Alu(OpEor, 6, 2, 3), Alu(OpEor, 5, 6, carry)],
               [Alu(OpAnd, 7, 2, 3), Alu(OpAnd, 14, 6, carry), Alu(OpOrr, carry, 7, 14)], columns, s);
  }

  /** The full-adder instructions of SUB, with the complement of the right operand. */
  lemma SubRuns(columns: Columns, s: State, carry: Reg, x: Word, y: Word, z: Word) returns (t: State)
    requires 21 <= carry <= 28 && s.regs[2] == Num(x) && s.regs[3] == Num(y) && s.regs[carry] == Num(z)
    ensures Exec(SubCode(carry), columns, s) == Some(t)
    ensures t.regs[5] == Num(Xor(Xor(x, Not(y)), z)) && t.regs[carry] == Num(Or(And(x, Not(y)), And(Xor(x, Not(y)), z)))
    ensures OnlyRegs(s, t, {5, 6, 7, 14, carry})
  {
    hide Exec1, Xor, And, Or, Not;
    var n := Not(y);
    var s1 := s.Set(6, Num(n));
    var s2 := s1.Set(7, Num(Xor(x, n)));
    var s3 := s2.Set(5, Num(Xor(Xor(x, n), z)));
    var s4 := s3.Set(14, Num(And(x, n)));
    var s5 := s4.Set(6, Num(And(z, Xor(x, n))));
    t := s5.Set(carry, Num(Or(And(x, n), And(z, Xor(x, n)))));
    AndCommutes(z, Xor(x, n));
    MvnRuns(columns, s, 6, 3);
    AluRuns(columns, s1, OpEor, 7, 2, 6);
    AluRuns(columns, s2, OpEor, 5, 7, carry);
    AluRuns(columns, s3, OpAnd, 14, 2, 6);
    AluRuns(columns, s4, OpAnd, 6, carry, 7);
    AluRuns(columns, s5, OpOrr, carry, 14, 6);
    Exec3(Mvn(6, 3), Alu(OpEor, 7, 2, 6), Alu(OpEor, 5, 7, carry), columns, s);
    Exec3(Alu(OpAnd, 14, 2, 6), Alu(OpAnd, 6, carry, 7), Alu(OpOrr, carry, 14, 6), columns, s3);
    ExecAppend([Mvn(6, 3), Alu(OpEor, 7, 2, 6), Alu(OpEor, 5, 7, carry)],
               [Alu(OpAnd, 14, 2, 6), Alu(OpAnd, 6, carry, 7), Alu(OpOrr, carry, 14, 6)], columns, s);
  }

  lemma AndCommutes(a: Word, b: Word)
    ensures And(a, b) == And(b, a)
  {
    WordsEqual(And(a, b), And(b, a));
  }

  // ----- one bit of one arithmetic node -----

  /** The planes of node i below bit k are in its slot and the carry into bit k is in its register. */
  ghost predicate Filled(b: Batch, s: State, i: nat, k: nat) {
    Adds(b, i) && |s.scratch| == 512 && k <= 64
    && 0 <= b.nodes[i].slotId < MAX_SLOTS && 0 <= b.nodes[i].carryReg < 8
    && s.regs[21 + b.nodes[i].carryReg] == Num(CarryPlane(b, i, k))
    && forall q | 0 <= q < k :: s.scratch[b.nodes[i].slotId * 64 + q] == Some(Plane(b, i, q))
  }

  /** The adder of node i puts its plane into x5 and the next carry into its register. */
  lemma AdderRuns(b: Batch, columns: Columns, s: State, i: nat, k: nat) returns (t: State)
    requires Adds(b, i) && 0 <= b.nodes[i].carryReg < 8 && k < 64
    requires s.regs[2] == Num(Plane(b, b.nodes[i].left.value, k))
    requires s.regs[3] == Num(Plane(b, b.nodes[i].right.value, k))
    requires s.regs[CarryRegister(b.nodes[i])] == Num(CarryPlane(b, i, k))
    ensures Exec(AdderCode(b.nodes[i]), columns, s) == Some(t)
    ensures t.regs[5] == Num(Plane(b, i, k)) && t.regs[CarryRegister(b.nodes[i])] == Num(CarryPlane(b, i, k + 1))
    ensures OnlyRegs(s, t, {5, 6, 7, 14, CarryRegister(b.nodes[i])})
  {
    hide Plane, CarryPlane, Exec, AddCode, SubCode, Xor, And, Or, Not, OnlyRegs;
    var n := b.nodes[i];
    var x, y, z := Plane(b, n.left.value, k), Plane(b, n.right.value, k), CarryPlane(b, i, k);
    FullAdder(b, i, k);
    if n.kind == ADD {
      t := AddRuns(columns, s, CarryRegister(n), x, y, z);
    } else {
      t := SubRuns(columns, s, CarryRegister(n), x, y, z);
    }
  }

  lemma NodeRuns(b: Batch, columns: Columns, s: State, i: nat, k: nat) returns (t: State)
    requires Filled(b, s, i, k) && Based(s, k)
    requires Ready(b, columns, s, b.nodes[i].left.value, k) && Ready(b, columns, s, b.nodes[i].right.value, k)
    ensures Exec(NodeCode(b.nodes, i), columns, s) == Some(t)
    ensures Filled(b, t, i, k + 1) && Based(t, k) && t.stack == s.stack
    ensures t.scratch == s.scratch[b.nodes[i].slotId * 64 + k := Some(Plane(b, i, k))]
    ensures forall r: Reg | r >= 15 && r != 21 + b.nodes[i].carryReg :: t.regs[r] == s.regs[r]
  {
    hide Plane, CarryPlane, Exec, OperandCode, AdderCode, StoreCode;
    var n := b.nodes[i];
    var l, r := OperandCode(b.nodes, n.left, 2), OperandCode(b.nodes, n.right, 3);
    assert NodeOk(n, i);
    var s1 := LoadsOperand(b, columns, s, n.left.value, 2, k);
    var s2 := LoadsOperand(b, columns, s1, n.right.value, 3, k);
    var s3 := AdderRuns(b, columns, s2, i, k);
    t := StoresResult(columns, s3, n.slotId, k, Plane(b, i, k));
    ExecParts(l, r, AdderCode(n), StoreCode(n.slotId), columns, s);
    FilledNext(b, s, t, i, k);
  }

  lemma ExecParts(a: seq<Instr>, b: seq<Instr>, c: seq<Instr>, d: seq<Instr>, columns: Columns, s: State)
    requires Exec(a, columns, s).Some? && Exec(b, columns, Exec(a, columns, s).value).Some?
    requires Exec(c, columns, Exec(b, columns, Exec(a, columns, s).value).value).Some?
    ensures Exec(a + b + c + d, columns, s)
        == Exec(d, columns, Exec(c, columns, Exec(b, columns, Exec(a, columns, s).value).value).value)
  {
    hide Exec;
    ExecAppend(a, b, columns, s);
    ExecAppend(a + b, c, columns, s);
    ExecAppend(a + b + c, d, columns, s);
  }

  lemma FilledNext(b: Batch, s: State, t: State, i: nat, k: nat)
    requires Filled(b, s, i, k) && k < 64 && t.scratch == s.scratch[b.nodes[i].slotId * 64 + k := Some(Plane(b, i, k))]
    requires t.regs[21 + b.nodes[i].carryReg] == Num(CarryPlane(b, i, k + 1))
    ensures Filled(b, t, i, k + 1)
  {
    hide Plane, CarryPlane;
  }

  // ----- the ripple-carry loop -----

  /** Where operand i of the l-th arithmetic node comes from. */
  ghost predicate OperandOk(b: Batch, columns: Columns, arith: seq<nat>, l: nat, i: nat) {
    Ok(b) && i < |b.nodes| && |columns| <= 8
    && match b.nodes[i].kind
       case LOAD => ColumnHolds(b, columns, i)
       case CONST => true
       case _ => b.nodes[i].resultKind == BITPLANE && exists m :: 0 <= m < l && m < |arith| && arith[m] == i
  }

  /** The column of a LOAD node holds its planes. */
  ghost predicate ColumnHolds(b: Batch, columns: Columns, i: nat)
    requires Ok(b) && i < |b.nodes|
  {
    var f := b.nodes[i].fieldIdx;
    0 <= f < |columns| && |columns[f]| == 64 && forall k | 0 <= k < 64 :: columns[f][k] == Plane(b, i, k)
  }

  /** The arithmetic nodes in emission order, each with operands that are available by then. */
  ghost predicate Runnable(b: Batch, columns: Columns, arith: seq<nat>) {
    Ok(b) && Allocated(b.nodes, arith)
    && forall l | 0 <= l < |arith| :: NodeRunnable(b, columns, arith, l)
  }

  ghost predicate NodeRunnable(b: Batch, columns: Columns, arith: seq<nat>, l: nat)
    requires l < |arith|
  {
    Adds(b, arith[l])
    && OperandOk(b, columns, arith, l, b.nodes[arith[l]].left.value)
    && OperandOk(b, columns, arith, l, b.nodes[arith[l]].right.value)
  }

  /** The first m nodes are filled one bit further than the others. */
  ghost predicate Level(b: Batch, s: State, arith: seq<nat>, m: nat, k: nat) {
    forall l | 0 <= l < |arith| :: Filled(b, s, arith[l], if l < m then k + 1 else k)
  }

  lemma OperandReady(b: Batch, columns: Columns, s: State, arith: seq<nat>, m: nat, l: nat, i: nat, k: nat)
    requires OperandOk(b, columns, arith, l, i) && l <= m && k < 64 && |s.scratch| == 512
    requires Level(b, s, arith, m, k)
    ensures Ready(b, columns, s, i, k)
  {
    hide Plane, CarryPlane;
    if b.nodes[i].kind != LOAD && b.nodes[i].kind != CONST {
      var j :| 0 <= j < l && j < |arith| && arith[j] == i;
      assert Filled(b, s, arith[j], k + 1);
    }
  }

  /** A step of one node leaves the planes and the carry of every other node alone. */
  lemma OthersKept(b: Batch, s: State, t: State, i: nat, j: nat, k: nat, q: nat)
    requires Filled(b, s, j, q) && k < 64 && Adds(b, i)
    requires 0 <= b.nodes[i].slotId < MAX_SLOTS && 0 <= b.nodes[i].carryReg < 8
    requires b.nodes[i].slotId != b.nodes[j].slotId && b.nodes[i].carryReg != b.nodes[j].carryReg
    requires |t.scratch| == 512 && t.scratch == s.scratch[b.nodes[i].slotId * 64 + k := Some(Plane(b, i, k))]
    requires forall r: Reg | r >= 15 && r != 21 + b.nodes[i].carryReg :: t.regs[r] == s.regs[r]
    ensures Filled(b, t, j, q)
  {
    hide Plane, CarryPlane;
    assert t.regs[21 + b.nodes[j].carryReg] == s.regs[21 + b.nodes[j].carryReg];
  }

  lemma {:induction false} BitRuns(b: Batch, columns: Columns, arith: seq<nat>, s: State, m: nat,
                                   k: nat) returns (t: State)
    requires Runnable(b, columns, arith) && m <= |arith| && Based(s, k) && Level(b, s, arith, 0, k)
    ensures Allocated(b.nodes, arith[..m])
    ensures Exec(BitCode(b.nodes, arith[..m]), columns, s) == Some(t)
    ensures Based(t, k) && Level(b, t, arith, m, k) && t.stack == s.stack
    decreases m
  {
    AllocatedPrefix(b.nodes, arith, m);
    if m == 0 {
      t := s;
    } else {
      var u := BitRuns(b, columns, arith, s, m - 1, k);
      var i := arith[m - 1];
      assert NodeRunnable(b, columns, arith, m - 1);
      assert arith[..m][..m - 1] == arith[..m - 1];
      assert arith[..m][m - 1] == i;
      OperandReady(b, columns, u, arith, m - 1, m - 1, b.nodes[i].left.value, k);
      OperandReady(b, columns, u, arith, m - 1, m - 1, b.nodes[i].right.value, k);
      assert Filled(b, u, arith[m - 1], k);
      t := NodeRuns(b, columns, u, i, k);
      ExecAppend(BitCode(b.nodes, arith[..m - 1]), NodeCode(b.nodes, i), columns, s);
      hide Plane, CarryPlane, BitCode, NodeCode, Exec;
      forall l | 0 <= l < |arith| ensures Filled(b, t, arith[l], if l < m then k + 1 else k) {
        if l != m - 1 {
          assert NodeRunnable(b, columns, arith, l);
          assert Filled(b, u, arith[l], if l < m - 1 then k + 1 else k);
          OthersKept(b, u, t, i, arith[l], k, if l < m - 1 then k + 1 else k);
        }
      }
    }
  }

  /** The state between two turns of the ripple loop. */
  ghost predicate RippleInv(b: Batch, s: State, arith: seq<nat>, k: nat) {
    |s.scratch| == 512 && s.regs[19] == Ptr(FieldTable, 0) && s.regs[20] == Ptr(Scratch, 0)
    && k <= 64 && s.regs[15] == Num(k) && Level(b, s, arith, 0, k)
  }

  lemma NextBit(b: Batch, s: State, t: State, arith: seq<nat>, k: nat)
    requires Based(s, k) && Level(b, s, arith, |arith|, k) && t == s.Set(15, Num(k + 1))
    ensures RippleInv(b, t, arith, k + 1)
  {
    hide Plane, CarryPlane;
    forall l | 0 <= l < |arith| ensures Filled(b, t, arith[l], k + 1) {
      assert Filled(b, s, arith[l], k + 1);
    }
  }

  lemma CountsUp(columns: Columns, s: State, k: nat)
    requires k < 64 && s.regs[15] == Num(k)
    ensures Exec1(AddImm(15, 15, 1), columns, s) == Some(s.Set(15, Num(k + 1)))
  {
  }

  lemma RippleTurn(b: Batch, columns: Columns, arith: seq<nat>, g: State, k: nat) returns (v: State)
    requires Runnable(b, columns, arith) && RippleInv(b, g, arith, k) && k < 64
    ensures Exec(RippleLoop(b.nodes, arith).body, columns, g) == Some(v)
    ensures RippleInv(b, v, arith, k + 1) && v.stack == g.stack
  {
    assert arith[..|arith|] == arith;
    var u := BitRuns(b, columns, arith, g, |arith|, k);
    v := u.Set(15, Num(k + 1));
    NextBit(b, u, v, arith, k);
    CountsUp(columns, u, k);
    ExecSnoc(BitCode(b.nodes, arith), AddImm(15, 15, 1), columns, g, u, v);
  }

  /** Sixty-four turns fill every slot with its node's planes. */
  lemma {:induction false} RippleRuns(b: Batch, columns: Columns, arith: seq<nat>, s: State, k: nat) returns (t: State)
    requires Runnable(b, columns, arith) && RippleInv(b, s, arith, k)
    ensures Loops(RippleLoop(b.nodes, arith), columns, s, 65 - k) == Some(t)
    ensures RippleInv(b, t, arith, 64) && t.stack == s.stack
    decreases 64 - k
  {
    hide Runnable, RippleLoop, RippleInv, Loops, Exec, Holds, Guarded;
    var g := RippleGuard(b, columns, s, arith, k);
    var lp := RippleLoop(b.nodes, arith);
    if k == 64 {
      t := g;
      LoopsExit(lp, columns, s, 65 - k);
    } else {
      var v := RippleTurn(b, columns, arith, g, k);
      t := RippleRuns(b, columns, arith, v, k + 1);
      LoopsAgain(lp, columns, s, v, 64 - k);
    }
  }

  /** The loop's test fails exactly after bit 63. */
  lemma RippleGuard(b: Batch, columns: Columns, s: State, arith: seq<nat>, k: nat) returns (g: State)
    requires Runnable(b, columns, arith) && RippleInv(b, s, arith, k)
    ensures Allocated(b.nodes, arith) && k <= 64
    ensures var lp := RippleLoop(b.nodes, arith);
            s.Get(lp.counter).Num? && Holds(lp.exit, (s.Get(lp.counter).word, lp.bound)) == (k == 64)
                && g == Guarded(lp, s)
    ensures RippleInv(b, g, arith, k) && g.stack == s.stack
  {
    g := Guarded(RippleLoop(b.nodes, arith), s);
    GuardKeepsLevel(b, s, g, arith, 0, k);
  }

  lemma GuardKeepsLevel(b: Batch, s: State, g: State, arith: seq<nat>, m: nat, k: nat)
    requires g.regs == s.regs && g.scratch == s.scratch && Level(b, s, arith, m, k)
    ensures Level(b, g, arith, m, k)
  {
    hide Plane, CarryPlane;
    forall l | 0 <= l < |arith| ensures Filled(b, g, arith[l], if l < m then k + 1 else k) {
      assert Filled(b, s, arith[l], if l < m then k + 1 else k);
    }
  }
}
