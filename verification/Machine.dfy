// The part of AArch64 that the emitted kernels use: registers, a 512-word scratchpad,
// read-only field columns and constant planes, and a program counter over instructions.
module Machine {
  import opened Words
  import opened Options

  // ----- state -----

  /** Register numbers; 31 is the zero register. */
  type Reg = r: int | 0 <= r <= 31
  const XZR: Reg := 31

  /** The memory blocks a kernel can address. */
  datatype Block = FieldTable | Column(index: nat) | Planes(constant: Int64) | Scratch | Frame

  /** A register holds a number or a byte offset into a block. */
  datatype Val = Num(word: Word) | Ptr(block: Block, offset: int)

  type RegFile = f: seq<Val> | |f| == 32 witness seq(32, i => Num(0))

  /** What a kernel only reads: one 64-word column (or set of planes) per field index. */
  type Columns = seq<seq<Word>>

  /** Scratch words; an absent word has not been written yet, and loading it is a fault. */
  type Scratchpad = seq<Option<Word>>

  datatype State = State(regs: RegFile, scratch: Scratchpad, stack: seq<Val>, flags: (Word, Word))
  {
    function Get(r: Reg): Val {
      if r == XZR then Num(0) else regs[r]
    }

    function Set(r: Reg, v: Val): State {
      if r == XZR then this else this.(regs := regs[r := v])
    }
  }

  // ----- instructions -----

  datatype AluOp = OpEor | OpAnd | OpOrr | OpBic
  datatype Cond = CondHS | CondLT | CondHI | CondLO | CondEQ
  type Label = nat

  datatype Instr =
    | MovImm(d: Reg, imm: Word)
    | MovReg(d: Reg, a: Reg)
    | MovSp(d: Reg)
    | MovAddr(d: Reg, constant: Int64)  // the pool address of a constant's planes
    | Movz(d: Reg, half: Word, shift: nat)
    | Movk(d: Reg, half: Word, shift: nat)
    | Alu(op: AluOp, d: Reg, a: Reg, b: Reg)
    | Mvn(d: Reg, a: Reg)
    | Add(d: Reg, a: Reg, b: Reg)
    | Sub(d: Reg, a: Reg, b: Reg)
    | AddImm(d: Reg, a: Reg, imm: Word)
    | SubImm(d: Reg, a: Reg, imm: Word)
    | LslImm(d: Reg, a: Reg, amount: nat)
    | LslReg(d: Reg, a: Reg, b: Reg)
    | LdrImm(d: Reg, base: Reg, disp: int)
    | LdrReg(d: Reg, base: Reg, index: Reg)
    | LdrScaled(d: Reg, base: Reg, index: Reg)  // index shifted left by three
    | LdrPost(d: Reg, base: Reg, step: int)
    | StrImm(a: Reg, base: Reg, disp: int)
    | StrReg(a: Reg, base: Reg, index: Reg)
    | Cmp(a: Reg, b: Reg)
    | CmpImm(a: Reg, imm: Word)
    | Cset(d: Reg, cond: Cond)
    | Push(a: Reg, b: Reg)  // stp with pre-decrement of sp
    | Pop(a: Reg, b: Reg)   // ldp with post-increment of sp
    | Bind(l: Label)
    | B(l: Label)
    | BCond(cond: Cond, l: Label)
    | Ret

  predicate Straight(i: Instr) {
    !i.Bind? && !i.B? && !i.BCond? && !i.Ret?
  }

  function AluResult(op: AluOp, a: Word, b: Word): Word {
    match op
    case OpEor => Xor(a, b)
    case OpAnd => And(a, b)
    case OpOrr => Or(a, b)
    case OpBic => Bic(a, b)
  }

  /** The signed reading of a word. */
  function Signed(w: Word): int {
    if w < 0x8000_0000_0000_0000 then w else w - WORD_MOD
  }

  predicate Holds(c: Cond, flags: (Word, Word)) {
    match c
    case CondHS => flags.0 >= flags.1
    case CondLO => flags.0 < flags.1
    case CondHI => flags.0 > flags.1
    case CondEQ => flags.0 == flags.1
    case CondLT => Signed(flags.0) < Signed(flags.1)
  }

  /** The pre-sliced planes of a constant: plane b is all ones or all zeros. */
  function ConstPlanes(c: Int64): (p: seq<Word>)
    ensures |p| == 64
    ensures forall b | 0 <= b < 64 :: p[b] == if Asr(c, b) % 2 == 1 then ALL_ONES else 0
  {
    seq(64, b requires 0 <= b < 64 => if Asr(c, b) % 2 == 1 then ALL_ONES else 0)
  }

  // ----- memory -----

  function Load(columns: Columns, scratch: Scratchpad, block: Block, offset: int): Option<Val> {
    if offset < 0 || offset % 8 != 0 then None
    else
      var k := offset / 8;
      match block
      case FieldTable => if k >= 8 then None else if k < |columns| then Some(Ptr(Column(k), 0)) else Some(Num(0))
      case Column(i) => if i < |columns| && k < |columns[i]| then Some(Num(columns[i][k])) else None
      case Planes(c) => if k < 64 then Some(Num(ConstPlanes(c)[k])) else None
      case Scratch => if k < |scratch| && scratch[k].Some? then Some(Num(scratch[k].value)) else None
      case Frame => None
  }

  function LoadInto(columns: Columns, s: State, d: Reg, base: Val, disp: int): Option<State> {
    if base.Num? then None
    else match Load(columns, s.scratch, base.block, base.offset + disp)
      case None => None
      case Some(v) => Some(s.Set(d, v))
  }

  function StoreFrom(s: State, v: Val, base: Val, disp: int): Option<State> {
    if base.Ptr? && base.block == Scratch && v.Num? && base.offset + disp >= 0
       && (base.offset + disp) % 8 == 0 && (base.offset + disp) / 8 < |s.scratch|
    then Some(s.(scratch := s.scratch[(base.offset + disp) / 8 := Some(v.word)]))
    else None
  }

  // ----- one instruction -----

  /** The state after a non-branching instruction, or None when the machine would fault. */
  function Exec1(i: Instr, columns: Columns, s: State): Option<State> {
    match i
    case MovImm(d, imm) => Some(s.Set(d, Num(imm)))
    case MovReg(d, a) => Some(s.Set(d, s.Get(a)))
    case MovSp(d) => Some(s.Set(d, Ptr(Frame, -8 * |s.stack|)))
    case MovAddr(d, c) => Some(s.Set(d, Ptr(Planes(c), 0)))
    case Movz(d, half, shift) => Some(s.Set(d, Num(Shl(half, shift))))
    case Movk(d, half, shift) =>
      if s.Get(d).Num? then Some(s.Set(d, Num(Insert16(s.Get(d).word, half, shift)))) else None
    case Alu(op, d, a, b) =>
      if s.Get(a).Num? && s.Get(b).Num? then Some(s.Set(d, Num(AluResult(op, s.Get(a).word, s.Get(b).word)))) else None
    case Mvn(d, a) => if s.Get(a).Num? then Some(s.Set(d, Num(Not(s.Get(a).word)))) else None
    case Add(d, a, b) =>
      if s.Get(a).Num? && s.Get(b).Num? then Some(s.Set(d, Num((s.Get(a).word + s.Get(b).word) % WORD_MOD))) else None
    case Sub(d, a, b) =>
      if s.Get(a).Num? && s.Get(b).Num? then Some(s.Set(d, Num((s.Get(a).word - s.Get(b).word) % WORD_MOD))) else None
    case AddImm(d, a, imm) =>
      (match s.Get(a)
       case Num(w) => Some(s.Set(d, Num((w + imm) % WORD_MOD)))
       case Ptr(p, o) => Some(s.Set(d, Ptr(p, o + imm))))
    case SubImm(d, a, imm) => if s.Get(a).Num? then Some(s.Set(d, Num((s.Get(a).word - imm) % WORD_MOD))) else None
    case LslImm(d, a, n) => if s.Get(a).Num? then Some(s.Set(d, Num(Shl(s.Get(a).word, n)))) else None
    case LslReg(d, a, b) =>
      if s.Get(a).Num? && s.Get(b).Num? then Some(s.Set(d, Num(Shl(s.Get(a).word, s.Get(b).word % 64)))) else None
    case LdrImm(d, base, disp) => LoadInto(columns, s, d, s.Get(base), disp)
    case LdrReg(d, base, index) =>
      if s.Get(index).Num? then LoadInto(columns, s, d, s.Get(base), s.Get(index).word) else None
    case LdrScaled(d, base, index) =>
      if s.Get(index).Num? then LoadInto(columns, s, d, s.Get(base), Shl(s.Get(index).word, 3)) else None
    case LdrPost(d, base, step) =>
      (match LoadInto(columns, s, d, s.Get(base), 0)
       case Some(t) => Some(t.Set(base, Ptr(s.Get(base).block, s.Get(base).offset + step)))
       case None => None)
    case StrImm(a, base, disp) => StoreFrom(s, s.Get(a), s.Get(base), disp)
    case StrReg(a, base, index) =>
      if s.Get(index).Num? then StoreFrom(s, s.Get(a), s.Get(base), s.Get(index).word) else None
    case Cmp(a, b) =>
      if s.Get(a).Num? && s.Get(b).Num? then Some(s.(flags := (s.Get(a).word, s.Get(b).word))) else None
    case CmpImm(a, imm) => if s.Get(a).Num? then Some(s.(flags := (s.Get(a).word, imm))) else None
    case Cset(d, c) => Some(s.Set(d, Num(if Holds(c, s.flags) then 1 else 0)))
    case Push(a, b) => Some(s.(stack := s.stack + [s.Get(a), s.Get(b)]))
    case Pop(a, b) =>
      var n := |s.stack|;
      if n < 2 then None
      else Some(s.(stack := s.stack[..n - 2]).Set(a, s.stack[n - 2]).Set(b, s.stack[n - 1]))
    case Bind(_) => None
    case B(_) => None
    case BCond(_, _) => None
    case Ret => None
  }

  lemma AluRuns(columns: Columns, s: State, op: AluOp, d: Reg, a: Reg, b: Reg)
    requires s.Get(a).Num? && s.Get(b).Num?
    ensures Exec1(Alu(op, d, a, b), columns, s) == Some(s.Set(d, Num(AluResult(op, s.Get(a).word, s.Get(b).word))))
  {
  }

  lemma MvnRuns(columns: Columns, s: State, d: Reg, a: Reg)
    requires s.Get(a).Num?
    ensures Exec1(Mvn(d, a), columns, s) == Some(s.Set(d, Num(Not(s.Get(a).word))))
  {
  }

  /** Replaces the sixteen bits of w that start at the given position. */
  function Insert16(w: Word, half: Word, shift: nat): (r: Word)
    ensures forall i | 0 <= i < 64 ::
              Bit(r, i) == if shift <= i < shift + 16 then Bit(half, i - shift) else Bit(w, i)
  {
    Pack(seq(64, i requires i >= 0 => if shift <= i < shift + 16 then Bit(half, i - shift) else Bit(w, i)))
  }

  /** t differs from s at most in the given registers and the flags. */
  ghost predicate OnlyRegs(s: State, t: State, changed: set<Reg>) {
    t.scratch == s.scratch && t.stack == s.stack
    && forall r: Reg | r !in changed :: t.regs[r] == s.regs[r]
  }

  /** The state with no scratch word present. */
  function Blank(s: State): State {
    s.(scratch := seq(|s.scratch|, i => None))
  }

  // ----- straight-line code -----

  /** Runs a list of instructions, the last one last. */
  function Exec(code: seq<Instr>, columns: Columns, s: State): Option<State> {
    if code == [] then Some(s)
    else Then(Exec(code[..|code| - 1], columns, s), code[|code| - 1], columns)
  }

  function Then(o: Option<State>, i: Instr, columns: Columns): Option<State> {
    match o
    case None => None
    case Some(s) => Exec1(i, columns, s)
  }

  lemma {:induction false} ExecAppend(a: seq<Instr>, b: seq<Instr>, columns: Columns, s: State)
    ensures Exec(a + b, columns, s) ==
            match Exec(a, columns, s) case None => None case Some(t) => Exec(b, columns, t)
    decreases |b|
  {
    if b == [] {
      assert a + b == a;
    } else {
      var n := |b| - 1;
      assert (a + b)[..|a + b| - 1] == a + b[..n];
      ExecAppend(a, b[..n], columns, s);
    }
  }

  /** The instruction does not write the register. */
  predicate Spares(i: Instr, r: Reg) {
    match i
    case StrImm(_, _, _) => true
    case StrReg(_, _, _) => true
    case Cmp(_, _) => true
    case CmpImm(_, _) => true
    case Push(_, _) => true
    case Pop(a, b) => a != r && b != r
    case LdrPost(d, base, _) => d != r && base != r
    case Bind(_) => true
    case B(_) => true
    case BCond(_, _) => true
    case Ret => true
    case _ => i.d != r
  }

  predicate AllSpare(code: seq<Instr>, r: Reg) {
    forall k | 0 <= k < |code| :: Spares(code[k], r)
  }

  lemma Exec1Spares(i: Instr, columns: Columns, s: State, r: Reg)
    requires Spares(i, r) && Exec1(i, columns, s).Some?
    ensures Exec1(i, columns, s).value.regs[r] == s.regs[r]
  {
  }

  lemma {:induction false} ExecSpares(code: seq<Instr>, columns: Columns, s: State, r: Reg)
    requires AllSpare(code, r) && Exec(code, columns, s).Some?
    ensures Exec(code, columns, s).value.regs[r] == s.regs[r]
    decreases |code|
  {
    hide Exec1, Spares;
    if code != [] {
      var n := |code| - 1;
      ExecSpares(code[..n], columns, s, r);
      Exec1Spares(code[n], columns, Exec(code[..n], columns, s).value, r);
    }
  }

  lemma ExecOne(i: Instr, columns: Columns, s: State)
    ensures Exec([i], columns, s) == Exec1(i, columns, s)
  {
    assert Exec([i], columns, s) == Then(Exec([i][..0], columns, s), i, columns);
  }

  lemma ExecSnoc(code: seq<Instr>, i: Instr, columns: Columns, s: State, t: State, u: State)
    requires Exec(code, columns, s) == Some(t) && Exec1(i, columns, t) == Some(u)
    ensures Exec(code + [i], columns, s) == Some(u)
  {
    assert (code + [i])[..|code|] == code;
    hide Exec1;
  }

  lemma Exec2(i: Instr, j: Instr, columns: Columns, s: State)
    ensures Exec([i, j], columns, s) == Then(Exec1(i, columns, s), j, columns)
  {
    assert [i, j][..1] == [i];
    ExecOne(i, columns, s);
  }

  lemma Exec3(i: Instr, j: Instr, k: Instr, columns: Columns, s: State)
    ensures Exec([i, j, k], columns, s) == Then(Then(Exec1(i, columns, s), j, columns), k, columns)
  {
    assert [i, j, k][..2] == [i, j];
    Exec2(i, j, columns, s);
  }

  lemma Exec4(i: Instr, j: Instr, k: Instr, l: Instr, columns: Columns, s: State)
    ensures Exec([i, j, k, l], columns, s) ==
            Then(Then(Then(Exec1(i, columns, s), j, columns), k, columns), l, columns)
  {
    assert [i, j, k, l][..3] == [i, j, k];
    Exec3(i, j, k, columns, s);
  }

  // ----- programs with branches -----

  datatype Config = Running(pc: nat, state: State) | Halted(final: State) | Stuck

  /** The position a label is bound at; past the end when it is not bound. */
  function Target(program: seq<Instr>, l: Label): (t: nat)
    ensures t <= |program|
  {
    if program == [] then 0
    else if program[0] == Bind(l) then 0
    else 1 + Target(program[1..], l)
  }

  function Step(program: seq<Instr>, columns: Columns, c: Config): Config {
    if !c.Running? then c
    else if c.pc >= |program| then Stuck
    else match program[c.pc]
      case Bind(_) => Running(c.pc + 1, c.state)
      case B(l) => Running(Target(program, l), c.state)
      case BCond(cond, l) =>
        if Holds(cond, c.state.flags) then Running(Target(program, l), c.state) else Running(c.pc + 1, c.state)
      case Ret => Halted(c.state)
      case i =>
        match Exec1(i, columns, c.state)
        case None => Stuck
        case Some(t) => Running(c.pc + 1, t)
  }

  lemma StepStraight(program: seq<Instr>, columns: Columns, pc: nat, s: State)
    requires pc < |program| && Straight(program[pc])
    ensures Step(program, columns, Running(pc, s)) ==
            match Exec1(program[pc], columns, s) case None => Stuck case Some(t) => Running(pc + 1, t)
  {
  }

  function Run(program: seq<Instr>, columns: Columns, c: Config, n: nat): Config {
    if n == 0 then c else Step(program, columns, Run(program, columns, c, n - 1))
  }

  ghost predicate Reaches(program: seq<Instr>, columns: Columns, c: Config, d: Config) {
    exists n: nat :: Run(program, columns, c, n) == d
  }

  lemma {:induction false} RunSum(program: seq<Instr>, columns: Columns, c: Config, m: nat, n: nat)
    ensures Run(program, columns, Run(program, columns, c, m), n) == Run(program, columns, c, m + n)
    decreases n
  {
    if n > 0 { RunSum(program, columns, c, m, n - 1); }
  }

  lemma ReachesTrans(program: seq<Instr>, columns: Columns, c: Config, d: Config, e: Config)
    requires Reaches(program, columns, c, d) && Reaches(program, columns, d, e)
    ensures Reaches(program, columns, c, e)
  {
    var m: nat :| Run(program, columns, c, m) == d;
    var n: nat :| Run(program, columns, d, n) == e;
    RunSum(program, columns, c, m, n);
  }

  lemma ReachesStep(program: seq<Instr>, columns: Columns, c: Config)
    ensures Reaches(program, columns, c, Step(program, columns, c))
  {
    assert Run(program, columns, c, 0) == c;
    assert Run(program, columns, c, 1) == Step(program, columns, c);
  }

  /** A run that has halted stays halted in the same state, so final results are unique. */
  lemma {:induction false} StoppedForever(program: seq<Instr>, columns: Columns, c: Config, m: nat, n: nat)
    requires !Run(program, columns, c, m).Running? && m <= n
    ensures Run(program, columns, c, n) == Run(program, columns, c, m)
    decreases n
  {
    if m < n { StoppedForever(program, columns, c, m, n - 1); }
  }

  lemma HaltsOnce(program: seq<Instr>, columns: Columns, c: Config, d: Config, e: Config)
    requires !d.Running? && !e.Running?
    requires Reaches(program, columns, c, d) && Reaches(program, columns, c, e)
    ensures d == e
  {
    var m: nat :| Run(program, columns, c, m) == d;
    var n: nat :| Run(program, columns, c, n) == e;
    if m <= n { StoppedForever(program, columns, c, m, n); } else { StoppedForever(program, columns, c, n, m); }
  }

  predicate AllStraight(code: seq<Instr>) {
    forall i | 0 <= i < |code| :: Straight(code[i])
  }

  /** The code sits in the program at position pc. */
  predicate At(program: seq<Instr>, pc: nat, code: seq<Instr>) {
    pc + |code| <= |program| && program[pc..pc + |code|] == code
  }

  lemma CodeAt(program: seq<Instr>, pc: nat, code: seq<Instr>, k: nat)
    requires At(program, pc, code) && k < |code|
    ensures program[pc + k] == code[k]
  {
    assert program[pc + k] == program[pc..pc + |code|][k];
  }

  lemma AtInside(program: seq<Instr>, pc: nat, code: seq<Instr>, i: nat, j: nat)
    requires At(program, pc, code) && i <= j <= |code|
    ensures At(program, pc + i, code[i..j])
  {
    forall k | 0 <= k < j - i ensures program[pc + i..pc + j][k] == code[i..j][k] {
      CodeAt(program, pc, code, i + k);
    }
  }

  /** Straight-line code in a program runs from its first position to the one after its last. */
  lemma {:induction false} StraightRuns(program: seq<Instr>, columns: Columns, pc: nat, code: seq<Instr>, s: State,
                                        t: State)
    requires At(program, pc, code) && AllStraight(code)
    requires Exec(code, columns, s) == Some(t)
    ensures Reaches(program, columns, Running(pc, s), Running(pc + |code|, t))
    decreases |code|
  {
    hide Exec1, Step, Straight;
    if code == [] {
      assert Run(program, columns, Running(pc, s), 0) == Running(pc, s);
    } else {
      var n := |code| - 1;
      var head := code[..n];
      var u := Exec(head, columns, s).value;
      AtInside(program, pc, code, 0, n);
      StraightRuns(program, columns, pc, head, s, u);
      CodeAt(program, pc, code, n);
      StepStraight(program, columns, pc + n, u);
      ReachesStep(program, columns, Running(pc + n, u));
      ReachesTrans(program, columns, Running(pc, s), Running(pc + n, u), Running(pc + |code|, t));
    }
  }

  // ----- counted loops -----

  /** start: cmp counter, bound; b.exit end; body; b start; end: */
  datatype Loop = Loop(counter: Reg, bound: Word, exit: Cond, body: seq<Instr>, start: Label, end: Label)
  {
    function Code(): seq<Instr> {
      [Bind(start), CmpImm(counter, bound), BCond(exit, end)] + body + [B(start), Bind(end)]
    }
  }

  /** At most n - 1 turns of a loop, then its exit; None on a fault or when the turns run out. */
  function Loops(lp: Loop, columns: Columns, s: State, n: nat): Option<State>
    decreases n
  {
    if n == 0 || !s.Get(lp.counter).Num? then None
    else
      var t := Guarded(lp, s);
      if Holds(lp.exit, t.flags) then Some(t)
      else
        match Exec(lp.body, columns, t)
        case None => None
        case Some(u) => Loops(lp, columns, u, n - 1)
  }

  lemma LoopsExit(lp: Loop, columns: Columns, s: State, n: nat)
    requires n > 0 && s.Get(lp.counter).Num? && Holds(lp.exit, (s.Get(lp.counter).word, lp.bound))
    ensures Loops(lp, columns, s, n) == Some(Guarded(lp, s))
  {
  }

  lemma LoopsAgain(lp: Loop, columns: Columns, s: State, v: State, n: nat)
    requires s.Get(lp.counter).Num? && !Holds(lp.exit, (s.Get(lp.counter).word, lp.bound))
    requires Exec(lp.body, columns, Guarded(lp, s)) == Some(v)
    ensures Loops(lp, columns, s, n + 1) == Loops(lp, columns, v, n)
  {
  }

  /** The loop stands at pc and the program's branches to its two labels land in it. */
  predicate Placed(program: seq<Instr>, pc: nat, lp: Loop) {
    At(program, pc, lp.Code()) && AllStraight(lp.body)
    && Target(program, lp.start) == pc && Target(program, lp.end) == pc + |lp.Code()| - 1
  }

  /** The state in which a loop's guard branches. */
  function Guarded(lp: Loop, s: State): State
    requires s.Get(lp.counter).Num?
  {
    s.(flags := (s.Get(lp.counter).word, lp.bound))
  }

  lemma LoopGuard(program: seq<Instr>, columns: Columns, pc: nat, lp: Loop, s: State)
    requires Placed(program, pc, lp) && s.Get(lp.counter).Num?
    ensures var t := Guarded(lp, s);
            Reaches(program, columns, Running(pc, s),
                    Running(if Holds(lp.exit, t.flags) then pc + |lp.Code()| - 1 else pc + 3, t))
  {
    hide Exec, Reaches, Target, AllStraight, Holds;
    var code := lp.Code();
    var t := Guarded(lp, s);
    CodeAt(program, pc, code, 0);
    CodeAt(program, pc, code, 1);
    CodeAt(program, pc, code, 2);
    ReachesStep(program, columns, Running(pc, s));
    StepStraight(program, columns, pc + 1, s);
    ReachesStep(program, columns, Running(pc + 1, s));
    ReachesStep(program, columns, Running(pc + 2, t));
    ReachesTrans(program, columns, Running(pc, s), Running(pc + 1, s), Running(pc + 2, t));
    ReachesTrans(program, columns, Running(pc, s), Running(pc + 2, t), Step(program, columns, Running(pc + 2, t)));
  }

  lemma LoopBack(program: seq<Instr>, columns: Columns, pc: nat, lp: Loop, t: State, u: State)
    requires Placed(program, pc, lp) && Exec(lp.body, columns, t) == Some(u)
    ensures Reaches(program, columns, Running(pc + 3, t), Running(pc, u))
  {
    hide Exec, Reaches, Target, AllStraight, Straight;
    var code := lp.Code();
    var back := pc + 3 + |lp.body|;
    assert code[3..3 + |lp.body|] == lp.body;
    AtInside(program, pc, code, 3, 3 + |lp.body|);
    StraightRuns(program, columns, pc + 3, lp.body, t, u);
    CodeAt(program, pc, code, 3 + |lp.body|);
    ReachesStep(program, columns, Running(back, u));
    ReachesTrans(program, columns, Running(pc + 3, t), Running(back, u), Running(pc, u));
  }

  /** A fault in straight code stops the machine. */
  lemma {:induction false} StraightFaults(program: seq<Instr>, columns: Columns, pc: nat, code: seq<Instr>, s: State)
    requires At(program, pc, code) && AllStraight(code) && Exec(code, columns, s).None?
    ensures Reaches(program, columns, Running(pc, s), Stuck)
    decreases |code|
  {
    hide Exec1, Step, Straight;
    var n := |code| - 1;
    var head := code[..n];
    AtInside(program, pc, code, 0, n);
    match Exec(head, columns, s)
    case None => StraightFaults(program, columns, pc, head, s);
    case Some(u) =>
      StraightRuns(program, columns, pc, head, s, u);
      CodeAt(program, pc, code, n);
      StepStraight(program, columns, pc + n, u);
      ReachesStep(program, columns, Running(pc + n, u));
      ReachesTrans(program, columns, Running(pc, s), Running(pc + n, u), Stuck);
  }

  lemma BodyFaults(program: seq<Instr>, columns: Columns, pc: nat, lp: Loop, s: State)
    requires Placed(program, pc, lp) && s.Get(lp.counter).Num? && !Holds(lp.exit, Guarded(lp, s).flags)
    requires Exec(lp.body, columns, Guarded(lp, s)).None?
    ensures Reaches(program, columns, Running(pc, s), Stuck)
  {
    hide Exec, Reaches, Target, AllStraight, Straight, Holds;
    var t := Guarded(lp, s);
    var code := lp.Code();
    assert code[3..3 + |lp.body|] == lp.body;
    AtInside(program, pc, code, 3, 3 + |lp.body|);
    LoopGuard(program, columns, pc, lp, s);
    StraightFaults(program, columns, pc + 3, lp.body, t);
    ReachesTrans(program, columns, Running(pc, s), Running(pc + 3, t), Stuck);
  }

  lemma LoopTurn(program: seq<Instr>, columns: Columns, pc: nat, lp: Loop, s: State)
    requires Placed(program, pc, lp) && s.Get(lp.counter).Num?
    ensures var t := Guarded(lp, s);
            if Holds(lp.exit, t.flags)
            then Reaches(program, columns, Running(pc, s), Running(pc + |lp.Code()|, t))
            else Exec(lp.body, columns, t).Some? ==>
                   Reaches(program, columns, Running(pc, s), Running(pc, Exec(lp.body, columns, t).value))
  {
    var t := Guarded(lp, s);
    LoopGuard(program, columns, pc, lp, s);
    if Holds(lp.exit, t.flags) {
      var last := pc + |lp.Code()| - 1;
      CodeAt(program, pc, lp.Code(), |lp.Code()| - 1);
      ReachesStep(program, columns, Running(last, t));
      ReachesTrans(program, columns, Running(pc, s), Running(last, t), Running(last + 1, t));
    } else if Exec(lp.body, columns, t).Some? {
      var u := Exec(lp.body, columns, t).value;
      LoopBack(program, columns, pc, lp, t, u);
      ReachesTrans(program, columns, Running(pc, s), Running(pc + 3, t), Running(pc, u));
    }
  }

  /** The branches of a placed loop do what Loops says. */
  lemma {:induction false} LoopRuns(program: seq<Instr>, columns: Columns, pc: nat, lp: Loop, s: State, n: nat)
    requires Placed(program, pc, lp) && Loops(lp, columns, s, n).Some?
    ensures Reaches(program, columns, Running(pc, s), Running(pc + |lp.Code()|, Loops(lp, columns, s, n).value))
    decreases n
  {
    LoopTurn(program, columns, pc, lp, s);
    var t := Guarded(lp, s);
    if !Holds(lp.exit, t.flags) {
      var u := Exec(lp.body, columns, t).value;
      LoopRuns(program, columns, pc, lp, u, n - 1);
      ReachesTrans(program, columns, Running(pc, s), Running(pc, u),
                   Running(pc + |lp.Code()|, Loops(lp, columns, u, n - 1).value));
    }
  }

  /** A label bound once, after code that does not bind it, is found there. */
  lemma {:induction false} TargetAfter(pre: seq<Instr>, l: Label, post: seq<Instr>)
    requires forall i | 0 <= i < |pre| :: pre[i] != Bind(l)
    ensures Target(pre + [Bind(l)] + post, l) == |pre|
    decreases |pre|
  {
    var program := pre + [Bind(l)] + post;
    if pre != [] {
      assert program[0] == pre[0];
      assert program[1..] == pre[1..] + [Bind(l)] + post;
      TargetAfter(pre[1..], l, post);
    }
  }

  /** A loop whose labels do not occur before it is placed right after the code before it. */
  lemma LoopPlaced(pre: seq<Instr>, lp: Loop, post: seq<Instr>)
    requires forall i | 0 <= i < |pre| :: pre[i] != Bind(lp.start) && pre[i] != Bind(lp.end)
    requires AllStraight(lp.body) && lp.start != lp.end
    ensures Placed(pre + lp.Code() + post, |pre|, lp)
  {
    var code := lp.Code();
    var program := pre + code + post;
    assert program[|pre|..|pre| + |code|] == code;
    var rest := code[1..] + post;
    assert program == pre + [Bind(lp.start)] + rest;
    TargetAfter(pre, lp.start, rest);
    var before := pre + code[..|code| - 1];
    forall i | 0 <= i < |before| ensures before[i] != Bind(lp.end) {
      if i >= |pre| + 3 && i < |pre| + 3 + |lp.body| { assert Straight(lp.body[i - |pre| - 3]); }
    }
    assert program == before + [Bind(lp.end)] + post;
    TargetAfter(before, lp.end, post);
  }

  // ----- whole programs -----

  lemma SegmentRuns(program: seq<Instr>, pre: seq<Instr>, code: seq<Instr>, post: seq<Instr>, columns: Columns,
                    s: State, t: State)
    requires program == pre + code + post && AllStraight(code) && Exec(code, columns, s) == Some(t)
    ensures Reaches(program, columns, Running(|pre|, s), Running(|pre + code|, t))
  {
    assert program[|pre|..|pre| + |code|] == code;
    StraightRuns(program, columns, |pre|, code, s, t);
  }

  ghost predicate Unbound(code: seq<Instr>, lp: Loop) {
    forall i | 0 <= i < |code| :: code[i] != Bind(lp.start) && code[i] != Bind(lp.end)
  }

  lemma LoopSegmentRuns(program: seq<Instr>, pre: seq<Instr>, lp: Loop, post: seq<Instr>, columns: Columns, s: State,
                        n: nat, t: State)
    requires program == pre + lp.Code() + post
    requires Unbound(pre, lp) && AllStraight(lp.body) && lp.start != lp.end && Loops(lp, columns, s, n) == Some(t)
    ensures Reaches(program, columns, Running(|pre|, s), Running(|pre + lp.Code()|, t))
  {
    LoopPlaced(pre, lp, post);
    LoopRuns(program, columns, |pre|, lp, s, n);
  }

  lemma ReturnHalts(program: seq<Instr>, pre: seq<Instr>, columns: Columns, s: State)
    requires program == pre + [Ret]
    ensures Reaches(program, columns, Running(|pre|, s), Halted(s))
  {
    ReachesStep(program, columns, Running(|pre|, s));
  }

  lemma NothingBefore(a: seq<Instr>)
    ensures [] + a == a
  {
  }

  lemma Assoc(a: seq<Instr>, b: seq<Instr>, c: seq<Instr>)
    ensures (a + b) + c == a + (b + c)
  {
  }

  /** Straight-line code and a return. */
  lemma StraightProgram(code: seq<Instr>, columns: Columns, s: State, t: State)
    requires AllStraight(code) && Exec(code, columns, s) == Some(t)
    ensures Reaches(code + [Ret], columns, Running(0, s), Halted(t))
  {
    assert [] + code + [Ret] == code + [Ret] && [] + code == code;
    SegmentRuns(code + [Ret], [], code, [Ret], columns, s, t);
    ReturnHalts(code + [Ret], code, columns, t);
    ReachesTrans(code + [Ret], columns, Running(0, s), Running(|code|, t), Halted(t));
  }

  /** Code and a loop from the start of a program. */
  lemma CodeThenLoop(program: seq<Instr>, a: seq<Instr>, lp: Loop, post: seq<Instr>, columns: Columns, s: State,
                     s1: State, n: nat, s2: State)
    requires program == a + lp.Code() + post
    requires AllStraight(a) && AllStraight(lp.body) && lp.start != lp.end
    requires Exec(a, columns, s) == Some(s1) && Loops(lp, columns, s1, n) == Some(s2)
    ensures Reaches(program, columns, Running(0, s), Running(|a + lp.Code()|, s2))
  {
    StraightUnbound(a, lp);
    var code := lp.Code();
    hide AllStraight, Exec, Loops, Reaches, Loop.Code, Unbound;
    Assoc(a, code, post);
    NothingBefore(a);
    SegmentRuns(program, [], a, code + post, columns, s, s1);
    LoopSegmentRuns(program, a, lp, post, columns, s1, n, s2);
    ReachesTrans(program, columns, Running(0, s), Running(|a|, s1), Running(|a + code|, s2));
  }

  /** Code, then a loop whose first turn faults. */
  lemma CodeThenFault(program: seq<Instr>, a: seq<Instr>, lp: Loop, post: seq<Instr>, columns: Columns,
                      s: State, s1: State)
    requires program == a + lp.Code() + post
    requires AllStraight(a) && AllStraight(lp.body) && lp.start != lp.end
    requires Exec(a, columns, s) == Some(s1) && s1.Get(lp.counter).Num?
    requires !Holds(lp.exit, Guarded(lp, s1).flags) && Exec(lp.body, columns, Guarded(lp, s1)).None?
    ensures Reaches(program, columns, Running(0, s), Stuck)
  {
    StraightUnbound(a, lp);
    LoopPlaced(a, lp, post);
    var code := lp.Code();
    hide AllStraight, Exec, Reaches, Loop.Code, Unbound, Placed, Holds, Guarded;
    Assoc(a, code, post);
    NothingBefore(a);
    SegmentRuns(program, [], a, code + post, columns, s, s1);
    BodyFaults(program, columns, |a|, lp, s1);
    ReachesTrans(program, columns, Running(0, s), Running(|a|, s1), Stuck);
  }

  /** Code up to the final return. */
  lemma CodeThenReturn(program: seq<Instr>, pre: seq<Instr>, z: seq<Instr>, columns: Columns, s: State, t: State)
    requires program == pre + z + [Ret] && AllStraight(z) && Exec(z, columns, s) == Some(t)
    ensures Reaches(program, columns, Running(|pre|, s), Halted(t))
  {
    hide AllStraight, Exec, Reaches;
    SegmentRuns(program, pre, z, [Ret], columns, s, t);
    ReturnHalts(program, pre + z, columns, t);
    ReachesTrans(program, columns, Running(|pre|, s), Running(|pre + z|, t), Halted(t));
  }

  /** Code, a loop, code and a return. */
  lemma OneLoopProgram(a: seq<Instr>, lp: Loop, z: seq<Instr>, columns: Columns, s: State, s1: State, n: nat, s2: State,
                       t: State)
    requires AllStraight(a) && AllStraight(z) && AllStraight(lp.body) && lp.start != lp.end
    requires Exec(a, columns, s) == Some(s1) && Loops(lp, columns, s1, n) == Some(s2) && Exec(z, columns, s2) == Some(t)
    ensures Reaches(a + lp.Code() + z + [Ret], columns, Running(0, s), Halted(t))
  {
    hide AllStraight, Exec, Loops, Reaches, Loop.Code;
    var program := a + lp.Code() + z + [Ret];
    Assoc(a + lp.Code(), z, [Ret]);
    CodeThenLoop(program, a, lp, z + [Ret], columns, s, s1, n, s2);
    CodeThenReturn(program, a + lp.Code(), z, columns, s2, t);
    ReachesTrans(program, columns, Running(0, s), Running(|a + lp.Code()|, s2), Halted(t));
  }

  /** Code, a loop, code, a second loop with other labels, code and a return. */
  lemma TwoLoopProgram(a: seq<Instr>, lp: Loop, m: seq<Instr>, lq: Loop, z: seq<Instr>, columns: Columns,
                       s: State, s1: State, n: nat, s2: State, s3: State, q: nat, s4: State, t: State)
    requires AllStraight(a) && AllStraight(m) && AllStraight(z) && AllStraight(lp.body) && AllStraight(lq.body)
    requires lp.start != lp.end && lq.start != lq.end && {lp.start, lp.end} !! {lq.start, lq.end}
    requires Exec(a, columns, s) == Some(s1) && Loops(lp, columns, s1, n) == Some(s2)
    requires Exec(m, columns, s2) == Some(s3)
    requires Loops(lq, columns, s3, q) == Some(s4) && Exec(z, columns, s4) == Some(t)
    ensures Reaches(a + lp.Code() + m + lq.Code() + z + [Ret], columns, Running(0, s), Halted(t))
  {
    OtherLoopUnbound(a, lp, m, lq);
    hide AllStraight, Exec, Loops, Reaches, Loop.Code, Unbound;
    var c, d := lp.Code(), lq.Code();
    var program := a + c + m + d + z + [Ret];
    var r := [Ret];
    Assoc(a + c + m + d, z, r);
    Assoc(a + c + m, d, z + r);
    Assoc(a + c, m, d + (z + r));
    CodeThenLoop(program, a, lp, m + (d + (z + r)), columns, s, s1, n, s2);
    SegmentRuns(program, a + c, m, d + (z + r), columns, s2, s3);
    LoopSegmentRuns(program, a + c + m, lq, z + r, columns, s3, q, s4);
    CodeThenReturn(program, a + c + m + d, z, columns, s4, t);
    ReachesTrans(program, columns, Running(0, s), Running(|a + c|, s2), Running(|a + c + m|, s3));
    ReachesTrans(program, columns, Running(0, s), Running(|a + c + m|, s3), Running(|a + c + m + d|, s4));
    ReachesTrans(program, columns, Running(0, s), Running(|a + c + m + d|, s4), Halted(t));
  }

  lemma StraightUnbound(code: seq<Instr>, lp: Loop)
    requires AllStraight(code)
    ensures Unbound(code, lp)
  {
    forall i | 0 <= i < |code| ensures code[i] != Bind(lp.start) && code[i] != Bind(lp.end) {
      assert Straight(code[i]);
    }
  }

  lemma OtherLoopUnbound(a: seq<Instr>, lp: Loop, m: seq<Instr>, lq: Loop)
    requires AllStraight(a) && AllStraight(m) && AllStraight(lp.body)
    requires {lp.start, lp.end} !! {lq.start, lq.end}
    ensures Unbound(a + lp.Code() + m, lq)
  {
    StraightUnbound(a, lq);
    StraightUnbound(lp.body, lq);
    StraightUnbound(m, lq);
    assert lp.start in {lp.start, lp.end} && lp.end in {lp.start, lp.end};
    assert lq.start in {lq.start, lq.end} && lq.end in {lq.start, lq.end};
  }

  // ----- moving a 64-bit constant in four pieces -----

  lemma SetAgain(s: State, d: Reg, v: Val, w: Val)
    ensures s.Set(d, v).Set(d, w) == s.Set(d, w)
  {
    if d != XZR { assert s.regs[d := v][d := w] == s.regs[d := w]; }
  }

  /** Sixteen bits of an immediate, from the given position on. */
  function Half(imm: Word, shift: nat): Word {
    And(Shr(imm, shift), 0xFFFF)
  }

  /** The movz/movk sequence for a full 64-bit immediate. */
  function MovImm64(d: Reg, imm: Word): seq<Instr> {
    [Movz(d, Half(imm, 0), 0), Movk(d, Half(imm, 16), 16), Movk(d, Half(imm, 32), 32), Movk(d, Half(imm, 48), 48)]
  }

  lemma HalfBit(imm: Word, shift: nat, i: nat)
    requires i < 64
    ensures Bit(Half(imm, shift), i) == (i < 16 && Bit(imm, shift + i))
  {
    Pow2Plus8(0);
    Pow2Plus8(8);
    LowOnes(16, i);
    ShrBit(imm, shift, i);
  }

  lemma QuartersAssemble(imm: Word)
    ensures Insert16(Insert16(Insert16(Shl(Half(imm, 0), 0), Half(imm, 16), 16), Half(imm, 32), 32), Half(imm, 48), 48)
        == imm
  {
    var a := Shl(Half(imm, 0), 0);
    var b := Insert16(a, Half(imm, 16), 16);
    var c := Insert16(b, Half(imm, 32), 32);
    var d := Insert16(c, Half(imm, 48), 48);
    forall i | 0 <= i < 64 ensures Bit(d, i) == Bit(imm, i) {
      if i >= 48 { HalfBit(imm, 48, i - 48); }
      else if i >= 32 { HalfBit(imm, 32, i - 32); }
      else if i >= 16 { HalfBit(imm, 16, i - 16); }
      else { HalfBit(imm, 0, i); }
    }
    WordsEqual(d, imm);
  }

  lemma MovImm64Loads(d: Reg, imm: Word, columns: Columns, s: State)
    requires d != XZR
    ensures Exec(MovImm64(d, imm), columns, s) == Some(s.Set(d, Num(imm)))
  {
    var code := MovImm64(d, imm);
    var a := Shl(Half(imm, 0), 0);
    var b := Insert16(a, Half(imm, 16), 16);
    var c := Insert16(b, Half(imm, 32), 32);
    assert Exec1(code[0], columns, s) == Some(s.Set(d, Num(a)));
    SetAgain(s, d, Num(a), Num(b));
    SetAgain(s, d, Num(b), Num(c));
    SetAgain(s, d, Num(c), Num(imm));
    assert Exec1(code[1], columns, s.Set(d, Num(a))) == Some(s.Set(d, Num(b)));
    assert Exec1(code[2], columns, s.Set(d, Num(b))) == Some(s.Set(d, Num(c)));
    assert Exec1(code[3], columns, s.Set(d, Num(c))) == Some(s.Set(d, Num(imm))) by { QuartersAssemble(imm); }
    Exec4(code[0], code[1], code[2], code[3], columns, s);
  }
}
