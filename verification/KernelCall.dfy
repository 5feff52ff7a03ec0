// Calling an emitted kernel: the machine runs until it returns.
module KernelCall {
  import opened Words
  import opened Options
  import opened Machine

  /** The state in which an expression kernel starts on a scratchpad. */
  function EntryState(scratch: seq<Word>): (s: State)
    ensures s.regs[0] == Ptr(FieldTable, 0) && s.regs[1] == Ptr(Scratch, 0) && s.stack == []
    ensures |s.scratch| == |scratch| && forall i | 0 <= i < |scratch| :: s.scratch[i] == Some(scratch[i])
  {
    var regs := seq(32, i requires 0 <= i < 32 =>
      if i == 0 then Ptr(FieldTable, 0) else if i == 1 then Ptr(Scratch, 0) else Num(0));
    State(regs, seq(|scratch|, i requires 0 <= i < |scratch| => Some(scratch[i])), [], (0, 0))
  }

  /** The state in which a comparison kernel starts. */
  function PlanesState(): State {
    State(seq(32, i requires 0 <= i < 32 => if i == 0 then Ptr(Column(0), 0) else Num(0)), [], [], (0, 0))
  }

  /** Steps the machine until it halts, and returns the state it halts in. */
  method RunToReturn(program: seq<Instr>, columns: Columns, s: State, ghost t: State) returns (final: State)
    requires Reaches(program, columns, Running(0, s), Halted(t))
    ensures final == t
  {
    hide Step;
    ghost var n: nat :| Run(program, columns, Running(0, s), n) == Halted(t);
    var c := Running(0, s);
    ghost var k := 0;
    while c.Running?
      invariant c == Run(program, columns, Running(0, s), k) && k <= n
      invariant !c.Running? ==> c == Halted(t)
      decreases n - k
    {
      c := Step(program, columns, c);
      k := k + 1;
      if !c.Running? { StoppedForever(program, columns, Running(0, s), k, n); }
    }
    final := c.final;
  }

  /** A word of the scratchpad after a call: what the kernel left there. */
  function Left(was: Word, now: Option<Word>): Word {
    if now.Some? then now.value else was
  }

  /** Calls an expression kernel; the scratchpad is left as the kernel leaves it. */
  method Call(program: seq<Instr>, columns: Columns, scratch: array<Word>, ghost t: State) returns (mask: Word)
    requires scratch.Length == 512 && |t.scratch| == 512 && t.regs[0].Num?
    requires Reaches(program, columns, Running(0, EntryState(scratch[..])), Halted(t))
    modifies scratch
    ensures mask == t.regs[0].word
    ensures forall i | 0 <= i < 512 :: scratch[i] == if t.scratch[i].Some? then t.scratch[i].value else old(scratch[i])
  {
    var final := RunToReturn(program, columns, EntryState(scratch[..]), t);
    forall i | 0 <= i < 512 { scratch[i] := Left(scratch[i], final.scratch[i]); }
    mask := final.regs[0].word;
  }
}
