// One comparator step on 64 rows at once.
module CircuitLibrary {
  import opened Machine

  /** gt |= eq & a & ~b, then eq &= ~(a ^ b); x6 and x7 are scratch. */
  function EmitGt64(a: Reg, b: Reg, gt: Reg, eq: Reg): seq<Instr> {
    [Alu(OpBic, 6, a, b), Alu(OpAnd, 7, eq, 6), Alu(OpOrr, gt, gt, 7)] + [Alu(OpEor, 6, a, b), Alu(OpBic, eq, eq, 6)]
  }
}
