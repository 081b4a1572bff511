/** Decoded instructions. Operands are in the order the executor reads them. */
module Instructions {
  import opened Words

  datatype Instr =
    | Invalid
    | Li(rt: Reg, imm: Word)
    | Add(rd: Reg, rs: Reg, rt: Reg)
    | Addi(rt: Reg, rs: Reg, imm: Word)
    | OrReg(rd: Reg, rs: Reg, rt: Reg)
    | LdReg(rt: Reg, base: Reg, rm: Reg)
    | St(rt: Reg, base: Reg, imm: Word)
    | Stp(rt: Reg, rt2: Reg, base: Reg, imm: Word)
    | Beq(rs: Reg, rt: Reg, offset: Word)
    | J(index: Word)
    | Clz(rd: Reg, rs: Reg)
    | Ssat(rd: Reg, rs: Reg, width: Word)
    | Rori(rd: Reg, rs: Reg, shift: Shift)
    | Bext(rd: Reg, rs: Reg, rt: Reg)
    | Syscall(code: Word)
    | LdImm(rt: Reg, base: Reg, imm: Word)
    | Flush

  /** A rotation amount is a five-bit field. */
  type Shift = x: int | 0 <= x < 32

  predicate EndsBlock(i: Instr) {
    i.Beq? || i.J? || i.Syscall? || i.Invalid? || i.Flush?
  }
}
