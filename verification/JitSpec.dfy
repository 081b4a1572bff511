/** The IR that the JIT emits for a basic block. */
module JitSpec {
  import opened Words
  import opened BitOperations
  import opened Instructions
  import opened Ir
  import opened Executor

  // In every encoder `k` is the position of the first node it appends.

  const EXIT_LENGTH := 8

  /** Leave with a null entry unless the context is still running. */
  function EncodeExitIfStopped(k: Ref): (ns: seq<Node>)
    ensures |ns| == EXIT_LENGTH
  {
    [LoadStatus, ConstU8(0), Ne(k, k + 1), If(k + 2), IfTrue(k + 3), ConstNull, Return(k + 5), IfFalse(k + 3)]
  }

  function EncodeCall(k: Ref, h: Handler, i: Instr): seq<Node> {
    [CallHandler(h, i)] + EncodeExitIfStopped(k + 1)
  }

  function EncodePc(k: Ref, value: Word): seq<Node> {
    [ConstU32(value), StorePc(k)]
  }

  function EncodeLi(k: Ref, rt: Reg, imm: Word): seq<Node> {
    [ConstU32(imm), StoreReg(rt, k)]
  }

  function EncodeAdd(k: Ref, rd: Reg, rs: Reg, rt: Reg): seq<Node> {
    [LoadReg(rs), LoadReg(rt), AddU32(k, k + 1), StoreReg(rd, k + 2)]
  }

  function EncodeAddi(k: Ref, rt: Reg, rs: Reg, imm: Word): seq<Node> {
    [LoadReg(rs), ConstU32(imm), AddU32(k, k + 1), StoreReg(rt, k + 2)]
  }

  function EncodeOr(k: Ref, rd: Reg, rs: Reg, rt: Reg): seq<Node> {
    [LoadReg(rs), LoadReg(rt), OrU32(k, k + 1), StoreReg(rd, k + 2)]
  }

  /** CTLZ is undefined at zero: set the lowest bit there and count one more. */
  function EncodeClz(k: Ref, rd: Reg, rs: Reg): seq<Node> {
    [LoadReg(rs), ConstU32(0), Eq(k, k + 1), ZextU32(k + 2), OrU32(k, k + 3),
     CtlzU32(k + 4), AddU32(k + 5, k + 3), StoreReg(rd, k + 6)]
  }

  function EncodeSsat(k: Ref, i: Instr): seq<Node>
    requires i.Ssat?
  {
    if !ValidWidth(i.width) then EncodeCall(k, HandleSsat, i)
    else
      var maximum := Pow2(i.width - 1) - 1;
      [LoadReg(i.rs), BitcastI32(k), ConstI32(-maximum - 1), MaxI32(k + 1, k + 2),
       ConstI32(maximum), MinI32(k + 3, k + 4), BitcastU32(k + 5), StoreReg(i.rd, k + 6)]
  }

  function EncodeRori(k: Ref, rd: Reg, rs: Reg, shift: Word): seq<Node> {
    [LoadReg(rs), ConstU32(shift), RorU32(k, k + 1), StoreReg(rd, k + 2)]
  }

  function EncodeBext(k: Ref, rd: Reg, rs: Reg, rt: Reg): seq<Node> {
    [LoadReg(rs), LoadReg(rt), CallCompress(k, k + 1), StoreReg(rd, k + 2)]
  }

  function EncodeLdImm(k: Ref, rt: Reg, base: Reg, imm: Word): seq<Node> {
    [LoadReg(base), ConstU32(imm), AddU32(k, k + 1), CallRead(k + 2)]
    + EncodeExitIfStopped(k + 4) + [StoreReg(rt, k + 3)]
  }

  function EncodeLdReg(k: Ref, rt: Reg, base: Reg, rm: Reg): seq<Node> {
    [LoadReg(base), LoadReg(rm), AddU32(k, k + 1), CallRead(k + 2)]
    + EncodeExitIfStopped(k + 4) + [StoreReg(rt, k + 3)]
  }

  function EncodeSt(k: Ref, rt: Reg, base: Reg, imm: Word): seq<Node> {
    [LoadReg(base), ConstU32(imm), AddU32(k, k + 1), LoadReg(rt), CallWrite(k + 2, k + 3)]
    + EncodeExitIfStopped(k + 5)
  }

  function EncodeStp(k: Ref, rt: Reg, rt2: Reg, base: Reg, imm: Word): seq<Node> {
    [LoadReg(base), ConstU32(imm), AddU32(k, k + 1), ConstU32(4), AddU32(k + 2, k + 3),
     LoadReg(rt), LoadReg(rt2), CallWrite(k + 2, k + 5)]
    + EncodeExitIfStopped(k + 8) + [CallWrite(k + 4, k + 6)] + EncodeExitIfStopped(k + 17)
  }

  function EncodeFlush(k: Ref, i: Instr, address: Word): seq<Node> {
    EncodeCall(k, HandleFlush, i) + EncodePc(k + 9, Add32(address, 4))
  }

  function EncodeCallAtPc(k: Ref, h: Handler, i: Instr, address: Word): seq<Node> {
    EncodePc(k, address) + EncodeCall(k + 2, h, i)
  }

  function EncodeInstruction(k: Ref, i: Instr, address: Word): seq<Node> {
    match i
    case Li(rt, imm) => EncodeLi(k, rt, imm)
    case Add(rd, rs, rt) => EncodeAdd(k, rd, rs, rt)
    case Addi(rt, rs, imm) => EncodeAddi(k, rt, rs, imm)
    case OrReg(rd, rs, rt) => EncodeOr(k, rd, rs, rt)
    case LdReg(rt, base, rm) => EncodeLdReg(k, rt, base, rm)
    case St(rt, base, imm) => EncodeSt(k, rt, base, imm)
    case Stp(rt, rt2, base, imm) => EncodeStp(k, rt, rt2, base, imm)
    case Flush => EncodeFlush(k, i, address)
    case J(index) => EncodePc(k, JumpTarget(address, index))
    case Clz(rd, rs) => EncodeClz(k, rd, rs)
    case Ssat(_, _, _) => EncodeSsat(k, i)
    case Rori(rd, rs, shift) => EncodeRori(k, rd, rs, shift)
    case Bext(rd, rs, rt) => EncodeBext(k, rd, rs, rt)
    case Syscall(_) => EncodeCallAtPc(k, HandleSyscall, i, address)
    case LdImm(rt, base, imm) => EncodeLdImm(k, rt, base, imm)
    case _ => EncodeCallAtPc(k, HandleInvalid, i, address)
  }

  function AddressOf(start: Word, k: nat): Word {
    Wrap(start + 4 * k)
  }

  /** A BEQ in last place emits nothing here; it is part of the next-entry code. */
  predicate IsTerminalBeq(instrs: seq<Instr>, k: nat)
    requires k < |instrs|
  {
    k + 1 == |instrs| && instrs[k].Beq?
  }

  /** The code of the instructions from number `j` on. */
  function EncodeBody(k: Ref, start: Word, instrs: seq<Instr>, j: nat): seq<Node>
    requires j <= |instrs|
    decreases |instrs| - j
  {
    if j == |instrs| then []
    else
      var ns := if IsTerminalBeq(instrs, j) then [] else EncodeInstruction(k, instrs[j], AddressOf(start, j));
      ns + EncodeBody(k + |ns|, start, instrs, j + 1)
  }

  predicate UpdatesPc(i: Instr) {
    i.Beq? || i.J? || i.Syscall? || i.Invalid? || i.Flush?
  }

  /** Code that stores the instruction's own address before it calls the helper. */
  predicate StoresOwnPc(i: Instr) {
    i.Syscall? || i.Invalid?
  }

  function EncodeBranch(k: Ref, rs: Reg, rt: Reg, taken: Word, fallthrough: Word): seq<Node> {
    [LoadReg(rs), LoadReg(rt), Eq(k, k + 1), If(k + 2),
     IfTrue(k + 3), LoadSlot(taken), ConstU32(taken), StorePc(k + 6), End,
     IfFalse(k + 3), LoadSlot(fallthrough), ConstU32(fallthrough), StorePc(k + 11), End,
     Merge2(k + 8, k + 13), Phi2(k + 5, k + 10)]
  }

  /** The code that yields the entry of the next block; its value is its last node. */
  function EncodeNextEntry(k: Ref, start: Word, instrs: seq<Instr>): (ns: seq<Node>)
    ensures |ns| > 0
  {
    var end := AddressOf(start, |instrs|);
    if instrs == [] then [LoadSlot(end)]
    else
      var last := instrs[|instrs| - 1];
      var address := Wrap(end - 4);
      match last
      case Beq(rs, rt, offset) => EncodeBranch(k, rs, rt, BranchTarget(address, offset), Add32(address, 4))
      case J(index) => [LoadSlot(JumpTarget(address, index))]
      case Invalid => [ConstNull]
      case Syscall(_) => [LoadSlot(Add32(address, 4))]
      case Flush => [ConstNull]
      case _ => [LoadSlot(end)]
  }

  function EncodeEndPc(k: Ref, start: Word, instrs: seq<Instr>): seq<Node> {
    if instrs == [] || !UpdatesPc(instrs[|instrs| - 1]) then EncodePc(k, AddressOf(start, |instrs|)) else []
  }

  /** Everything after the instructions: the final PC, the next entry, the return. */
  function EncodeTail(k: Ref, start: Word, instrs: seq<Instr>): seq<Node> {
    var pc := EncodeEndPc(k, start, instrs);
    var next := EncodeNextEntry(k + |pc|, start, instrs);
    pc + next + [Return(k + |pc| + |next| - 1)]
  }

  function Compile(start: Word, instrs: seq<Instr>): seq<Node> {
    var body := EncodeBody(2, start, instrs, 0);
    [Start, Param] + body + EncodeTail(2 + |body|, start, instrs)
  }

  /** The addresses whose slots the emitted code embeds. */
  function SlotsOf(start: Word, instrs: seq<Instr>): set<Word> {
    var end := AddressOf(start, |instrs|);
    if instrs == [] then {end}
    else
      var last := instrs[|instrs| - 1];
      var address := Wrap(end - 4);
      match last
      case Beq(_, _, offset) => {BranchTarget(address, offset), Add32(address, 4)}
      case J(index) => {JumpTarget(address, index)}
      case Invalid => {}
      case Syscall(_) => {Add32(address, 4)}
      case Flush => {}
      case _ => {end}
  }
}
