/** The reference semantics of every instruction. */
module Executor {
  import opened Words
  import opened BitOperations
  import opened Instructions
  import opened GuestMemory
  import opened MachineState
  import opened CacheSpec

  /** An instruction completes or raises a simulation error; both leave a state. */
  datatype Step = Ok(m: Machine) | Raise(m: Machine, code: ErrorCode)

  const EBADF: Word := 9
  const ENODATA: Word := 61
  const EINVAL: Word := 22
  const NO_REPLY := Reply(false, 0, [])

  function Advance(m: Machine): Machine {
    m.(pc := Add32(m.pc, 4))
  }

  function SetReg(m: Machine, r: Reg, value: Word): Machine {
    m.(regs := m.regs[r := value])
  }

  function Fault(m: Machine): Machine {
    m.(status := FAULTED)
  }

  // ---- memory instructions ----

  function Load(m: Machine, rt: Reg, address: Word): Step {
    match Read32(m.mem, address)
    case Failed(code) => Raise(m, code)
    case Done(value) => Ok(SetReg(m, rt, value))
  }

  function Store(m: Machine, address: Word, value: Word): Step {
    match Write32(m.mem, address, value)
    case Failed(code) => Raise(m, code)
    case Done(mem) => Ok(m.(mem := mem))
  }

  function StorePair(m: Machine, address: Word, first: Word, second: Word): Step {
    match Store(m, address, first)
    case Raise(m1, code) => Raise(m1, code)
    case Ok(m1) => Store(m1, Add32(address, 4), second)
  }

  function FlushCaches(m: Machine): Machine {
    m.(cache := InvalidateAll(m.cache, m.mem.dirty), mem := m.mem.(dirty := []))
  }

  // ---- system calls ----

  function NextReply(host: Host): Reply {
    if host.replies == [] then NO_REPLY else host.replies[0]
  }

  function PopReply(host: Host): Host {
    host.(replies := if host.replies == [] then [] else host.replies[1..])
  }

  function Negated(errno: Word): Word {
    Wrap(0 - errno)
  }

  /** What a host read puts into a buffer of `count` bytes. */
  function Delivered(reply: Reply, count: nat): seq<Byte> {
    if |reply.data| <= count then reply.data else reply.data[..count]
  }

  function PutBytes(bytes: Image, address: nat, data: seq<Byte>): Image
    requires address + |data| <= |bytes|
  {
    bytes[..address] + data + bytes[address + |data|..]
  }

  function ReadCall(m: Machine): Step {
    var (address, count) := (m.regs[1], m.regs[2]);
    if m.regs[0] != 0 then Ok(SetReg(m, 0, Negated(EBADF)))
    else if BoundsFail(|m.mem.bytes|, address, count) then Raise(m, MEMORY_OUT_OF_BOUNDS)
    else
      var reply := NextReply(m.host);
      var popped := m.(host := PopReply(m.host));
      if !reply.ok then Ok(SetReg(popped, 0, Negated(reply.value)))
      else
        var data := Delivered(reply, count);
        Ok(SetReg(popped.(mem := m.mem.(bytes := PutBytes(m.mem.bytes, address, data))), 0, |data|))
  }

  function WriteCall(m: Machine): Step {
    var (fd, address, count) := (m.regs[0], m.regs[1], m.regs[2]);
    if fd != 1 && fd != 2 then Ok(SetReg(m, 0, Negated(EBADF)))
    else if BoundsFail(|m.mem.bytes|, address, count) then Raise(m, MEMORY_OUT_OF_BOUNDS)
    else
      var reply := NextReply(m.host);
      var sent := m.mem.bytes[address..address + count];
      var host := PopReply(m.host).(output := m.host.output + [(fd, sent)]);
      Ok(SetReg(m.(host := host), 0, if reply.ok then reply.value else Negated(reply.value)))
  }

  /** A failed reply of value 0 stands for end of input. */
  function ReadNumberCall(m: Machine): Step {
    var reply := NextReply(m.host);
    var errno := if reply.value == 0 then ENODATA else EINVAL;
    Ok(SetReg(m.(host := PopReply(m.host)), 0, if reply.ok then reply.value else Negated(errno)))
  }

  function ExitCall(m: Machine): Step {
    Ok(m.(status := HALTED, exitCode := m.regs[0]))
  }

  function SystemCall(m: Machine): Step {
    if m.regs[8] == 0 then ReadCall(m)
    else if m.regs[8] == 1 then WriteCall(m)
    else if m.regs[8] == 60 then ExitCall(m)
    else if m.regs[8] == 337 then ReadNumberCall(m)
    else Raise(m, UNSUPPORTED_SYSCALL)
  }

  function ExecSyscall(m: Machine): Step {
    match SystemCall(m)
    case Raise(m1, code) => Raise(m1, code)
    case Ok(m1) => Ok(if m1.status == RUNNING then Advance(m1) else m1)
  }

  // ---- control flow ----

  function BranchTarget(pc: Word, offset: Word): Word {
    Wrap(pc + Wrap(offset * 4))
  }

  function JumpTarget(pc: Word, index: Word): Word {
    Or32(And(pc, 0xF000_0000), Wrap(index * 4))
  }

  // ---- instructions ----

  /** The effect of an instruction that does not end a block, without the PC. */
  function Effect(m: Machine, i: Instr): Step
    requires !EndsBlock(i)
  {
    match i
    case Li(rt, imm) => Ok(SetReg(m, rt, imm))
    case Add(rd, rs, rt) => Ok(SetReg(m, rd, Add32(m.regs[rs], m.regs[rt])))
    case Addi(rt, rs, imm) => Ok(SetReg(m, rt, Add32(m.regs[rs], imm)))
    case OrReg(rd, rs, rt) => Ok(SetReg(m, rd, Or32(m.regs[rs], m.regs[rt])))
    case LdReg(rt, base, rm) => Load(m, rt, Add32(m.regs[base], m.regs[rm]))
    case LdImm(rt, base, imm) => Load(m, rt, Add32(m.regs[base], imm))
    case St(rt, base, imm) => Store(m, Add32(m.regs[base], imm), m.regs[rt])
    case Stp(rt, rt2, base, imm) => StorePair(m, Add32(m.regs[base], imm), m.regs[rt], m.regs[rt2])
    case Clz(rd, rs) => Ok(SetReg(m, rd, Clz32(m.regs[rs])))
    case Ssat(rd, rs, width) =>
      if ValidWidth(width) then Ok(SetReg(m, rd, SaturateSigned(m.regs[rs], width)))
      else Raise(m, INVALID_INSTRUCTION)
    case Rori(rd, rs, shift) => Ok(SetReg(m, rd, RotateRight(m.regs[rs], shift)))
    case Bext(rd, rs, rt) => Ok(SetReg(m, rd, Compress32(m.regs[rs], m.regs[rt])))
  }

  function ThenAdvance(s: Step): Step {
    match s
    case Ok(m) => Ok(Advance(m))
    case Raise(m, code) => Raise(m, code)
  }

  function Exec(m: Machine, i: Instr): Step {
    match i
    case Flush => Ok(Advance(FlushCaches(m)))
    case Beq(rs, rt, offset) =>
      if m.regs[rs] == m.regs[rt] then Ok(m.(pc := BranchTarget(m.pc, offset))) else Ok(Advance(m))
    case J(index) => Ok(m.(pc := JumpTarget(m.pc, index)))
    case Syscall(_) => ExecSyscall(m)
    case Invalid => Raise(m, INVALID_INSTRUCTION)
    case _ => ThenAdvance(Effect(m, i))
  }
}
