/** What every system call leaves: bytes, counts, error numbers and the host. */
module SyscallLaws {
  import opened Words
  import opened Instructions
  import opened GuestMemory
  import opened MachineState
  import opened Executor
  import opened InstructionLaws

  /** The answer of the host: the first one waiting, or a failure of value 0. */
  function Answer(m: Machine): Reply {
    if |m.host.replies| > 0 then m.host.replies[0] else Reply(false, 0, [])
  }

  /** `after` is `m` with x0, the PC, the image and the host replaced, and one answer used up. */
  predicate Replies(m: Machine, after: Machine, x0: int, bytes: Image, output: seq<(Word, seq<Byte>)>) {
    && after.regs[0] == x0 && (forall q: int :: 0 < q < 32 ==> after.regs[q] == m.regs[q])
    && after.pc == NextPc(m) && after.status == m.status && after.exitCode == m.exitCode
    && after.mem == m.mem.(bytes := bytes) && after.cache == m.cache
    && after.host.output == output
    && after.host.replies == if |m.host.replies| > 0 then m.host.replies[1..] else []
  }

  /** The two's complement of an error number. */
  function MinusErrno(errno: Word): int {
    if errno == 0 then 0 else 0x1_0000_0000 - errno
  }

  predicate InMemory(m: Machine, address: Word, count: Word) {
    (address as int + count) <= |m.mem.bytes|
  }

  /** A descriptor that the call does not serve: minus EBADF, and nothing reaches the host. */
  predicate RejectsDescriptor(m: Machine, s: Step) {
    Sets(s, m, 0, 0x1_0000_0000 - 9)
  }

  /**
    Write sends the bytes of the buffer, all and in order, to descriptor 1 or 2; x0 is
    the host's count, or minus its error number.
  */
  lemma WriteCallLaw(m: Machine, code: Word)
    requires m.status == RUNNING && m.regs[8] == 1
    ensures var (s, fd, address, count) := (Exec(m, Syscall(code)), m.regs[0], m.regs[1], m.regs[2]);
      if fd != 1 && fd != 2 then RejectsDescriptor(m, s)
      else if !InMemory(m, address, count) then s == Raise(m, MEMORY_OUT_OF_BOUNDS)
      else
        && s.Ok? && |s.m.host.output| == |m.host.output| + 1
        && var sent := s.m.host.output[|m.host.output|];
           && sent.0 == fd && |sent.1| == count
           && (forall j: int :: 0 <= j < count ==> sent.1[j] == m.mem.bytes[address + j])
           && Replies(m, s.m, if Answer(m).ok then Answer(m).value else MinusErrno(Answer(m).value), m.mem.bytes,
                      m.host.output + [sent])
  {
  }

  /**
    Read puts what the host delivers, at most the buffer's size, at the start of the
    buffer; x0 is the number of bytes, or minus the error number.
  */
  lemma ReadCallLaw(m: Machine, code: Word)
    requires m.status == RUNNING && m.regs[8] == 0
    ensures var (s, address, count) := (Exec(m, Syscall(code)), m.regs[1], m.regs[2]);
      if m.regs[0] != 0 then RejectsDescriptor(m, s)
      else if !InMemory(m, address, count) then s == Raise(m, MEMORY_OUT_OF_BOUNDS)
      else if !Answer(m).ok then
        s.Ok? && Replies(m, s.m, MinusErrno(Answer(m).value), m.mem.bytes, m.host.output)
      else
        var n: nat := if |Answer(m).data| < count then |Answer(m).data| else count;
        && s.Ok? && Replies(m, s.m, n, s.m.mem.bytes, m.host.output)
        && |s.m.mem.bytes| == |m.mem.bytes|
        && forall k: int :: 0 <= k < |m.mem.bytes| ==>
             s.m.mem.bytes[k] == if address <= k < address + n then Answer(m).data[k - address] else m.mem.bytes[k]
  {
  }

  /** Read-number leaves the number, or minus ENODATA at the end of input, or minus EINVAL. */
  lemma ReadNumberCallLaw(m: Machine, code: Word)
    requires m.status == RUNNING && m.regs[8] == 337
    ensures var s := Exec(m, Syscall(code));
      s.Ok? &&
      Replies(m, s.m,
              if Answer(m).ok then Answer(m).value
              else if Answer(m).value == 0 then 0x1_0000_0000 - 61 else 0x1_0000_0000 - 22,
              m.mem.bytes, m.host.output)
  {
  }

  /** Exit halts with x0 as the exit code, and the PC stays; other numbers raise. */
  lemma ExitCallLaw(m: Machine, code: Word)
    requires m.status == RUNNING
    ensures m.regs[8] == 60 ==> Exec(m, Syscall(code)) == Ok(m.(status := HALTED, exitCode := m.regs[0]))
    ensures m.regs[8] !in {0, 1, 60, 337} ==> Exec(m, Syscall(code)) == Raise(m, UNSUPPORTED_SYSCALL)
  {
  }
}
