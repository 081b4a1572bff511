/** The state of one execution context, as a value. */
module MachineState {
  import opened Words
  import opened Instructions
  import opened GuestMemory
  import opened Ir

  datatype Status = RUNNING | HALTED | FAULTED

  type Registers = s: seq<Word> | |s| == 32 witness seq(32, _ => 0)

  /** One answer of the host to a read, write or read-number request. */
  datatype Reply = Reply(ok: bool, value: Word, data: seq<Byte>)

  /** Answers still to come, and the bytes sent to each file descriptor so far. */
  datatype Host = Host(replies: seq<Reply>, output: seq<(Word, seq<Byte>)>)

  /** A basic block; `code` is its translation, or 0. */
  datatype Block = Block(start: Word, instrs: seq<Instr>, valid: bool, count: nat, code: Handle)

  /**
    The block cache. `entries` are the chaining slots, `native` the code that is
    currently mapped, `nextHandle` the entry point of the next translation.
  */
  datatype Cache = Cache(
    blocks: map<Word, Block>,
    entries: map<Word, Handle>,
    native: map<Handle, seq<Node>>,
    nextHandle: Handle)

  datatype Machine = Machine(
    regs: Registers,
    pc: Word,
    mem: Mem,
    status: Status,
    exitCode: Word,
    host: Host,
    cache: Cache)
}
