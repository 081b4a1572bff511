/** The execution context as the program holds it, and the engines that run on it. */
module Context {
  import opened Words
  import opened BitOperations
  import opened Instructions
  import opened GuestMemory
  import opened Ir
  import opened MachineState
  import opened CacheSpec
  import opened Executor
  import opened Interpreters
  import opened IrEval
  import opened JitEngine
  import opened BlockCache
  import opened IrBuilder
  import opened CacheInvariants
  import opened Simulation
  import opened Runs

  /** A call returns, or throws a simulation error. */
  datatype Signal = Fine | Thrown(code: ErrorCode)

  /** How a step of the interpreter loop ends. */
  datatype LoopSignal = Continued | BlockThrew(code: ErrorCode) | FetchThrew(code: ErrorCode)

  /** How a call of the JIT ends; JitDone carries an entry that the fuel cut off, or 0. */
  datatype JitSignal =
    | JitDone(next: Handle)
    | JitThrown(code: ErrorCode)
    | JitFetchThrown(code: ErrorCode)
    | JitCrashed

  /** One node of translated code leads to another one, or out. */
  datatype Move =
    | Moved(k: nat, env: map<Ref, Value>, second: bool)
    | Left(ok: bool, entry: Handle)

  class ExecutionContext {
    const Registers: array<Word>
    var PC: Word
    const Memory: TIMemory
    var Running: Status
    var ExitCode: Word
    var HostIo: Host
    const Cache: TIBasicBlockCache
    const JitThreshold: nat

    constructor (size: nat, host: Host, threshold: nat)
      requires size < 0x1_0000_0000
      ensures JitThreshold == threshold && fresh(Registers) && fresh(Memory) && fresh(Memory.Bytes) && fresh(Cache)
      ensures Valid() && Cache.Blocks == map[]
      ensures View() == Machine(seq(32, _ => 0), 0, Mem(seq(size, _ => 0), [], []), RUNNING, 0, host,
                                MachineState.Cache(map[], map[], map[], 1))
    {
      Registers := new Word[32](_ => 0);
      PC := 0;
      Memory := new TIMemory(size);
      Running := RUNNING;
      ExitCode := 0;
      HostIo := host;
      Cache := new TIBasicBlockCache();
      JitThreshold := threshold;
    }

    ghost predicate Valid()
      reads Cache
    {
      && Registers.Length == 32 && Memory.Valid() && Cache.Valid()
      && (Registers as object) != (Memory.Bytes as object)
    }

    ghost function View(): Machine
      requires Valid()
      reads this, Registers, Memory, Memory.Bytes, Cache, Cache.Blocks.Values
    {
      Machine(Registers[..], PC, Memory.View(), Running, ExitCode, HostIo, Cache.View())
    }

    /** The context is in the state that a step of the specification reaches. */
    ghost predicate Reached(s: Step, r: Signal)
      reads this, Registers, Memory, Memory.Bytes, Cache, Cache.Blocks.Values
    {
      Valid() &&
      match s
      case Ok(m) => r == Fine && View() == m
      case Raise(m, code) => r == Thrown(code) && View() == m
    }

    // ---- single fields ----

    method SetRegister(r: Reg, value: Word)
      requires Valid()
      modifies Registers
      ensures Valid() && View() == SetReg(old(View()), r, value)
    {
      Registers[r] := value;
    }

    method AdvancePc()
      requires Valid()
      modifies `PC
      ensures Valid() && View() == Advance(old(View()))
    {
      PC := Add32(PC, 4);
    }

    method GetRegister(r: Reg) returns (value: Word)
      requires Valid()
      ensures value == View().regs[r]
    {
      value := Registers[r];
    }

    method SetFault()
      requires Valid()
      modifies `Running
      ensures Valid() && View() == Fault(old(View()))
    {
      Running := FAULTED;
    }

    // ---- memory instructions ----

    method LoadRegister(rt: Reg, address: Word) returns (r: Signal)
      requires Valid()
      modifies Registers
      ensures Reached(Load(old(View()), rt, address), r)
    {
      var word := Memory.LoadWord(address);
      if word.Failed? {
        return Thrown(word.code);
      }
      SetRegister(rt, word.value);
      return Fine;
    }

    method StoreWord(address: Word, value: Word) returns (r: Signal)
      requires Valid()
      modifies Memory, Memory.Bytes
      ensures Reached(Store(old(View()), address, value), r)
    {
      hide Write32;
      var stored := Memory.StoreWord(address, value);
      r := if stored.Done? then Fine else Thrown(stored.code);
    }

    method StoreWords(address: Word, first: Word, second: Word) returns (r: Signal)
      requires Valid()
      modifies Memory, Memory.Bytes
      ensures Reached(StorePair(old(View()), address, first, second), r)
    {
      hide Store, View;
      r := StoreWord(address, first);
      if r.Fine? {
        r := StoreWord(Add32(address, 4), second);
      }
    }

    method FlushInstructionCache()
      requires Valid()
      modifies Memory, Cache`JitEntries, Cache.Blocks.Values
      ensures Valid() && View() == FlushCaches(old(View())) && Cache.Blocks == old(Cache.Blocks)
    {
      hide InvalidateAll;
      var ranges := Memory.TakeDirtyCodeRanges();
      Cache.InvalidatesAll(ranges);
    }

    // ---- system calls ----

    method TakeReply() returns (reply: Reply)
      requires Valid()
      modifies `HostIo
      ensures reply == NextReply(old(View()).host)
      ensures Valid() && View() == old(View()).(host := PopReply(old(View()).host))
    {
      if HostIo.replies == [] {
        return NO_REPLY;
      }
      reply := HostIo.replies[0];
      HostIo := HostIo.(replies := HostIo.replies[1..]);
    }

    /** The host fills a buffer. */
    method FillBuffer(address: Word, data: seq<Byte>)
      requires Valid() && address + |data| <= Memory.Bytes.Length
      modifies Memory.Bytes
      ensures Valid()
      ensures View() == old(View()).(mem := old(View()).mem.(bytes := PutBytes(old(View()).mem.bytes, address, data)))
    {
      ghost var before := Memory.Bytes[..];
      forall k | 0 <= k < |data| {
        Memory.Bytes[address + k] := data[k];
      }
      assert Memory.Bytes[..] == PutBytes(before, address, data);
    }

    method HandleRead() returns (r: Signal)
      requires Valid()
      modifies this, Registers, Memory.Bytes
      ensures Reached(ReadCall(old(View())), r)
    {
      hide View, PutBytes, BoundsFail, Delivered;
      MemorySize();
      var fd := GetRegister(0);
      var address := GetRegister(1);
      var count := GetRegister(2);
      if fd != 0 {
        SetRegister(0, Negated(EBADF));
        return Fine;
      }
      BoundsMeaning(Memory.Bytes.Length, address, count);
      var fault := Memory.CheckBounds(address, count);
      if fault {
        return Thrown(MEMORY_OUT_OF_BOUNDS);
      }
      r := ReadInto(address, count);
    }

    /** A read whose buffer is in bounds. */
    method ReadInto(address: Word, count: Word) returns (r: Signal)
      requires Valid() && View().regs[0] == 0 && View().regs[1] == address && View().regs[2] == count
      requires !BoundsFail(Memory.Bytes.Length, address, count)
      modifies this, Registers, Memory.Bytes
      ensures Reached(ReadCall(old(View())), r)
    {
      hide View, PutBytes;
      MemorySize();
      var reply := TakeReply();
      if !reply.ok {
        SetRegister(0, Negated(reply.value));
        return Fine;
      }
      var data := Delivered(reply, count);
      FillBuffer(address, data);
      SetRegister(0, |data|);
      return Fine;
    }

    lemma MemorySize()
      requires Valid()
      ensures |View().mem.bytes| == Memory.Bytes.Length
    {
    }

    method HandleWrite() returns (r: Signal)
      requires Valid()
      modifies this, Registers
      ensures Reached(WriteCall(old(View())), r)
    {
      hide View, BoundsFail;
      MemorySize();
      var fd := GetRegister(0);
      var address := GetRegister(1);
      var count := GetRegister(2);
      if fd != 1 && fd != 2 {
        SetRegister(0, Negated(EBADF));
        return Fine;
      }
      BoundsMeaning(Memory.Bytes.Length, address, count);
      var fault := Memory.CheckBounds(address, count);
      if fault {
        return Thrown(MEMORY_OUT_OF_BOUNDS);
      }
      r := WriteFrom(fd, address, count);
    }

    /** A write whose buffer is in bounds. */
    method WriteFrom(fd: Word, address: Word, count: Word) returns (r: Signal)
      requires Valid() && View().regs[0] == fd && View().regs[1] == address && View().regs[2] == count
      requires (fd == 1 || fd == 2) && !BoundsFail(Memory.Bytes.Length, address, count)
      modifies this, Registers
      ensures Reached(WriteCall(old(View())), r)
    {
      var sent := Memory.Bytes[address..address + count];
      assert sent == View().mem.bytes[address..address + count];
      var reply := TakeReply();
      HostIo := HostIo.(output := HostIo.output + [(fd, sent)]);
      SetRegister(0, if reply.ok then reply.value else Negated(reply.value));
      return Fine;
    }

    method HandleReadNumber() returns (r: Signal)
      requires Valid()
      modifies this, Registers
      ensures Reached(ReadNumberCall(old(View())), r)
    {
      hide View;
      var reply := TakeReply();
      var errno := if reply.value == 0 then ENODATA else EINVAL;
      SetRegister(0, if reply.ok then reply.value else Negated(errno));
      return Fine;
    }

    method HandleExit() returns (r: Signal)
      requires Valid()
      modifies this
      ensures Reached(ExitCall(old(View())), r)
    {
      Running := HALTED;
      ExitCode := Registers[0];
      return Fine;
    }

    method CallSystem() returns (r: Signal)
      requires Valid()
      modifies this, Registers, Memory.Bytes
      ensures Reached(SystemCall(old(View())), r)
    {
      hide View, ReadCall, WriteCall, ReadNumberCall, ExitCall;
      var number := GetRegister(8);
      if number == 0 {
        r := HandleRead();
      } else if number == 1 {
        r := HandleWrite();
      } else if number == 60 {
        r := HandleExit();
      } else if number == 337 {
        r := HandleReadNumber();
      } else {
        r := Thrown(UNSUPPORTED_SYSCALL);
      }
    }

    method ExecuteSyscall() returns (r: Signal)
      requires Valid()
      modifies this, Registers, Memory.Bytes
      ensures Reached(ExecSyscall(old(View())), r)
    {
      hide SystemCall;
      r := CallSystem();
      if r.Fine? && Running == RUNNING {
        AdvancePc();
      }
    }

    // ---- instructions ----

    /** An instruction of two source operands and one destination. */
    method ExecuteArithmetic(i: Instr) returns (r: Signal)
      requires Valid() && (i.Li? || i.Add? || i.Addi? || i.OrReg? || i.Clz? || i.Rori? || i.Bext?)
      modifies Registers
      ensures Reached(Effect(old(View()), i), r)
    {
      hide Or32, RotateRight;
      r := Fine;
      match i {
        case Li(rt, imm) => SetRegister(rt, imm);
        case Add(rd, rs, rt) => SetRegister(rd, Add32(Registers[rs], Registers[rt]));
        case Addi(rt, rs, imm) => SetRegister(rt, Add32(Registers[rs], imm));
        case OrReg(rd, rs, rt) => SetRegister(rd, Or32(Registers[rs], Registers[rt]));
        case Clz(rd, rs) =>
          var count := CountLeadingZeros(Registers[rs]);
          SetRegister(rd, count);
        case Rori(rd, rs, shift) => SetRegister(rd, RotateRight(Registers[rs], shift));
        case Bext(rd, rs, rt) =>
          var bits := CompressBits(Registers[rs], Registers[rt]);
          SetRegister(rd, bits);
      }
    }

    method ExecuteSsat(i: Instr) returns (r: Signal)
      requires Valid() && i.Ssat?
      modifies Registers
      ensures Reached(Effect(old(View()), i), r)
    {
      hide SaturateSigned;
      if i.width == 0 || i.width >= 32 {
        return Thrown(INVALID_INSTRUCTION);
      }
      SetRegister(i.rd, SaturateSigned(Registers[i.rs], i.width));
      return Fine;
    }

    method ExecuteMemory(i: Instr) returns (r: Signal)
      requires Valid() && (i.LdReg? || i.LdImm? || i.St? || i.Stp?)
      modifies Registers, Memory, Memory.Bytes
      ensures Reached(Effect(old(View()), i), r)
    {
      hide Load, Store, StorePair;
      match i {
        case LdReg(rt, base, rm) => r := LoadRegister(rt, Add32(Registers[base], Registers[rm]));
        case LdImm(rt, base, imm) => r := LoadRegister(rt, Add32(Registers[base], imm));
        case St(rt, base, imm) => r := StoreWord(Add32(Registers[base], imm), Registers[rt]);
        case Stp(rt, rt2, base, imm) =>
          r := StoreWords(Add32(Registers[base], imm), Registers[rt], Registers[rt2]);
      }
    }

    /** Instructions inside a block: the effect, then the PC, which a thrown error leaves alone. */
    method ExecuteInside(i: Instr) returns (r: Signal)
      requires Valid() && !EndsBlock(i)
      modifies this, Registers, Memory, Memory.Bytes
      ensures Reached(ThenAdvance(Effect(old(View()), i)), r)
    {
      hide View, Effect;
      if i.Ssat? {
        r := ExecuteSsat(i);
      } else if i.LdReg? || i.LdImm? || i.St? || i.Stp? {
        r := ExecuteMemory(i);
      } else {
        r := ExecuteArithmetic(i);
      }
      if r.Fine? {
        AdvancePc();
      }
    }

    method ExecuteJump(i: Instr)
      requires Valid() && (i.Beq? || i.J?)
      modifies `PC
      ensures Reached(Exec(old(View()), i), Fine)
    {
      hide BranchTarget, JumpTarget;
      if i.J? {
        PC := JumpTarget(PC, i.index);
      } else if Registers[i.rs] == Registers[i.rt] {
        PC := BranchTarget(PC, i.offset);
      } else {
        PC := Add32(PC, 4);
      }
    }

    method ExecuteFlush()
      requires Valid()
      modifies `PC, Memory, Cache`JitEntries, Cache.Blocks.Values
      ensures Valid() && View() == Advance(FlushCaches(old(View()))) && Cache.Blocks == old(Cache.Blocks)
    {
      hide View, FlushCaches;
      FlushInstructionCache();
      AdvancePc();
    }

    /** The dispatch on the opcode, shared by the engines. */
    method ExecuteInstruction(i: Instr) returns (r: Signal)
      requires Valid()
      modifies this, Registers, Memory, Memory.Bytes, Cache`JitEntries, Cache.Blocks.Values
      ensures Reached(Exec(old(View()), i), r)
      ensures Cache.Blocks == old(Cache.Blocks)
    {
      hide View, Effect, ExecSyscall, BranchTarget, JumpTarget, FlushCaches;
      r := Fine;
      match i {
        case Beq(_, _, _) => ExecuteJump(i);
        case J(_) => ExecuteJump(i);
        case Syscall(_) => r := ExecuteSyscall();
        case Invalid => r := Thrown(INVALID_INSTRUCTION);
        case Flush => ExecuteFlush();
        case _ => r := ExecuteInside(i);
      }
    }

    // ---- the switch and the threaded engine ----

    method ExecuteSwitchBlock(instrs: seq<Instr>) returns (r: Signal)
      requires Valid()
      modifies this, Registers, Memory, Memory.Bytes, Cache`JitEntries, Cache.Blocks.Values
      ensures Reached(RunFrom(old(View()), instrs, 0), r)
      ensures Cache.Blocks == old(Cache.Blocks)
    {
      hide View, Exec;
      var k := 0;
      while k < |instrs|
        invariant 0 <= k <= |instrs|
        invariant Valid() && Cache.Blocks == old(Cache.Blocks)
        invariant RunFrom(old(View()), instrs, 0) == RunFrom(View(), instrs, k)
      {
        r := ExecuteInstruction(instrs[k]);
        if r.Thrown? {
          return;
        }
        k := k + 1;
      }
      return Fine;
    }

    /** Each handler calls the next one; handlers of terminators return. */
    method ExecuteThreadedFrom(instrs: seq<Instr>, k: nat) returns (r: Signal)
      requires Valid() && k < |instrs|
      modifies this, Registers, Memory, Memory.Bytes, Cache`JitEntries, Cache.Blocks.Values
      ensures Reached(ThreadFrom(old(View()), instrs, k), r)
      ensures Cache.Blocks == old(Cache.Blocks)
      decreases |instrs| - k
    {
      hide View, Exec;
      r := ExecuteInstruction(instrs[k]);
      if r.Thrown? || EndsBlock(instrs[k]) || k + 1 == |instrs| {
        return;
      }
      r := ExecuteThreadedFrom(instrs, k + 1);
    }

    // ---- translated code ----

    /** What running translated code means for a context: stuck, or returned with an entry. */
    ghost predicate CameBack(result: Result, ok: bool, entry: Handle)
      reads this, Registers, Memory, Memory.Bytes, Cache, Cache.Blocks.Values
    {
      Valid() &&
      match result
      case Stuck => !ok
      case Returned(m, h) => ok && View() == m && entry == h
    }

    method ValueOf(n: Node, env: map<Ref, Value>, second: bool) returns (v: Option<Value>)
      requires Valid()
      ensures v == PureValue(n, Frame(View(), env, second))
    {
      hide Computed, View;
      match n {
        case LoadReg(reg) =>
          var value := GetRegister(reg);
          v := Some(U32(value));
        case LoadStatus =>
          StatusOfView();
          v := Some(U8(StatusByte(Running)));
        case LoadSlot(address) =>
          SlotsOfView();
          v := if address in Cache.JitEntries then Some(Addr(Cache.JitEntries[address])) else None;
        case _ => v := Computed(n, env, second);
      }
    }

    lemma SlotsOfView()
      requires Valid()
      ensures View().cache.entries == Cache.JitEntries
    {
    }

    method CallRoutine(h: Handler, i: Instr)
      requires Valid()
      modifies this, Registers, Memory, Memory.Bytes, Cache`JitEntries, Cache.Blocks.Values
      ensures Valid() && View() == Caught(RunHandler(h, old(View()), i))
      ensures Cache.Blocks == old(Cache.Blocks)
    {
      hide View, Effect, ExecSyscall, FlushCaches;
      var r := Fine;
      match h {
        case HandleFlush => ExecuteFlush();
        case HandleSyscall => r := ExecuteSyscall();
        case HandleSsat => r := ExecuteInstruction(i);
        case HandleInvalid => r := Thrown(INVALID_INSTRUCTION);
      }
      if r.Thrown? {
        SetFault();
      }
    }

    method SetPc(value: Word)
      requires Valid()
      modifies `PC
      ensures Valid() && View() == old(View()).(pc := value)
    {
      PC := value;
    }

    /** The machine after a node with an effect; undefined behaviour is reported. */
    method PerformEffect(n: Node, env: map<Ref, Value>, ghost second: bool) returns (ok: bool)
      requires Valid()
      modifies this, Registers, Memory, Memory.Bytes, Cache`JitEntries, Cache.Blocks.Values
      ensures Valid() && Cache.Blocks == old(Cache.Blocks)
      ensures match EffectOf(n, Frame(old(View()), env, second))
        case None => !ok
        case Some(g) => ok && g == Frame(View(), env, second)
    {
      hide View, Store, RunHandler, Caught, SetReg;
      ok := true;
      match n {
        case StoreReg(reg, a) =>
          if !IsU32(env, a) {
            return false;
          }
          SetRegister(reg, env[a].word);
        case StorePc(a) =>
          if !IsU32(env, a) {
            return false;
          }
          SetPc(env[a].word);
        case CallWrite(a, b) =>
          if !(IsU32(env, a) && IsU32(env, b)) {
            return false;
          }
          WriteHelper(env[a].word, env[b].word);
        case CallHandler(h, i) => CallRoutine(h, i);
        case Start =>
        case Param =>
        case Merge2(_, _) =>
        case IfTrue(_) =>
        case IfFalse(_) =>
        case _ => ok := false;
      }
    }

    /** The read helper: a failing read faults the context and yields zero. */
    method ReadHelper(address: Word) returns (value: Word)
      requires Valid()
      modifies `Running
      ensures Valid()
      ensures match Read32(old(View()).mem, address)
        case Done(word) => value == word && View() == old(View())
        case Failed(_) => value == 0 && View() == Fault(old(View()))
    {
      var word := Memory.LoadWord(address);
      if word.Failed? {
        SetFault();
        return 0;
      }
      return word.value;
    }

    /** The write helper: a failing write faults the context. */
    method WriteHelper(address: Word, value: Word)
      requires Valid()
      modifies `Running, Memory, Memory.Bytes
      ensures Valid() && View() == Caught(Store(old(View()), address, value))
    {
      hide View, Store;
      var r := StoreWord(address, value);
      if r.Thrown? {
        SetFault();
      }
    }

    /** Where one node of translated code leads. */
    ghost predicate Stepped(next: Next, r: Move)
      reads this, Registers, Memory, Memory.Bytes, Cache, Cache.Blocks.Values
    {
      Valid() &&
      match next
      case Leave(result) => r.Left? && CameBack(result, r.ok, r.entry)
      case Goto(j, g) => r.Moved? && r.k == j && g == Frame(View(), r.env, r.second)
    }

    method StepPlain(code: seq<Node>, k: nat, env: map<Ref, Value>, second: bool) returns (r: Move)
      requires Valid() && k < |code| && !code[k].Return? && !code[k].If? && !code[k].End? && !code[k].CallRead?
      modifies this, Registers, Memory, Memory.Bytes, Cache`JitEntries, Cache.Blocks.Values
      ensures Stepped(StepNode(code, k, Frame(old(View()), env, second)), r)
      ensures Cache.Blocks == old(Cache.Blocks)
    {
      hide View, PureValue, EffectOf, Read32, Computed;
      var v := ValueOf(code[k], env, second);
      if v.Some? {
        return Moved(k + 1, env[k := v.value], second);
      }
      var ok := PerformEffect(code[k], env, second);
      r := if ok then Moved(k + 1, env, second) else Left(false, 0);
    }

    method StepControl(code: seq<Node>, k: nat, env: map<Ref, Value>, second: bool) returns (r: Move)
      requires Valid() && k < |code| && (code[k].Return? || code[k].If? || code[k].End? || code[k].CallRead?)
      modifies `Running
      ensures Stepped(StepNode(code, k, Frame(old(View()), env, second)), r)
    {
      hide View, PureValue, EffectOf, Read32, Computed;
      r := Left(false, 0);
      match code[k] {
        case Return(a) =>
          if a in env && env[a].Addr? {
            r := Left(true, env[a].handle);
          }
        case If(a) =>
          if IsBool(env, a) {
            r := Moved(Find(code, k + 1, if env[a].b then IfTrue(k) else IfFalse(k)), env, second);
          }
        case End =>
          var j := FindMerge(code, k + 1, k);
          r := Moved(j, env, j < |code| && code[j].a != k);
        case CallRead(a) =>
          if IsU32(env, a) {
            var value := ReadHelper(env[a].word);
            r := Moved(k + 1, env[k := U32(value)], second);
          }
      }
    }

    lemma EvalStep(code: seq<Node>, k: nat, f: Frame)
      requires k < |code|
      ensures match StepNode(code, k, f)
        case Leave(result) => Eval(code, k, f) == result
        case Goto(j, g) => Eval(code, k, f) == if k < j then Eval(code, j, g) else Stuck
    {
      hide PureValue, EffectOf;
    }

    /** Run translated code from its first node until it returns. */
    method RunCode(code: seq<Node>) returns (ok: bool, entry: Handle)
      requires Valid()
      modifies this, Registers, Memory, Memory.Bytes, Cache`JitEntries, Cache.Blocks.Values
      ensures CameBack(Eval(code, 0, Entered(old(View()))), ok, entry)
      ensures Cache.Blocks == old(Cache.Blocks)
    {
      hide View, StepNode;
      ghost var result := Eval(code, 0, Entered(View()));
      var k := 0;
      var env: map<Ref, Value> := map[];
      var second := false;
      while k < |code|
        invariant Valid() && Cache.Blocks == old(Cache.Blocks)
        invariant Eval(code, k, Frame(View(), env, second)) == result
        decreases |code| - k
      {
        EvalStep(code, k, Frame(View(), env, second));
        var r: Move;
        if code[k].Return? || code[k].If? || code[k].End? || code[k].CallRead? {
          r := StepControl(code, k, env, second);
        } else {
          r := StepPlain(code, k, env, second);
        }
        if r.Left? {
          return r.ok, r.entry;
        }
        if r.k <= k {
          return false, 0;
        }
        k, env, second := r.k, r.env, r.second;
      }
      return false, 0;
    }

    /** Call an entry point. */
    method CallEntry(h: Handle) returns (ok: bool, next: Handle)
      requires Valid()
      modifies this, Registers, Memory, Memory.Bytes, Cache`JitEntries, Cache.Blocks.Values
      ensures CameBack(RunNative(old(View()), h), ok, next)
      ensures Cache.Blocks == old(Cache.Blocks)
    {
      hide Eval;
      if h !in Cache.Native {
        return false, 0;
      }
      ok, next := RunCode(Cache.Native[h]);
    }

    // ---- steps of the interpreter loop ----

    /** Find or decode the block at the PC. */
    method LookupBlock() returns (r: Access<TIBasicBlock>)
      requires Valid()
      modifies Cache
      ensures Valid()
      ensures match GetBlock(old(View()).cache, old(View()).mem, old(View()).pc)
        case Missing(cache, code) => r == Failed(code) && View() == old(View()).(cache := cache)
        case Found(cache) =>
          && r.Done? && View() == old(View()).(cache := cache)
          && PC in Cache.Blocks && Cache.Blocks[PC] == r.value
      ensures fresh(Cache.Blocks.Values - old(Cache.Blocks.Values))
    {
      hide GetBlock;
      r := Cache.Lookup(PC, Memory);
    }

    ghost predicate Progressed(p: Progress, r: LoopSignal)
      reads this, Registers, Memory, Memory.Bytes, Cache, Cache.Blocks.Values
    {
      Valid() &&
      match p
      case Ran(m) => r == Continued && View() == m
      case Threw(m, code) => r == BlockThrew(code) && View() == m
      case FetchError(m, code) => r == FetchThrew(code) && View() == m
    }

    /** The try block around an engine: an error faults the context and is thrown again. */
    method Settles(ghost s: Step, r: Signal) returns (l: LoopSignal)
      requires Reached(s, r)
      modifies `Running
      ensures Progressed(Settle(s), l)
    {
      hide View;
      if r.Thrown? {
        SetFault();
        return BlockThrew(r.code);
      }
      return Continued;
    }

    /** What the block found at the PC looks like from the specification. */
    lemma BlockOfView()
      requires Valid() && PC in Cache.Blocks
      ensures View().pc == PC && PC in View().cache.blocks
      ensures View().cache.blocks[PC] == Cache.Blocks[PC].View()
    {
    }

    method StepSwitch() returns (l: LoopSignal)
      requires Valid()
      modifies this, Registers, Memory, Memory.Bytes, Cache, Cache.Blocks.Values
      ensures Progressed(SwitchStep(old(View())), l)
      ensures fresh(Cache.Blocks.Values - old(Cache.Blocks.Values))
    {
      hide View, GetBlock, RunFrom, Settle;
      var block := LookupBlock();
      if block.Failed? {
        return FetchThrew(block.code);
      }
      BlockOfView();
      ghost var s := RunFrom(View(), block.value.Instructions, 0);
      var r := ExecuteSwitchBlock(block.value.Instructions);
      l := Settles(s, r);
    }

    method StepThreaded() returns (l: LoopSignal)
      requires Valid()
      modifies this, Registers, Memory, Memory.Bytes, Cache, Cache.Blocks.Values
      ensures Progressed(ThreadedStep(old(View())), l)
      ensures fresh(Cache.Blocks.Values - old(Cache.Blocks.Values))
    {
      hide View, GetBlock, ThreadFrom, Settle;
      var block := LookupBlock();
      if block.Failed? {
        return FetchThrew(block.code);
      }
      BlockOfView();
      if block.value.Instructions == [] {
        return Continued;
      }
      l := RunThreadedBlock(block.value.Instructions);
    }

    /** A block in threaded code, under the try block of the loop. */
    method RunThreadedBlock(instrs: seq<Instr>) returns (l: LoopSignal)
      requires Valid() && instrs != []
      modifies this, Registers, Memory, Memory.Bytes, Cache`JitEntries, Cache.Blocks.Values
      ensures Progressed(Settle(ThreadFrom(old(View()), instrs, 0)), l)
      ensures Cache.Blocks == old(Cache.Blocks)
    {
      hide View, ThreadFrom, Settle;
      ghost var s := ThreadFrom(View(), instrs, 0);
      var r := ExecuteThreadedFrom(instrs, 0);
      l := Settles(s, r);
    }

    /** The interpreter loop in switch or threaded mode, for at most `n` blocks: the same run. */
    method RunInterpreter(threaded: bool, n: nat) returns (ended: bool, ending: Ending)
      requires Valid() && MachineOk(View())
      modifies this, Registers, Memory, Memory.Bytes, Cache, Cache.Blocks.Values
      ensures Valid() && MachineOk(View())
      ensures SwitchRun(old(View()), n) == if ended then Over(View(), ending) else Going(View())
    {
      hide View, SwitchStep, ThreadedStep, MachineOk;
      var left := n;
      while Running == RUNNING && left > 0
        invariant Valid() && MachineOk(View()) && SwitchRun(View(), left) == SwitchRun(old(View()), n)
        invariant fresh(Cache.Blocks.Values - old(Cache.Blocks.Values))
        decreases left
      {
        StatusOfView();
        ThreadedStepIsSwitchStep(View());
        SwitchStepOk(View());
        var l;
        if threaded {
          l := StepThreaded();
        } else {
          l := StepSwitch();
        }
        left := left - 1;
        match l {
          case Continued =>
          case BlockThrew(code) => return true, Raised(code);
          case FetchThrew(code) => return true, FetchFailed(code);
        }
      }
      StatusOfView();
      return Running != RUNNING, Stopped;
    }

    lemma StatusOfView()
      requires Valid()
      ensures View().status == Running
    {
    }

    // ---- the JIT ----

    ghost predicate JitReached(p: JitProgress, r: JitSignal)
      reads this, Registers, Memory, Memory.Bytes, Cache, Cache.Blocks.Values
    {
      Valid() &&
      match p
      case JitRan(c) => r == JitDone(c.next) && View() == c.m
      case JitThrew(m, code) => r == JitThrown(code) && View() == m
      case JitFetchError(m, code) => r == JitFetchThrown(code) && View() == m
      case Crash => r == JitCrashed
    }

    method RecordAt(block: TIBasicBlock)
      requires Valid() && PC in Cache.Blocks && Cache.Blocks[PC] == block
      modifies block
      ensures Valid() && View().cache == RecordExecution(old(View().cache), PC)
      ensures View() == old(View()).(cache := View().cache)
    {
      ghost var before := Cache.View();
      block.Record();
      assert Cache.BlocksView() == before.blocks[PC := before.blocks[PC].(count := before.blocks[PC].count + 1)];
    }

    method CompileAt(block: TIBasicBlock)
      requires Valid() && PC in Cache.Blocks && Cache.Blocks[PC] == block
      modifies Cache`JitEntries, Cache`Native, Cache`NextHandle, block
      ensures Valid() && View().cache == CompileInto(old(View().cache), PC)
      ensures View() == old(View()).(cache := View().cache)
      ensures Cache.Blocks == old(Cache.Blocks)
    {
      hide CompileInto;
      CompileBlock(Cache, block);
    }

    /** A cold block is counted and runs in threaded code. */
    method RunCold(block: TIBasicBlock) returns (r: JitSignal)
      requires Valid() && PC in Cache.Blocks && Cache.Blocks[PC] == block && block.Instructions != []
      requires block.EntryPoint == 0 && block.ExecutionCount < JitThreshold
      modifies this, Registers, Memory, Memory.Bytes, Cache`JitEntries, Cache.Blocks.Values
      ensures JitReached(EnterBlock(old(View()), JitThreshold), r)
      ensures Cache.Blocks == old(Cache.Blocks)
    {
      hide View, ThreadFrom, RecordExecution, EnterBlock;
      BlockOfView();
      EnterCold(View(), JitThreshold);
      RecordAt(block);
      var l := RunThreadedBlock(block.Instructions);
      r := if l.BlockThrew? then JitThrown(l.code) else JitDone(0);
    }

    /** A hot block is translated if need be, and its translation is called. */
    method RunHot(block: TIBasicBlock) returns (r: JitSignal)
      requires Valid() && PC in Cache.Blocks && Cache.Blocks[PC] == block && block.Instructions != []
      requires !(block.EntryPoint == 0 && block.ExecutionCount < JitThreshold)
      modifies this, Registers, Memory, Memory.Bytes, Cache`JitEntries, Cache`Native, Cache`NextHandle,
        Cache.Blocks.Values
      ensures JitReached(EnterBlock(old(View()), JitThreshold), r)
      ensures Cache.Blocks == old(Cache.Blocks)
    {
      hide View, RunNative, CompileInto, EnterBlock;
      BlockOfView();
      EnterHot(View(), JitThreshold);
      TranslateOnce(block);
      BlockOfView();
      var ok, next := CallEntry(block.EntryPoint);
      r := if ok then JitDone(next) else JitCrashed;
    }

    method TranslateOnce(block: TIBasicBlock)
      requires Valid() && PC in Cache.Blocks && Cache.Blocks[PC] == block
      modifies Cache`JitEntries, Cache`Native, Cache`NextHandle, block
      ensures Valid() && PC in old(View()).cache.blocks
      ensures View().cache
           == if old(View()).cache.blocks[PC].code == 0 then CompileInto(old(View()).cache, PC) else old(View()).cache
      ensures View() == old(View()).(cache := View().cache)
      ensures Cache.Blocks == old(Cache.Blocks)
    {
      hide View, CompileInto;
      BlockOfView();
      if block.EntryPoint == 0 {
        CompileAt(block);
      }
    }

    method EnterJitBlock(block: TIBasicBlock) returns (r: JitSignal)
      requires Valid() && PC in Cache.Blocks && Cache.Blocks[PC] == block
      modifies this, Registers, Memory, Memory.Bytes, Cache`JitEntries, Cache`Native, Cache`NextHandle,
        Cache.Blocks.Values
      ensures JitReached(EnterBlock(old(View()), JitThreshold), r)
      ensures Cache.Blocks == old(Cache.Blocks)
    {
      BlockOfView();
      hide View, ThreadFrom, RunNative, CompileInto, RecordExecution;
      if block.Instructions == [] {
        return JitCrashed;
      }
      if block.EntryPoint == 0 && block.ExecutionCount < JitThreshold {
        r := RunCold(block);
      } else {
        r := RunHot(block);
      }
    }

    /** The chain loop: follow entries, without the cache, for at most `fuel` blocks. */
    method FollowChain(first: Handle, fuel: nat) returns (r: JitSignal, blocks: nat)
      requires Valid()
      modifies this, Registers, Memory, Memory.Bytes, Cache`JitEntries, Cache.Blocks.Values
      ensures JitReached(Chain(Config(old(View()), first), JitThreshold, fuel).0, r)
      ensures blocks == Chain(Config(old(View()), first), JitThreshold, fuel).1
      ensures Cache.Blocks == old(Cache.Blocks)
    {
      hide View, RunNative, GetBlock, EnterBlock;
      ghost var whole := Chain(Config(View(), first), JitThreshold, fuel);
      var next := first;
      blocks := 0;
      while next != 0 && blocks < fuel
        invariant Valid() && Cache.Blocks == old(Cache.Blocks) && blocks <= fuel
        invariant Chain(Config(View(), next), JitThreshold, fuel - blocks).0 == whole.0
        invariant Chain(Config(View(), next), JitThreshold, fuel - blocks).1 + blocks == whole.1
        decreases fuel - blocks
      {
        var ok;
        ok, next := CallEntry(next);
        blocks := blocks + 1;
        if !ok {
          return JitCrashed, blocks;
        }
      }
      return JitDone(next), blocks;
    }

    /** One step of the interpreter loop in JIT mode, with at most `fuel` chained blocks. */
    method StepJit(fuel: nat) returns (r: JitSignal, blocks: nat)
      requires Valid()
      modifies this, Registers, Memory, Memory.Bytes, Cache, Cache.Blocks.Values
      ensures JitReached(JitCall(old(View()), JitThreshold, fuel).0, r)
      ensures blocks == JitCall(old(View()), JitThreshold, fuel).1
      ensures fresh(Cache.Blocks.Values - old(Cache.Blocks.Values))
    {
      hide View, GetBlock, EnterBlock, Chain;
      blocks := 1;
      var block := LookupBlock();
      if block.Failed? {
        return JitFetchThrown(block.code), 1;
      }
      r := EnterJitBlock(block.value);
      if r.JitDone? {
        r, blocks := FollowChain(r.next, fuel);
        blocks := blocks + 1;
      }
    }

    /**
      The interpreter loop in JIT mode, for at most `n` blocks. It never gets stuck, and it is
      the run of the switch engine as the JIT shows it.
    */
    method RunJit(n: nat) returns (ended: bool, ending: Ending)
      requires Valid() && MachineOk(View())
      modifies this, Registers, Memory, Memory.Bytes, Cache, Cache.Blocks.Values
      ensures Valid() && MachineOk(View()) && (ended ==> !ending.Crashed?)
      ensures JitRun(Config(old(View()), 0), JitThreshold, n) == if ended then Over(View(), ending) else Going(View())
      ensures CoreOutcome(if ended then Over(View(), ending) else Going(View()))
           == ShownRun(Core(old(View())), n, RunsCold(JitLast(Config(old(View()), 0), JitThreshold, n), JitThreshold))
    {
      hide View, JitCall, JitStep, JitLast, ShownRun, RunsCold, SwallowedPc, MachineOk, Core;
      JitRunSimulates(Config(View(), 0), JitThreshold, n);
      var left := n;
      while Running == RUNNING && left > 0
        invariant Valid() && MachineOk(View())
        invariant JitRun(Config(View(), 0), JitThreshold, left) == JitRun(Config(old(View()), 0), JitThreshold, n)
        invariant fresh(Cache.Blocks.Values - old(Cache.Blocks.Values))
        decreases left
      {
        StatusOfView();
        RunAfterCall(View(), JitThreshold, left);
        JitCallIsSwitchSteps(View(), JitThreshold, left - 1);
        var r, blocks := StepJit(left - 1);
        left := left - blocks;
        match r {
          case JitDone(next) =>
            if next != 0 {
              return false, Stopped;
            }
          case JitThrown(code) => return true, Raised(code);
          case JitFetchThrown(code) => return true, FetchFailed(code);
          case JitCrashed => assert false;
        }
      }
      StatusOfView();
      return Running != RUNNING, Stopped;
    }
  }
}
