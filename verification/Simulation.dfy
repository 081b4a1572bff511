/** The JIT engine simulates the switch engine, block for block. */
module Simulation {
  import opened Words
  import opened BitOperations
  import opened Instructions
  import opened GuestMemory
  import opened MachineState
  import opened CacheSpec
  import opened Executor
  import opened Interpreters
  import opened IrEval
  import opened JitSpec
  import opened JitEngine
  import opened JitCorrect
  import opened CacheInvariants

  // ---- forgetting what only the JIT uses ----

  function Strip(b: Block): Block {
    b.(count := 0, code := 0)
  }

  /** The map from addresses to instructions and valid flags. */
  function CoreCache(cache: Cache): Cache {
    Cache(map a | a in cache.blocks :: Strip(cache.blocks[a]), map[], map[], 1)
  }

  function Core(m: Machine): Machine {
    m.(cache := CoreCache(m.cache))
  }

  /** The core keeps every component but the cache, and of each block the instructions and the valid flag. */
  lemma CoreKeeps(m: Machine, a: Word)
    ensures Core(m) == m.(cache := Core(m).cache)
    ensures a in Core(m).cache.blocks <==> a in m.cache.blocks
    ensures a in m.cache.blocks ==>
      && Core(m).cache.blocks[a].instrs == m.cache.blocks[a].instrs
      && Core(m).cache.blocks[a].valid == m.cache.blocks[a].valid
  {
  }

  function CoreStep(s: Step): Step {
    match s
    case Ok(m) => Ok(Core(m))
    case Raise(m, code) => Raise(Core(m), code)
  }

  function CoreProgress(p: Progress): Progress {
    match p
    case Ran(m) => Ran(Core(m))
    case Threw(m, code) => Threw(Core(m), code)
    case FetchError(m, code) => FetchError(Core(m), code)
  }

  function CoreLookup(l: Lookup): Lookup {
    match l
    case Found(cache) => Found(CoreCache(cache))
    case Missing(cache, code) => Missing(CoreCache(cache), code)
  }

  lemma CoreInvalidateRange(cache: Cache, range: CodeRange)
    ensures InvalidateRange(CoreCache(cache), range) == CoreCache(InvalidateRange(cache, range))
  {
  }

  lemma {:induction false} CoreInvalidateAll(cache: Cache, ranges: seq<CodeRange>)
    ensures InvalidateAll(CoreCache(cache), ranges) == CoreCache(InvalidateAll(cache, ranges))
    decreases |ranges|
  {
    hide CoreCache, InvalidateRange;
    if ranges != [] {
      CoreInvalidateRange(cache, ranges[0]);
      CoreInvalidateAll(InvalidateRange(cache, ranges[0]), ranges[1..]);
    }
  }

  lemma CoreEvict(cache: Cache, address: Word)
    ensures Evict(CoreCache(cache), address) == CoreCache(Evict(cache, address))
  {
  }

  lemma CoreInstall(cache: Cache, address: Word, instrs: seq<Instr>)
    ensures Install(CoreCache(cache), address, instrs) == CoreCache(Install(cache, address, instrs))
  {
  }

  lemma CoreGetBlock(cache: Cache, mem: Mem, address: Word)
    ensures GetBlock(CoreCache(cache), mem, address) == CoreLookup(GetBlock(cache, mem, address))
  {
    hide DecodeBlock, Evict, Install;
    CoreEvict(cache, address);
    if DecodeBlock(mem, address).Done? {
      CoreInstall(Evict(cache, address), address, DecodeBlock(mem, address).value);
    }
  }

  function StepWithCache(s: Step, cache: Cache): Step {
    match s
    case Ok(m) => Ok(m.(cache := cache))
    case Raise(m, code) => Raise(m.(cache := cache), code)
  }

  lemma EffectIgnoresCache(m: Machine, i: Instr, cache: Cache)
    requires !EndsBlock(i)
    ensures Effect(m.(cache := cache), i) == StepWithCache(Effect(m, i), cache)
  {
    hide SaturateSigned, RotateRight, Compress32, Clz32, Or32, Read32, Write32;
  }

  lemma SyscallIgnoresCache(m: Machine, cache: Cache)
    ensures ExecSyscall(m.(cache := cache)) == StepWithCache(ExecSyscall(m), cache)
  {
    hide ReadCall, WriteCall;
    ReadIgnoresCache(m, cache);
    WriteIgnoresCache(m, cache);
  }

  lemma ReadIgnoresCache(m: Machine, cache: Cache)
    ensures ReadCall(m.(cache := cache)) == StepWithCache(ReadCall(m), cache)
  {
    hide BoundsFail, PutBytes, Delivered;
  }

  lemma WriteIgnoresCache(m: Machine, cache: Cache)
    ensures WriteCall(m.(cache := cache)) == StepWithCache(WriteCall(m), cache)
  {
    hide BoundsFail;
  }

  /** Every instruction but FLUSH ignores the cache. */
  lemma ExecIgnoresCache(m: Machine, i: Instr, cache: Cache)
    requires !i.Flush?
    ensures Exec(m.(cache := cache), i) == StepWithCache(Exec(m, i), cache)
  {
    hide Effect, ExecSyscall, BranchTarget, JumpTarget;
    if i.Syscall? {
      SyscallIgnoresCache(m, cache);
    } else if !EndsBlock(i) {
      EffectIgnoresCache(m, i, cache);
    }
  }

  /** Instructions act alike on a machine and on its core. */
  lemma CoreExec(m: Machine, i: Instr)
    ensures Exec(Core(m), i) == CoreStep(Exec(m, i))
  {
    if i.Flush? {
      CoreInvalidateAll(m.cache, m.mem.dirty);
    } else {
      hide Exec, CoreCache;
      ExecIgnoresCache(m, i, CoreCache(m.cache));
      ExecCache(m, i);
    }
  }

  lemma {:induction false} CoreRunFrom(m: Machine, instrs: seq<Instr>, k: nat)
    requires k <= |instrs|
    ensures RunFrom(Core(m), instrs, k) == CoreStep(RunFrom(m, instrs, k))
    decreases |instrs| - k
  {
    hide Exec, Core;
    if k < |instrs| {
      CoreExec(m, instrs[k]);
      if Exec(m, instrs[k]).Ok? {
        CoreRunFrom(Exec(m, instrs[k]).m, instrs, k + 1);
      }
    }
  }

  lemma {:induction false} CoreRaisedAt(m: Machine, instrs: seq<Instr>, k: nat)
    requires k <= |instrs|
    ensures RaisedAt(Core(m), instrs, k) == RaisedAt(m, instrs, k)
    decreases |instrs| - k
  {
    hide Exec, Core;
    if k < |instrs| {
      CoreExec(m, instrs[k]);
      if Exec(m, instrs[k]).Ok? {
        CoreRaisedAt(Exec(m, instrs[k]).m, instrs, k + 1);
      }
    }
  }

  /** A switch step on the core, from a machine whose lookup succeeds. */
  lemma CoreSwitchStep(m: Machine)
    ensures SwitchStep(Core(m)) == CoreProgress(SwitchStep(m))
  {
    hide GetBlock, RunFrom;
    CoreGetBlock(m.cache, m.mem, m.pc);
    match GetBlock(m.cache, m.mem, m.pc)
    case Missing(_, _) =>
    case Found(cache) =>
      CoreRunFrom(m.(cache := cache), cache.blocks[m.pc].instrs, 0);
  }

  // ---- what translated code makes of a fault ----

  /** The instructions of the block that a lookup at the PC finds; none if the lookup fails. */
  function BlockAtPc(m: Machine): seq<Instr> {
    match GetBlock(m.cache, m.mem, m.pc)
    case Missing(_, _) => []
    case Found(cache) => cache.blocks[m.pc].instrs
  }

  /** The PC that translated code leaves where a switch step from `m` throws. */
  function SwallowedPc(m: Machine): Word {
    var instrs := BlockAtPc(m);
    var k := RaisedAt(m, instrs, 0);
    if k < |instrs| then FaultPc(instrs[k], SwitchStep(m).m.pc, m.pc) else m.pc
  }

  /** A switch step from `m` as the JIT shows it: only a cold block rethrows its error. */
  function Shown(m: Machine, cold: bool, s: Progress): Progress {
    if s.Threw? && !cold then Ran(s.m.(pc := SwallowedPc(m))) else s
  }

  /** The next block is run by threaded code. */
  predicate RunsCold(c: Config, threshold: nat) {
    c.next == 0 &&
    match GetBlock(c.m.cache, c.m.mem, c.m.pc)
    case Missing(_, _) => false
    case Found(cache) => StaysCold(cache.blocks[c.m.pc], threshold)
  }

  lemma CoreSwallowedPc(m: Machine)
    ensures SwallowedPc(Core(m)) == SwallowedPc(m)
  {
    hide GetBlock, RaisedAt, SwitchStep;
    CoreGetBlock(m.cache, m.mem, m.pc);
    CoreRaisedAt(m, BlockAtPc(m), 0);
    CoreSwitchStep(m);
  }

  // ---- one block ----

  /** The chaining invariant: a pending entry is the slot of the PC of a running machine. */
  predicate ConfigOk(c: Config) {
    && MachineOk(c.m)
    && (c.next != 0 ==> c.m.status == RUNNING && c.m.pc in c.m.cache.entries && c.m.cache.entries[c.m.pc] == c.next)
  }

  /** The code a chain is about to enter is mapped and belongs to the valid block at the PC. */
  lemma ChainEntersLiveCode(c: Config)
    requires ConfigOk(c) && c.next != 0
    ensures HasValid(c.m.cache, c.m.pc) && c.m.cache.blocks[c.m.pc].code == c.next
    ensures c.next in c.m.cache.native
    ensures c.m.cache.native[c.next] == Compile(c.m.pc, c.m.cache.blocks[c.m.pc].instrs)
  {
    hide Compile, SlotsOf, WellShaped;
  }

  /** A JIT step without its pending entry; None if it is stuck. */
  function CoreJit(j: JitProgress): Option<Progress> {
    match j
    case JitRan(c) => Some(Ran(Core(c.m)))
    case JitThrew(m, code) => Some(Threw(Core(m), code))
    case JitFetchError(m, code) => Some(FetchError(Core(m), code))
    case Crash => None
  }

  predicate StepOk(j: JitProgress) {
    match j
    case JitRan(c) => ConfigOk(c)
    case JitThrew(m, _) => MachineOk(m) && m.status == FAULTED
    case JitFetchError(m, _) => MachineOk(m)
    case Crash => false
  }

  /** The block at the PC, valid and translated. */
  predicate Translated(m: Machine) {
    && MachineOk(m) && m.status == RUNNING
    && HasValid(m.cache, m.pc) && m.cache.blocks[m.pc].code != 0
  }

  /** A switch step from a cached block runs that block. */
  lemma SwitchStepCached(m: Machine)
    requires HasValid(m.cache, m.pc)
    ensures SwitchStep(m) == Settle(RunFrom(m, m.cache.blocks[m.pc].instrs, 0))
  {
    assert m.(cache := m.cache) == m;
  }

  lemma NativeResultOk(r: Result, s: Step, instrs: seq<Instr>, k: nat, entry: Word)
    requires instrs != [] && BlockAgrees(r, s, instrs, k, entry) && MachineOk(s.m)
    ensures StepOk(AfterNative(r))
    ensures match s
      case Ok(m) => CoreJit(AfterNative(r)) == Some(Ran(Core(m)))
      case Raise(m, _) =>
        k < |instrs| && CoreJit(AfterNative(r)) == Some(Ran(Core(Fault(m)).(pc := FaultPc(instrs[k], m.pc, entry))))
  {
    hide CacheOk, CoreCache;
  }

  lemma TranslatedBlock(m: Machine)
    requires Translated(m)
    ensures var b := m.cache.blocks[m.pc];
      && b.instrs != [] && TerminatorsLast(b.instrs) && SlotsExist(m, m.pc, b.instrs)
      && b.code in m.cache.native && m.cache.native[b.code] == Compile(m.pc, b.instrs)
  {
    hide Compile, SlotsOf;
  }

  /** Running the translation of the block at the PC against one switch step. */
  lemma NativeStep(m: Machine)
    requires Translated(m)
    ensures StepOk(AfterNative(RunNative(m, m.cache.blocks[m.pc].code)))
    ensures CoreJit(AfterNative(RunNative(m, m.cache.blocks[m.pc].code)))
         == Some(Shown(Core(m), false, SwitchStep(Core(m))))
  {
    hide MachineOk, Compile, Eval, RunFrom, RaisedAt, BlockAgrees, SlotsExist, CoreCache, SwitchStep;
    var b := m.cache.blocks[m.pc];
    TranslatedBlock(m);
    CompileCorrect(m, m.pc, b.instrs);
    var s := RunFrom(m, b.instrs, 0);
    RunFromOk(m, b.instrs, 0);
    NativeResultOk(RunNative(m, b.code), s, b.instrs, RaisedAt(m, b.instrs, 0), m.pc);
    SwitchStepCached(m);
    CoreSwitchStep(m);
    CoreSwallowedPc(m);
    BlockAtPcCached(m);
  }

  lemma BlockAtPcCached(m: Machine)
    requires HasValid(m.cache, m.pc)
    ensures BlockAtPc(m) == m.cache.blocks[m.pc].instrs
  {
  }

  /** Running the block at the PC in threaded code against one switch step. */
  lemma ThreadedBlockStep(m: Machine)
    requires MachineOk(m) && m.status == RUNNING && HasValid(m.cache, m.pc)
    ensures m.cache.blocks[m.pc].instrs != []
    ensures var p := AfterThreaded(Settle(ThreadFrom(m, m.cache.blocks[m.pc].instrs, 0)));
      StepOk(p) && CoreJit(p) == Some(SwitchStep(Core(m)))
  {
    var b := m.cache.blocks[m.pc];
    assert b.instrs != [] && TerminatorsLast(b.instrs);
    hide MachineOk, RunFrom, ThreadFrom, HasValid, CacheOk, Core;
    ThreadedIsSwitch(m, b.instrs, 0);
    RunFromOk(m, b.instrs, 0);
    SwitchStepCached(m);
    CoreSwitchStep(m);
    FaultOk(RunFrom(m, b.instrs, 0).m);
  }

  lemma FaultOk(m: Machine)
    requires MachineOk(m)
    ensures MachineOk(Fault(m))
  {
  }

  /** The counter and the translation are invisible to the core. */
  lemma CoreOfRecord(cache: Cache, address: Word)
    requires address in cache.blocks
    ensures CoreCache(RecordExecution(cache, address)) == CoreCache(cache)
    ensures HasValid(RecordExecution(cache, address), address) == HasValid(cache, address)
    ensures RecordExecution(cache, address).blocks[address].instrs == cache.blocks[address].instrs
  {
  }

  lemma CoreOfCompile(cache: Cache, address: Word)
    requires address in cache.blocks && cache.nextHandle != 0
    ensures CoreCache(CompileInto(cache, address)) == CoreCache(cache)
    ensures HasValid(CompileInto(cache, address), address) == HasValid(cache, address)
    ensures CompileInto(cache, address).blocks[address].code != 0
  {
    hide Compile, SlotsOf, OpenSlots;
  }

  /** Entering a cached block, by whichever engine the threshold chooses. */
  lemma EnterBlockStep(m: Machine, threshold: nat)
    requires MachineOk(m) && m.status == RUNNING && HasValid(m.cache, m.pc)
    ensures StepOk(EnterBlock(m, threshold))
    ensures CoreJit(EnterBlock(m, threshold))
         == Some(Shown(Core(m), StaysCold(m.cache.blocks[m.pc], threshold), SwitchStep(Core(m))))
  {
    hide CacheOk, SwallowedPc, RunNative, ThreadFrom, CoreCache, CompileInto, RecordExecution, Settle, SwitchStep;
    var b := m.cache.blocks[m.pc];
    if StaysCold(b, threshold) {
      var m1 := m.(cache := RecordExecution(m.cache, m.pc));
      RecordExecutionOk(m.cache, |m.mem.bytes|, m.pc);
      CoreOfRecord(m.cache, m.pc);
      ThreadedBlockStep(m1);
    } else if b.code == 0 {
      var m1 := m.(cache := CompileInto(m.cache, m.pc));
      CompileIntoOk(m.cache, |m.mem.bytes|, m.pc);
      HandlesPositive(m);
      CoreOfCompile(m.cache, m.pc);
      BlockShape(m);
      NativeStep(m1);
    } else {
      BlockShape(m);
      assert m.(cache := m.cache) == m;
      NativeStep(m);
    }
  }

  lemma HandlesPositive(m: Machine)
    requires MachineOk(m)
    ensures m.cache.nextHandle != 0
  {
  }

  lemma BlockShape(m: Machine)
    requires MachineOk(m) && m.pc in m.cache.blocks
    ensures var instrs := m.cache.blocks[m.pc].instrs;
      instrs != [] && TerminatorsLast(instrs) && m.pc + 4 * |instrs| < 0x1_0000_0000
  {
  }

  /** A lookup does not change what the next switch step does. */
  lemma SwitchStepAfterLookup(m: Machine, cache: Cache)
    requires GetBlock(m.cache, m.mem, m.pc) == Found(cache)
    ensures SwitchStep(m.(cache := cache)) == SwitchStep(m)
    ensures SwallowedPc(m.(cache := cache)) == SwallowedPc(m)
  {
    hide RunFrom, RaisedAt;
    var m1 := m.(cache := cache);
    SwitchStepCached(m1);
    RaisedAtIgnoresCache(m, BlockAtPc(m), 0, cache);
  }

  /** Where a block with terminators in last place raises does not depend on the cache. */
  lemma {:induction false} RaisedAtIgnoresCache(m: Machine, instrs: seq<Instr>, k: nat, cache: Cache)
    requires k <= |instrs|
    ensures RaisedAt(m.(cache := cache), instrs, k) == RaisedAt(m, instrs, k)
    decreases |instrs| - k
  {
    hide Exec;
    if k < |instrs| {
      ExecModuloCache(m, instrs[k], cache);
      if Exec(m, instrs[k]).Ok? {
        RaisedAtIgnoresCache(Exec(m, instrs[k]).m, instrs, k + 1, Exec(m.(cache := cache), instrs[k]).m.cache);
      }
    }
  }

  lemma ExecModuloCache(m: Machine, i: Instr, cache: Cache)
    ensures var after := Exec(m.(cache := cache), i);
      after == StepWithCache(Exec(m, i), after.m.cache)
  {
    if !i.Flush? {
      hide Exec;
      ExecIgnoresCache(m, i, cache);
    } else {
      hide InvalidateAll;
    }
  }

  /**
    One JIT step, in the chain or from the loop, is one switch step from the same core:
    same registers, memory, dirty ranges, host, status, exit code, blocks, PC and error.
    The one difference: unless the block ran cold, a fault throws nothing, and its PC is
    the one of `SwallowedPc`. The invariants hold again, and nothing is ever stuck. It
    holds for every threshold and for code that stores have made stale.
  */
  lemma JitStepSimulates(c: Config, threshold: nat)
    requires ConfigOk(c) && c.m.status == RUNNING
    ensures StepOk(JitStep(c, threshold))
    ensures CoreJit(JitStep(c, threshold)) == Some(Shown(Core(c.m), RunsCold(c, threshold), SwitchStep(Core(c.m))))
  {
    hide MachineOk, CoreCache, SwallowedPc, RunNative, EnterBlock, GetBlock, SwitchStep;
    if c.next != 0 {
      ChainEntersLiveCode(c);
      NativeStep(c.m);
    } else {
      MachineOkIs(c.m);
      GetBlockOk(c.m.cache, c.m.mem, c.m.pc);
      match GetBlock(c.m.cache, c.m.mem, c.m.pc)
      case Missing(cache, code) =>
        MachineOkIs(c.m.(cache := cache));
        CoreSwitchStep(c.m);
        SwitchStepMissing(c.m);
      case Found(cache) =>
        var m1 := c.m.(cache := cache);
        MachineOkIs(m1);
        EnterBlockStep(m1, threshold);
        SwitchStepAfterLookup(c.m, cache);
        CoreSwitchStep(c.m);
        CoreSwitchStep(m1);
        CoreSwallowedPc(c.m);
        CoreSwallowedPc(m1);
    }
  }

  lemma MachineOkIs(m: Machine)
    ensures MachineOk(m) <==> CacheOk(m.cache, |m.mem.bytes|)
  {
  }

  lemma SwitchStepMissing(m: Machine)
    requires GetBlock(m.cache, m.mem, m.pc).Missing?
    ensures var l := GetBlock(m.cache, m.mem, m.pc);
      SwitchStep(m) == FetchError(m.(cache := l.cache), l.code)
  {
  }
}
