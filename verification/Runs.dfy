/** Whole runs: the JIT against the switch engine, thresholds, and stopping. */
module Runs {
  import opened Words
  import opened BitOperations
  import opened Instructions
  import opened GuestMemory
  import opened MachineState
  import opened CacheSpec
  import opened Executor
  import opened Interpreters
  import opened IrEval
  import opened JitSpec
  import opened JitEngine
  import opened JitCorrect
  import opened CacheInvariants
  import opened Simulation

  /** How a run ends: stopped, or with an error raised by a block or by a fetch. */
  datatype Ending = Stopped | Raised(code: ErrorCode) | FetchFailed(code: ErrorCode) | Crashed

  /** A run cut off after some number of blocks, or one that is over. */
  datatype Outcome = Going(m: Machine) | Over(m: Machine, ending: Ending)

  /** The interpreter loop with the switch engine, for at most `n` blocks. */
  function SwitchRun(m: Machine, n: nat): Outcome
    decreases n
  {
    if m.status != RUNNING then Over(m, Stopped)
    else if n == 0 then Going(m)
    else
      match SwitchStep(m)
      case Ran(m1) => SwitchRun(m1, n - 1)
      case Threw(m1, code) => Over(m1, Raised(code))
      case FetchError(m1, code) => Over(m1, FetchFailed(code))
  }

  /** The interpreter loop with the JIT engine, chains included, for at most `n` blocks. */
  function JitRun(c: Config, threshold: nat, n: nat): Outcome
    decreases n
  {
    if c.next == 0 && c.m.status != RUNNING then Over(c.m, Stopped)
    else if n == 0 then Going(c.m)
    else
      match JitStep(c, threshold)
      case JitRan(c1) => JitRun(c1, threshold, n - 1)
      case JitThrew(m1, code) => Over(m1, Raised(code))
      case JitFetchError(m1, code) => Over(m1, FetchFailed(code))
      case Crash => Over(c.m, Crashed)
  }

  /** The machine at the last block entry of a switch run of at most `n` blocks. */
  function SwitchLast(m: Machine, n: nat): Machine
    decreases n
  {
    if n > 1 && SwitchStep(m).Ran? && SwitchStep(m).m.status == RUNNING then SwitchLast(SwitchStep(m).m, n - 1) else m
  }

  /** The configuration at the last block entry of a JIT run of at most `n` blocks. */
  function JitLast(c: Config, threshold: nat, n: nat): Config
    decreases n
  {
    if n > 1 && JitStep(c, threshold).JitRan? && JitStep(c, threshold).c.m.status == RUNNING
    then JitLast(JitStep(c, threshold).c, threshold, n - 1)
    else c
  }

  function CoreOutcome(o: Outcome): Outcome {
    match o
    case Going(m) => Going(Core(m))
    case Over(m, e) => Over(Core(m), e)
  }

  /** A switch run as the JIT shows it: an error is rethrown only if the last block ran cold. */
  function ShownRun(m: Machine, n: nat, cold: bool): Outcome {
    var s := SwitchRun(m, n);
    if s.Over? && s.ending.Raised? && !cold then Over(s.m.(pc := SwallowedPc(SwitchLast(m, n))), Stopped) else s
  }

  lemma ThrewIsFaulted(m: Machine)
    ensures SwitchStep(m).Threw? ==> SwitchStep(m).m.status == FAULTED
  {
    hide GetBlock, RunFrom;
  }

  /**
    Whole runs. After any number of blocks, for any threshold, the JIT run is the switch
    run from the same core: both going on, or both over, with the same registers, memory,
    dirty ranges, host, status, exit code, blocks, PC and ending. The one difference: a
    fault in a block that did not run cold ends the run without an error, and with the PC
    of `SwallowedPc`.
  */
  lemma {:induction false} JitRunSimulates(c: Config, threshold: nat, n: nat)
    requires ConfigOk(c)
    ensures CoreOutcome(JitRun(c, threshold, n))
         == ShownRun(Core(c.m), n, RunsCold(JitLast(c, threshold, n), threshold))
    decreases n
  {
    hide JitStep, SwitchStep, MachineOk, CoreCache, SwallowedPc, RunsCold;
    if c.m.status == RUNNING && n > 0 {
      JitStepSimulates(c, threshold);
      ThrewIsFaulted(Core(c.m));
      match JitStep(c, threshold)
      case JitRan(c1) =>
        if SwitchStep(Core(c.m)).Ran? {
          JitRunSimulates(c1, threshold, n - 1);
        }
      case _ =>
    }
  }

  /** The last block entries of both runs have the same core. */
  lemma {:induction false} JitLastCore(c: Config, threshold: nat, n: nat)
    requires ConfigOk(c) && c.m.status == RUNNING
    ensures ConfigOk(JitLast(c, threshold, n)) && JitLast(c, threshold, n).m.status == RUNNING
    ensures Core(JitLast(c, threshold, n).m) == SwitchLast(Core(c.m), n)
    decreases n
  {
    hide JitStep, SwitchStep, MachineOk, CoreCache, SwallowedPc, RunsCold;
    JitStepSimulates(c, threshold);
    ThrewIsFaulted(Core(c.m));
    if n > 1 && JitStep(c, threshold).JitRan? && JitStep(c, threshold).c.m.status == RUNNING {
      JitLastCore(JitStep(c, threshold).c, threshold, n - 1);
    }
  }

  /** A context as it is after loading a program: an empty cache, nothing translated. */
  predicate Loaded(m: Machine) {
    m.status == RUNNING && m.exitCode == 0 && m.cache == Cache(map[], map[], map[], 1)
  }

  lemma LoadedOk(m: Machine)
    requires Loaded(m)
    ensures MachineOk(m) && ConfigOk(Config(m, 0)) && Core(m) == m
  {
  }

  /** Programs behave alike under the JIT with any threshold and under the switch engine. */
  lemma JitProgramSimulates(m: Machine, threshold: nat, n: nat)
    requires Loaded(m)
    ensures CoreOutcome(JitRun(Config(m, 0), threshold, n))
         == ShownRun(m, n, RunsCold(JitLast(Config(m, 0), threshold, n), threshold))
  {
    LoadedOk(m);
    JitRunSimulates(Config(m, 0), threshold, n);
  }

  /** What a user sees of a machine. */
  predicate SameObservation(a: Machine, b: Machine) {
    && a.regs == b.regs && a.mem == b.mem && a.host == b.host
    && a.status == b.status && a.exitCode == b.exitCode
    && (a.status != FAULTED ==> a.pc == b.pc)
  }

  /**
    The threshold changes neither whether and when a run ends nor what it leaves; the PC
    of a fault depends only on whether the error was rethrown.
  */
  lemma ThresholdIndependence(c: Config, t: nat, u: nat, n: nat)
    requires ConfigOk(c)
    ensures JitRun(c, t, n).Over? <==> JitRun(c, u, n).Over?
    ensures SameObservation(JitRun(c, t, n).m, JitRun(c, u, n).m)
    ensures JitRun(c, t, n).Over? && JitRun(c, t, n).ending == JitRun(c, u, n).ending ==>
      JitRun(c, t, n).m.pc == JitRun(c, u, n).m.pc
  {
    hide JitRun, SwitchRun, SwitchLast, JitLast, RunsCold, CoreCache, SwallowedPc;
    JitRunSimulates(c, t, n);
    JitRunSimulates(c, u, n);
    SwitchRaisesFaulted(Core(c.m), n);
  }

  lemma {:induction false} SwitchRaisesFaulted(m: Machine, n: nat)
    ensures SwitchRun(m, n).Over? && SwitchRun(m, n).ending.Raised? ==> SwitchRun(m, n).m.status == FAULTED
    decreases n
  {
    hide GetBlock, RunFrom;
    if m.status == RUNNING && n > 0 && SwitchStep(m).Ran? {
      SwitchRaisesFaulted(SwitchStep(m).m, n - 1);
    }
  }

  // ---- one call of the JIT, with its whole chain ----

  /** Follow a chain for at most `fuel` blocks; the number of blocks that ran. */
  function Chain(c: Config, threshold: nat, fuel: nat): (r: (JitProgress, nat))
    ensures r.1 <= fuel
    decreases fuel
  {
    if c.next == 0 || fuel == 0 then (JitRan(c), 0)
    else
      var p := JitStep(c, threshold);
      if !p.JitRan? then (p, 1)
      else
        var rest := Chain(p.c, threshold, fuel - 1);
        (rest.0, rest.1 + 1)
  }

  /** One step of the interpreter loop in JIT mode. */
  function JitCall(m: Machine, threshold: nat, fuel: nat): (JitProgress, nat) {
    var p := JitStep(Config(m, 0), threshold);
    if !p.JitRan? then (p, 1)
    else
      var rest := Chain(p.c, threshold, fuel);
      (rest.0, rest.1 + 1)
  }

  /** A run of `n` blocks goes on where a chain of at most `n` blocks leaves it. */
  lemma {:induction false} RunAfterChain(c: Config, threshold: nat, n: nat, fuel: nat)
    requires fuel <= n
    ensures var (p, k) := Chain(c, threshold, fuel);
      (p.JitRan? && p.c.next != 0 ==> k == fuel) && k <= n && JitRun(c, threshold, n) ==
        match p
        case JitRan(c1) => JitRun(c1, threshold, n - k)
        case JitThrew(m1, code) => Over(m1, Raised(code))
        case JitFetchError(m1, code) => Over(m1, FetchFailed(code))
        case Crash => JitRun(c, threshold, n)
    decreases fuel
  {
    hide JitStep;
    if c.next != 0 && fuel > 0 {
      match JitStep(c, threshold)
      case JitRan(c1) => RunAfterChain(c1, threshold, n - 1, fuel - 1);
      case _ =>
    }
  }

  /** The same for a whole call of the JIT from the interpreter loop. */
  lemma RunAfterCall(m: Machine, threshold: nat, n: nat)
    requires n > 0 && m.status == RUNNING
    ensures var (p, k) := JitCall(m, threshold, n - 1);
      (p.JitRan? && p.c.next != 0 ==> k == n) && 0 < k <= n && JitRun(Config(m, 0), threshold, n) ==
        match p
        case JitRan(c1) => JitRun(c1, threshold, n - k)
        case JitThrew(m1, code) => Over(m1, Raised(code))
        case JitFetchError(m1, code) => Over(m1, FetchFailed(code))
        case Crash => JitRun(Config(m, 0), threshold, n)
  {
    hide JitStep;
    match JitStep(Config(m, 0), threshold)
    case JitRan(c1) => RunAfterChain(c1, threshold, n - 1, n - 1);
    case _ =>
  }

  /** `k` switch steps in a row, all but the last of which leave the machine running. */
  function SwitchSteps(m: Machine, k: nat): Progress
    requires k > 0
    decreases k
  {
    if k == 1 then SwitchStep(m)
    else
      match SwitchStep(m)
      case Ran(m1) => if m1.status == RUNNING then SwitchSteps(m1, k - 1) else Ran(m1)
      case other => other
  }

  /** `k` switch steps in a row as the JIT shows them when it starts from `c`. */
  function ShownSteps(c: Config, threshold: nat, k: nat): Progress
    requires k > 0
  {
    Shown(SwitchLast(Core(c.m), k), RunsCold(JitLast(c, threshold, k), threshold), SwitchSteps(Core(c.m), k))
  }

  lemma {:induction false} ChainIsSwitchSteps(c: Config, threshold: nat, fuel: nat)
    requires ConfigOk(c)
    ensures var (p, k) := Chain(c, threshold, fuel);
      StepOk(p) &&
      if k == 0 then p == JitRan(c)
      else c.m.status == RUNNING && CoreJit(p) == Some(ShownSteps(c, threshold, k))
    decreases fuel
  {
    hide JitStep, SwitchStep, MachineOk, CoreCache, SwallowedPc, RunsCold;
    if c.next != 0 && fuel > 0 {
      JitStepSimulates(c, threshold);
      ThrewIsFaulted(Core(c.m));
      match JitStep(c, threshold)
      case JitRan(c1) => ChainIsSwitchSteps(c1, threshold, fuel - 1);
      case _ =>
    }
  }

  /**
    A JIT step, chain loop included, equals one or more switch steps, up to the error and
    the PC of a fault in translated code. This covers blocks that stores have overwritten
    but no FLUSH has invalidated.
  */
  lemma JitCallIsSwitchSteps(m: Machine, threshold: nat, fuel: nat)
    requires MachineOk(m) && m.status == RUNNING
    ensures var (p, k) := JitCall(m, threshold, fuel);
      k >= 1 && StepOk(p) && CoreJit(p) == Some(ShownSteps(Config(m, 0), threshold, k))
  {
    hide JitStep, SwitchStep, MachineOk, CoreCache, SwallowedPc, RunsCold;
    var c := Config(m, 0);
    JitStepSimulates(c, threshold);
    ThrewIsFaulted(Core(m));
    match JitStep(c, threshold)
    case JitRan(c1) => ChainIsSwitchSteps(c1, threshold, fuel);
    case _ =>
  }

  // ---- thresholds and counters ----

  /** Counters never pass the threshold; a translated block has reached it. */
  predicate CountersOk(cache: Cache, threshold: nat) {
    forall a :: a in cache.blocks ==>
      && cache.blocks[a].count <= threshold
      && (cache.blocks[a].code != 0 ==> cache.blocks[a].count == threshold)
  }

  lemma {:induction false} InvalidateAllCounters(cache: Cache, ranges: seq<CodeRange>, threshold: nat)
    requires CountersOk(cache, threshold)
    ensures CountersOk(InvalidateAll(cache, ranges), threshold)
    decreases |ranges|
  {
    hide Hit;
    if ranges != [] {
      InvalidateAllCounters(InvalidateRange(cache, ranges[0]), ranges[1..], threshold);
    }
  }

  lemma {:induction false} RunFromCounters(m: Machine, instrs: seq<Instr>, k: nat, threshold: nat)
    requires k <= |instrs| && CountersOk(m.cache, threshold)
    ensures CountersOk(RunFrom(m, instrs, k).m.cache, threshold)
    decreases |instrs| - k
  {
    hide Exec, CountersOk;
    if k < |instrs| {
      ExecCache(m, instrs[k]);
      InvalidateAllCounters(m.cache, m.mem.dirty, threshold);
      if Exec(m, instrs[k]).Ok? {
        RunFromCounters(Exec(m, instrs[k]).m, instrs, k + 1, threshold);
      }
    }
  }

  lemma GetBlockCounters(cache: Cache, mem: Mem, address: Word, threshold: nat)
    requires CountersOk(cache, threshold)
    ensures CountersOk(GetBlock(cache, mem, address).cache, threshold)
  {
    hide DecodeBlock;
  }

  lemma NativeCounters(m: Machine, threshold: nat)
    requires Translated(m) && CountersOk(m.cache, threshold)
    ensures var r := RunNative(m, m.cache.blocks[m.pc].code);
      r.Returned? && CountersOk(r.m.cache, threshold)
  {
    hide MachineOk, Compile, Eval, RunFrom, SlotsExist, CountersOk;
    var b := m.cache.blocks[m.pc];
    TranslatedBlock(m);
    CompileCorrect(m, m.pc, b.instrs);
    RunFromCounters(m, b.instrs, 0, threshold);
  }

  lemma ThreadedCounters(m: Machine, threshold: nat)
    requires MachineOk(m) && HasValid(m.cache, m.pc) && CountersOk(m.cache, threshold)
    ensures m.cache.blocks[m.pc].instrs != []
    ensures CountersOk(ThreadFrom(m, m.cache.blocks[m.pc].instrs, 0).m.cache, threshold)
  {
    var b := m.cache.blocks[m.pc];
    assert b.instrs != [] && TerminatorsLast(b.instrs);
    hide MachineOk, RunFrom, ThreadFrom, CountersOk, CacheOk;
    ThreadedIsSwitch(m, b.instrs, 0);
    RunFromCounters(m, b.instrs, 0, threshold);
  }

  lemma CompileCounters(cache: Cache, address: Word, threshold: nat)
    requires address in cache.blocks && CountersOk(cache, threshold)
    requires cache.blocks[address].code == 0 && cache.blocks[address].count >= threshold
    ensures CountersOk(CompileInto(cache, address), threshold)
  {
    hide Compile, SlotsOf, OpenSlots;
  }

  lemma RecordCounters(cache: Cache, address: Word, threshold: nat)
    requires address in cache.blocks && CountersOk(cache, threshold)
    requires cache.blocks[address].code == 0 && cache.blocks[address].count < threshold
    ensures CountersOk(RecordExecution(cache, address), threshold)
  {
  }

  /** The cache a JIT step leaves. */
  function CacheAfter(p: JitProgress): Option<Cache> {
    match p
    case JitRan(c) => Some(c.m.cache)
    case JitThrew(m, _) => Some(m.cache)
    case JitFetchError(m, _) => Some(m.cache)
    case Crash => None
  }

  predicate CountersAfter(p: JitProgress, threshold: nat) {
    CacheAfter(p).Some? && CountersOk(CacheAfter(p).value, threshold)
  }

  lemma EnterBlockCounters(m: Machine, threshold: nat)
    requires MachineOk(m) && m.status == RUNNING && HasValid(m.cache, m.pc) && CountersOk(m.cache, threshold)
    ensures CountersAfter(EnterBlock(m, threshold), threshold)
  {
    hide CacheOk, RunNative, ThreadFrom, CompileInto, RecordExecution;
    var b := m.cache.blocks[m.pc];
    BlockShape(m);
    if StaysCold(b, threshold) {
      RecordExecutionOk(m.cache, |m.mem.bytes|, m.pc);
      RecordCounters(m.cache, m.pc, threshold);
      CoreOfRecord(m.cache, m.pc);
      ThreadedCounters(m.(cache := RecordExecution(m.cache, m.pc)), threshold);
    } else if b.code == 0 {
      CompileIntoOk(m.cache, |m.mem.bytes|, m.pc);
      CompileCounters(m.cache, m.pc, threshold);
      HandlesPositive(m);
      CoreOfCompile(m.cache, m.pc);
      NativeCounters(m.(cache := CompileInto(m.cache, m.pc)), threshold);
    } else {
      assert m.(cache := m.cache) == m;
      NativeCounters(m, threshold);
    }
  }

  /** Every JIT step keeps counters within the threshold and translates only hot blocks. */
  lemma JitStepCounters(c: Config, threshold: nat)
    requires ConfigOk(c) && c.m.status == RUNNING && CountersOk(c.m.cache, threshold)
    ensures CountersAfter(JitStep(c, threshold), threshold)
  {
    hide MachineOk, CountersOk, RunNative, EnterBlock, GetBlock;
    if c.next != 0 {
      ChainEntersLiveCode(c);
      NativeCounters(c.m, threshold);
    } else {
      MachineOkIs(c.m);
      GetBlockOk(c.m.cache, c.m.mem, c.m.pc);
      GetBlockCounters(c.m.cache, c.m.mem, c.m.pc, threshold);
      match GetBlock(c.m.cache, c.m.mem, c.m.pc)
      case Missing(_, _) =>
      case Found(cache) =>
        MachineOkIs(c.m.(cache := cache));
        EnterBlockCounters(c.m.(cache := cache), threshold);
    }
  }

  /**
    At every point of every run: a slot is non-null exactly for a valid translated block
    and holds its entry, mapped code belongs to exactly one block, and counters stay
    within the threshold.
  */
  lemma {:induction false} JitRunInvariant(c: Config, threshold: nat, n: nat)
    requires ConfigOk(c) && CountersOk(c.m.cache, threshold)
    ensures MachineOk(JitRun(c, threshold, n).m)
    ensures CountersOk(JitRun(c, threshold, n).m.cache, threshold)
    ensures JitRun(c, threshold, n).Over? ==> !JitRun(c, threshold, n).ending.Crashed?
    decreases n
  {
    hide JitStep, MachineOk, CountersOk;
    if c.m.status == RUNNING && n > 0 {
      JitStepSimulates(c, threshold);
      JitStepCounters(c, threshold);
      match JitStep(c, threshold)
      case JitRan(c1) => JitRunInvariant(c1, threshold, n - 1);
      case _ =>
    }
  }

  /** The threaded engine takes the same steps as the switch engine, faults included. */
  lemma ThreadedStepIsSwitchStep(m: Machine)
    requires MachineOk(m)
    ensures ThreadedStep(m) == SwitchStep(m)
  {
    hide MachineOk, RunFrom, ThreadFrom, GetBlock;
    MachineOkIs(m);
    GetBlockOk(m.cache, m.mem, m.pc);
    match GetBlock(m.cache, m.mem, m.pc)
    case Missing(_, _) =>
    case Found(cache) =>
      var m1 := m.(cache := cache);
      MachineOkIs(m1);
      BlockShape(m1);
      ThreadedIsSwitch(m1, cache.blocks[m.pc].instrs, 0);
  }

  /** A switch step keeps the invariants. */
  lemma SwitchStepOk(m: Machine)
    requires MachineOk(m)
    ensures MachineOk(SwitchStep(m).m)
  {
    hide MachineOk, RunFrom, GetBlock;
    MachineOkIs(m);
    GetBlockOk(m.cache, m.mem, m.pc);
    match GetBlock(m.cache, m.mem, m.pc)
    case Missing(cache, _) => MachineOkIs(m.(cache := cache));
    case Found(cache) =>
      var m1, instrs := m.(cache := cache), cache.blocks[m.pc].instrs;
      MachineOkIs(m1);
      RunFromOk(m1, instrs, 0);
      FaultOk(RunFrom(m1, instrs, 0).m);
  }

  // ---- stopping ----

  /** Once a run has halted or faulted, more blocks change nothing: none is entered, in the loop or in a chain. */
  lemma {:induction false} StopIsFinal(c: Config, threshold: nat, n: nat, more: nat)
    requires ConfigOk(c) && JitRun(c, threshold, n).m.status != RUNNING
    ensures JitRun(c, threshold, n).Over? && JitRun(c, threshold, n + more) == JitRun(c, threshold, n)
    decreases n
  {
    hide JitStep, MachineOk, CoreCache, SwallowedPc, RunsCold;
    if c.m.status == RUNNING && n > 0 {
      JitStepSimulates(c, threshold);
      if JitStep(c, threshold).JitRan? {
        StopIsFinal(JitStep(c, threshold).c, threshold, n - 1, more);
      }
    }
  }

  /** The same for the interpreters. */
  lemma {:induction false} SwitchStopIsFinal(m: Machine, n: nat, more: nat)
    requires SwitchRun(m, n).m.status != RUNNING
    ensures SwitchRun(m, n).Over? && SwitchRun(m, n + more) == SwitchRun(m, n)
    decreases n
  {
    hide SwitchStep;
    if m.status == RUNNING && n > 0 && SwitchStep(m).Ran? {
      SwitchStopIsFinal(SwitchStep(m).m, n - 1, more);
    }
  }

  /** Every instruction of the block from number `k` on that executes finds the machine running. */
  predicate OnlyRunning(m: Machine, instrs: seq<Instr>, k: nat)
    requires k <= |instrs|
    decreases |instrs| - k
  {
    k == |instrs| ||
    (m.status == RUNNING && (Exec(m, instrs[k]).Ok? ==> OnlyRunning(Exec(m, instrs[k]).m, instrs, k + 1)))
  }

  /** Inside a block nothing executes after a stop either: only its last instruction can stop the machine. */
  lemma {:induction false} BlockStopsLast(m: Machine, instrs: seq<Instr>, k: nat)
    requires k < |instrs| && TerminatorsLast(instrs) && m.status == RUNNING
    ensures OnlyRunning(m, instrs, k)
    decreases |instrs| - k
  {
    hide Exec;
    ExecStops(m, instrs[k]);
    if Exec(m, instrs[k]).Ok? && k + 1 < |instrs| {
      BlockStopsLast(Exec(m, instrs[k]).m, instrs, k + 1);
    }
  }

  predicate IsExit(m: Machine, i: Instr) {
    i.Syscall? && m.regs[8] == 60
  }

  /** Only an exit call stops a machine without raising, and it sets nothing but the exit code. */
  lemma ExecStops(m: Machine, i: Instr)
    requires m.status == RUNNING
    ensures IsExit(m, i) ==> Exec(m, i) == Ok(m.(status := HALTED, exitCode := m.regs[0]))
    ensures !IsExit(m, i) ==> Exec(m, i).m.status == RUNNING && Exec(m, i).m.exitCode == m.exitCode
  {
    hide SaturateSigned, RotateRight, Compress32, Clz32, Or32, InvalidateAll, Read32, Write32, Delivered, PutBytes;
  }

  /** A halted machine called exit with its exit code in register 0. */
  predicate ExitsOk(m: Machine) {
    if m.status == HALTED then m.regs[8] == 60 && m.exitCode == m.regs[0] else m.exitCode == 0
  }

  lemma {:induction false} RunFromExits(m: Machine, instrs: seq<Instr>, k: nat)
    requires k < |instrs| && TerminatorsLast(instrs) && m.status == RUNNING && ExitsOk(m)
    ensures ExitsOk(Settle(RunFrom(m, instrs, k)).m)
    decreases |instrs| - k
  {
    hide Exec;
    ExecStops(m, instrs[k]);
    if Exec(m, instrs[k]).Ok? && k + 1 < |instrs| {
      RunFromExits(Exec(m, instrs[k]).m, instrs, k + 1);
    }
  }

  lemma SwitchStepExits(m: Machine)
    requires MachineOk(m) && m.status == RUNNING && ExitsOk(m)
    ensures MachineOk(SwitchStep(m).m) && ExitsOk(SwitchStep(m).m)
  {
    MachineOkIs(m);
    GetBlockOk(m.cache, m.mem, m.pc);
    match GetBlock(m.cache, m.mem, m.pc)
    case Missing(cache, _) => MachineOkIs(m.(cache := cache));
    case Found(cache) =>
      var m1 := m.(cache := cache);
      MachineOkIs(m1);
      var b := cache.blocks[m.pc];
      assert b.instrs != [] && TerminatorsLast(b.instrs) by { BlockShape(m1); }
      hide RunFrom, MachineOk, CacheOk, GetBlock;
      RunFromOk(m1, b.instrs, 0);
      RunFromExits(m1, b.instrs, 0);
      FaultOk(RunFrom(m1, b.instrs, 0).m);
  }

  lemma {:induction false} SwitchRunExits(m: Machine, n: nat)
    requires MachineOk(m) && ExitsOk(m)
    ensures ExitsOk(SwitchRun(m, n).m)
    decreases n
  {
    hide SwitchStep, MachineOk;
    if m.status == RUNNING && n > 0 {
      SwitchStepExits(m);
      if SwitchStep(m).Ran? {
        SwitchRunExits(SwitchStep(m).m, n - 1);
      }
    }
  }

  /** In every JIT run of a program, HALTED comes from exit, with x0 as the exit code. */
  lemma HaltsByExit(m: Machine, threshold: nat, n: nat)
    requires Loaded(m)
    ensures ExitsOk(JitRun(Config(m, 0), threshold, n).m)
  {
    hide JitRun, SwitchRun;
    LoadedOk(m);
    JitProgramSimulates(m, threshold, n);
    SwitchRunExits(m, n);
  }
}
