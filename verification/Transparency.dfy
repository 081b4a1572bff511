/** Execution through the block cache against machines without one. */
module Transparency {
  import opened Words
  import opened Instructions
  import opened GuestMemory
  import opened MachineState
  import opened CacheSpec
  import opened Executor
  import opened Interpreters
  import opened CacheInvariants
  import opened Coherence
  import opened JitEngine
  import opened Simulation
  import opened Runs

  const NO_CACHE := Cache(map[], map[], map[], 1)

  /** The machine without its cache. */
  function Bare(m: Machine): Machine {
    m.(cache := NO_CACHE)
  }

  function BareStep(s: Step): Step {
    match s
    case Ok(m) => Ok(Bare(m))
    case Raise(m, code) => Raise(Bare(m), code)
  }

  function BareProgress(p: Progress): Progress {
    match p
    case Ran(m) => Ran(Bare(m))
    case Threw(m, code) => Threw(Bare(m), code)
    case FetchError(m, code) => FetchError(Bare(m), code)
  }

  function BareOutcome(o: Outcome): Outcome {
    match o
    case Going(m) => Going(Bare(m))
    case Over(m, e) => Over(Bare(m), e)
  }

  /** One block of a machine that decodes the block from memory at every entry. */
  function FreshStep(m: Machine): Progress {
    match DecodeBlock(m.mem, m.pc)
    case Failed(code) => FetchError(m, code)
    case Done(instrs) => Settle(RunFrom(m, instrs, 0))
  }

  function FreshRun(m: Machine, n: nat): Outcome
    decreases n
  {
    if m.status != RUNNING then Over(m, Stopped)
    else if n == 0 then Going(m)
    else
      match FreshStep(m)
      case Ran(m1) => FreshRun(m1, n - 1)
      case Threw(m1, code) => Over(m1, Raised(code))
      case FetchError(m1, code) => Over(m1, FetchFailed(code))
  }

  // ---- forgetting the cache ----

  lemma {:induction false} NothingToInvalidate(ranges: seq<CodeRange>)
    ensures InvalidateAll(NO_CACHE, ranges) == NO_CACHE
    decreases |ranges|
  {
    if ranges != [] {
      assert InvalidateRange(NO_CACHE, ranges[0]) == NO_CACHE;
      NothingToInvalidate(ranges[1..]);
    }
  }

  lemma BareExec(m: Machine, i: Instr)
    ensures Exec(Bare(m), i) == BareStep(Exec(m, i))
  {
    if i.Flush? {
      NothingToInvalidate(m.mem.dirty);
    } else {
      hide Exec;
      ExecIgnoresCache(m, i, NO_CACHE);
    }
  }

  lemma {:induction false} BareRunFrom(m: Machine, instrs: seq<Instr>, k: nat)
    requires k <= |instrs|
    ensures RunFrom(Bare(m), instrs, k) == BareStep(RunFrom(m, instrs, k))
    decreases |instrs| - k
  {
    hide Exec, Bare;
    if k < |instrs| {
      BareExec(m, instrs[k]);
      if Exec(m, instrs[k]).Ok? {
        BareRunFrom(Exec(m, instrs[k]).m, instrs, k + 1);
      }
    }
  }

  lemma BareReads(m: Machine, i: Instr)
    ensures ReadHitsCode(Bare(m)) == ReadHitsCode(m)
  {
    hide Delivered;
  }

  lemma {:induction false} BareReadsMissCode(m: Machine, instrs: seq<Instr>, k: nat)
    requires k <= |instrs| && ReadsMissCode(Bare(m), instrs, k)
    ensures ReadsMissCode(m, instrs, k)
    decreases |instrs| - k
  {
    hide Exec, Bare, ReadHitsCode;
    if k < |instrs| {
      BareReads(m, instrs[k]);
      BareExec(m, instrs[k]);
      if Exec(m, instrs[k]).Ok? {
        BareReadsMissCode(Exec(m, instrs[k]).m, instrs, k + 1);
      }
    }
  }

  // ---- one block ----

  /** Every word of the block lies in an executable region. */
  predicate AllCode(mem: Mem, start: Word, instrs: seq<Instr>) {
    forall k :: 0 <= k < |instrs| ==> Touches(mem.regions, start + 4 * k, 4)
  }

  /**
    A clean block entry: nothing is dirty, and the block that memory holds at the PC
    lies in executable regions and reads no input into one.
  */
  predicate CleanEntry(m: Machine) {
    && m.mem.dirty == []
    && match DecodeBlock(m.mem, m.pc)
       case Failed(_) => true
       case Done(instrs) => AllCode(m.mem, m.pc, instrs) && ReadsMissCode(m, instrs, 0)
  }

  lemma NothingTouched(address: int, count: nat)
    ensures !Touches([], address, count)
  {
  }

  /** With nothing dirty, a coherent block agrees with fresh decoding wherever both have a word. */
  lemma {:induction false} CoherentPrefix(mem: Mem, start: Word, cached: seq<Instr>, decoded: seq<Instr>, k: nat)
    requires mem.dirty == [] && BlockCoherent(mem, start, cached) && AllCode(mem, start, decoded)
    requires WellShaped(start, decoded, |mem.bytes|)
    requires forall j :: 0 <= j < |decoded| ==> decoded[j] == InstrAt(mem, start + 4 * j)
    requires k < |cached| && k < |decoded|
    ensures cached[k] == decoded[k]
  {
    hide InstrAt, Touches;
    NothingTouched(start + 4 * k, 4);
    assert WordCoherent(mem, start + 4 * k, cached[k]);
  }

  lemma SameLength(start: Word, cached: seq<Instr>, decoded: seq<Instr>, size: nat)
    requires WellShaped(start, cached, size) && WellShaped(start, decoded, size)
    requires forall k :: 0 <= k < |cached| && k < |decoded| ==> cached[k] == decoded[k]
    ensures cached == decoded
  {
    var n := if |cached| < |decoded| then |cached| else |decoded|;
    assert cached[n - 1] == decoded[n - 1];
  }

  /** At a clean entry the cached block is the block that memory holds. */
  lemma CachedIsFresh(m: Machine)
    requires Coherent(m) && HasValid(m.cache, m.pc) && m.mem.dirty == []
    requires match DecodeBlock(m.mem, m.pc)
      case Failed(_) => true
      case Done(instrs) => AllCode(m.mem, m.pc, instrs)
    ensures DecodeBlock(m.mem, m.pc) == Done(m.cache.blocks[m.pc].instrs)
  {
    hide BlockCoherent, InstrAt, AllCode, DecodeBlock;
    DecodeBlockShape(m.mem, m.pc);
    var cached := m.cache.blocks[m.pc].instrs;
    assert DecodeBlock(m.mem, m.pc).Done?;
    var decoded := DecodeBlock(m.mem, m.pc).value;
    hide WellShaped;
    forall k | 0 <= k < |cached| && k < |decoded|
      ensures cached[k] == decoded[k]
    {
      CoherentPrefix(m.mem, m.pc, cached, decoded, k);
    }
    SameLength(m.pc, cached, decoded, |m.mem.bytes|);
  }

  /** One block through the cache equals one freshly decoded block, and coherence is kept. */
  lemma StepTransparent(m: Machine)
    requires Coherent(m) && CleanEntry(Bare(m))
    ensures BareProgress(SwitchStep(m)) == FreshStep(Bare(m))
    ensures Coherent(SwitchStep(m).m)
  {
    hide Coherent, DecodeBlock, RunFrom, AllCode, ReadsMissCode;
    GetBlockCoherent(m);
    if HasValid(m.cache, m.pc) {
      CachedIsFresh(m);
    }
    match GetBlock(m.cache, m.mem, m.pc)
    case Missing(_, _) =>
    case Found(cache) =>
      var m1, instrs := m.(cache := cache), cache.blocks[m.pc].instrs;
      assert DecodeBlock(m.mem, m.pc) == Done(instrs);
      assert Bare(m1) == Bare(m);
      BareRunFrom(m1, instrs, 0);
      BareReadsMissCode(m1, instrs, 0);
      RunFromCoherent(m1, instrs, 0);
      FaultCoherent(RunFrom(m1, instrs, 0).m);
  }

  lemma FaultCoherent(m: Machine)
    requires Coherent(m)
    ensures Coherent(Fault(m))
  {
    CoherentDependsOn(m, Fault(m));
  }

  // ---- whole runs ----

  /** Every block entry of the first `n` blocks of the cacheless run is clean. */
  predicate CleanRun(m: Machine, n: nat)
    decreases n
  {
    m.status == RUNNING && n > 0 ==>
      CleanEntry(m) && (FreshStep(m).Ran? ==> CleanRun(FreshStep(m).m, n - 1))
  }

  /**
    Cache transparency: as long as the cacheless run enters its blocks cleanly, the run
    through the cache is the same run, and the cache stays coherent.
  */
  lemma {:induction false} CacheTransparent(m: Machine, n: nat)
    requires Coherent(m) && CleanRun(Bare(m), n)
    ensures BareOutcome(SwitchRun(m, n)) == FreshRun(Bare(m), n)
    ensures Coherent(SwitchRun(m, n).m)
    decreases n
  {
    hide Coherent, SwitchStep, FreshStep, CleanEntry;
    if m.status == RUNNING && n > 0 {
      StepTransparent(m);
      if SwitchStep(m).Ran? {
        CacheTransparent(SwitchStep(m).m, n - 1);
      }
    }
  }

  /** The first `n` blocks read no input into an executable region; stores may do anything. */
  predicate ReadsMissCodeInRun(m: Machine, n: nat)
    decreases n
  {
    m.status == RUNNING && n > 0 ==>
      && (match GetBlock(m.cache, m.mem, m.pc)
          case Missing(_, _) => true
          case Found(cache) => ReadsMissCode(m.(cache := cache), cache.blocks[m.pc].instrs, 0))
      && (SwitchStep(m).Ran? ==> ReadsMissCodeInRun(SwitchStep(m).m, n - 1))
  }

  lemma SwitchStepCoherent(m: Machine)
    requires Coherent(m) && m.status == RUNNING && ReadsMissCodeInRun(m, 1)
    ensures Coherent(SwitchStep(m).m)
  {
    hide Coherent, RunFrom, ReadsMissCode;
    GetBlockCoherent(m);
    match GetBlock(m.cache, m.mem, m.pc)
    case Missing(_, _) =>
    case Found(cache) =>
      var m1, instrs := m.(cache := cache), cache.blocks[m.pc].instrs;
      RunFromCoherent(m1, instrs, 0);
      FaultCoherent(RunFrom(m1, instrs, 0).m);
  }

  /** Every reachable state is coherent, self-modifying code and pending ranges included. */
  lemma {:induction false} SwitchRunCoherent(m: Machine, n: nat)
    requires Coherent(m) && ReadsMissCodeInRun(m, n)
    ensures Coherent(SwitchRun(m, n).m)
    decreases n
  {
    hide Coherent, SwitchStep, GetBlock, ReadsMissCode;
    if m.status == RUNNING && n > 0 {
      SwitchStepCoherent(m);
      if SwitchStep(m).Ran? {
        SwitchRunCoherent(SwitchStep(m).m, n - 1);
      }
    }
  }

  lemma CoherentOfCore(m: Machine, core: Machine)
    requires Coherent(core) && Core(m).(pc := core.pc) == core
    ensures Coherent(m)
  {
    hide WellShaped, BlockCoherent;
    forall a | a in m.cache.blocks
      ensures m.cache.blocks[a].start == a && WellShaped(a, m.cache.blocks[a].instrs, |m.mem.bytes|)
      ensures m.cache.blocks[a].valid ==> BlockCoherent(m.mem, a, m.cache.blocks[a].instrs)
    {
      assert CoreCache(m.cache).blocks[a] == Strip(m.cache.blocks[a]);
    }
  }

  /** The same for every state of every JIT run. */
  lemma JitRunCoherent(c: Config, threshold: nat, n: nat)
    requires ConfigOk(c) && Coherent(Core(c.m)) && ReadsMissCodeInRun(Core(c.m), n)
    ensures Coherent(JitRun(c, threshold, n).m)
  {
    hide JitRun, SwitchRun, Coherent, ReadsMissCodeInRun, CoreCache;
    JitRunSimulates(c, threshold, n);
    SwitchRunCoherent(Core(c.m), n);
    CoherentOfCore(JitRun(c, threshold, n).m, SwitchRun(Core(c.m), n).m);
  }
}
