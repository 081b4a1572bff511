/** Block execution refines fetch-decode-execute, one instruction at a time. */
module SingleStep {
  import opened Words
  import opened BitUtils
  import opened BitOperations
  import opened Instructions
  import opened Decoder
  import opened GuestMemory
  import opened MachineState
  import opened CacheSpec
  import opened Executor
  import opened Interpreters
  import opened CacheInvariants
  import opened Coherence
  import opened JitCorrect
  import opened JitEngine
  import opened Simulation
  import opened Runs
  import opened Transparency

  /** Fetch the word at the PC, decode it, execute it. */
  function OneStep(m: Machine): Progress {
    match Read32(m.mem, m.pc)
    case Failed(code) => FetchError(m, code)
    case Done(word) => Settle(Exec(m, Decode(word)))
  }

  /** The plain interpreter loop, without blocks, for at most `n` instructions. */
  function OneRun(m: Machine, n: nat): Outcome
    decreases n
  {
    if m.status != RUNNING then Over(m, Stopped)
    else if n == 0 then Going(m)
    else
      match OneStep(m)
      case Ran(m1) => OneRun(m1, n - 1)
      case Threw(m1, code) => Over(m1, Raised(code))
      case FetchError(m1, code) => Over(m1, FetchFailed(code))
  }

  /** The addresses an instruction tries to store to. */
  function StoresTo(m: Machine, i: Instr): set<Word> {
    match i
    case St(_, base, imm) => {Add32(m.regs[base], imm)}
    case Stp(_, _, base, imm) => {Add32(m.regs[base], imm), Add32(Add32(m.regs[base], imm), 4)}
    case _ => {}
  }

  /** No instruction of the block, from number `k` on, stores to a later word of the block. */
  predicate StoresMissRest(m: Machine, start: Word, instrs: seq<Instr>, k: nat)
    requires k <= |instrs|
    decreases |instrs| - k
  {
    k == |instrs| ||
    (&& (forall a :: a in StoresTo(m, instrs[k]) ==> !(start + 4 * (k + 1) <= a < start + 4 * |instrs|))
     && (Exec(m, instrs[k]).Ok? ==> StoresMissRest(Exec(m, instrs[k]).m, start, instrs, k + 1)))
  }

  /** The memory words of the block, from instruction `k` on, decode to the block. */
  predicate Mirrors(mem: Mem, start: Word, instrs: seq<Instr>, k: nat) {
    && start + 4 * |instrs| <= |mem.bytes|
    && forall j :: k <= j < |instrs| ==> instrs[j] == InstrAt(mem, start + 4 * j)
  }

  lemma StoreElsewhere(m: Machine, address: Word, value: Word, word: Word)
    requires word % 4 == 0 && word != address && word + 4 <= |m.mem.bytes|
    ensures var after := Store(m, address, value).m;
      |after.mem.bytes| == |m.mem.bytes| && InstrAt(after.mem, word) == InstrAt(m.mem, word)
  {
    hide Decode, Touches, PutWord, DecodeLittleEndianWord, Write32;
    if Write32(m.mem, address, value).Done? {
      WriteFrame(m.mem, address, value, word);
    }
  }

  lemma StorePairElsewhere(m: Machine, address: Word, first: Word, second: Word, word: Word)
    requires word % 4 == 0 && word + 4 <= |m.mem.bytes| && word != address && word != Add32(address, 4)
    ensures var after := StorePair(m, address, first, second).m;
      |after.mem.bytes| == |m.mem.bytes| && InstrAt(after.mem, word) == InstrAt(m.mem, word)
  {
    hide InstrAt, Store;
    StoreElsewhere(m, address, first, word);
    if Store(m, address, first).Ok? {
      StoreElsewhere(Store(m, address, first).m, Add32(address, 4), second, word);
    }
  }

  /** An instruction inside a block leaves the words it does not store to. */
  lemma EffectElsewhere(m: Machine, i: Instr, word: Word)
    requires !EndsBlock(i) && word % 4 == 0 && word + 4 <= |m.mem.bytes| && word !in StoresTo(m, i)
    ensures var after := Effect(m, i).m;
      |after.mem.bytes| == |m.mem.bytes| && InstrAt(after.mem, word) == InstrAt(m.mem, word)
  {
    hide InstrAt, Store, StorePair, SaturateSigned, RotateRight, Compress32, Clz32, Or32, Read32;
    match i
    case St(rt, base, imm) => StoreElsewhere(m, Add32(m.regs[base], imm), m.regs[rt], word);
    case Stp(rt, rt2, base, imm) =>
      StorePairElsewhere(m, Add32(m.regs[base], imm), m.regs[rt], m.regs[rt2], word);
    case _ =>
  }

  /** After an instruction that misses the rest of the block, memory still mirrors the rest. */
  lemma StillMirrors(m: Machine, start: Word, instrs: seq<Instr>, k: nat)
    requires k < |instrs| && start % 4 == 0 && !EndsBlock(instrs[k]) && Mirrors(m.mem, start, instrs, k)
    requires forall a :: a in StoresTo(m, instrs[k]) ==> !(start + 4 * (k + 1) <= a < start + 4 * |instrs|)
    ensures Mirrors(Effect(m, instrs[k]).m.mem, start, instrs, k + 1)
  {
    hide InstrAt, Effect, StoresTo;
    var after := Effect(m, instrs[k]).m;
    if k + 1 < |instrs| {
      EffectElsewhere(m, instrs[k], start + 4 * (k + 1));
    } else {
      EffectSize(m, instrs[k]);
    }
    forall j | k + 1 <= j < |instrs|
      ensures instrs[j] == InstrAt(after.mem, start + 4 * j)
    {
      EffectElsewhere(m, instrs[k], start + 4 * j);
    }
  }

  lemma EffectSize(m: Machine, i: Instr)
    requires !EndsBlock(i)
    ensures |Effect(m, i).m.mem.bytes| == |m.mem.bytes|
  {
    hide Effect;
    ExecKeepsSize(m, i);
    assert Exec(m, i) == ThenAdvance(Effect(m, i));
  }

  /** The fetched instruction is the one of the block. */
  lemma FetchesBlock(m: Machine, start: Word, instrs: seq<Instr>, k: nat)
    requires k < |instrs| && start % 4 == 0 && Mirrors(m.mem, start, instrs, k) && m.pc == start + 4 * k
    ensures OneStep(m) == Settle(Exec(m, instrs[k]))
  {
    hide Decode, DecodeLittleEndianWord, Exec;
  }

  /** The state before instruction `k` has PC = start + 4 * k. */
  lemma StepInside(m: Machine, start: Word, instrs: seq<Instr>, k: nat)
    requires k < |instrs| && !EndsBlock(instrs[k]) && m.pc == start + 4 * k && start + 4 * (k + 1) < 0x1_0000_0000
    ensures Exec(m, instrs[k]) == ThenAdvance(Effect(m, instrs[k]))
    ensures Exec(m, instrs[k]).Ok? ==>
      && Exec(m, instrs[k]).m.pc == start + 4 * (k + 1)
      && Exec(m, instrs[k]).m.status == m.status
      && Exec(m, instrs[k]).m.mem == Effect(m, instrs[k]).m.mem
  {
    hide Effect;
    EffectKeeps(m, instrs[k]);
  }

  /** What a plain run is after a block has run in `s` and `r` more instructions may run. */
  function Resumed(s: Step, r: nat): Outcome {
    match s
    case Ok(m) => OneRun(m, r)
    case Raise(m, code) => Over(Fault(m), Raised(code))
  }

  /**
    A block that memory mirrors at entry, none of whose stores hits a later word of the
    block, runs as that many instructions of the plain loop.
  */
  lemma {:induction false} BlockIsSteps(m: Machine, start: Word, instrs: seq<Instr>, k: nat, r: nat)
    requires k < |instrs| && start % 4 == 0 && TerminatorsLast(instrs)
    requires m.status == RUNNING && m.pc == start + 4 * k
    requires Mirrors(m.mem, start, instrs, k) && StoresMissRest(m, start, instrs, k)
    ensures OneRun(m, |instrs| - k + r) == Resumed(RunFrom(m, instrs, k), r)
    decreases |instrs| - k
  {
    hide Exec, OneStep, Mirrors, StoresTo, Effect;
    FetchesBlock(m, start, instrs, k);
    if k + 1 == |instrs| {
      RunFromLast(m, instrs);
    } else {
      MirrorsBound(m.mem, start, instrs, k);
      StepInside(m, start, instrs, k);
      if Exec(m, instrs[k]).Ok? {
        StillMirrors(m, start, instrs, k);
        BlockIsSteps(Exec(m, instrs[k]).m, start, instrs, k + 1, r);
      }
    }
  }

  lemma MirrorsBound(mem: Mem, start: Word, instrs: seq<Instr>, k: nat)
    requires Mirrors(mem, start, instrs, k)
    ensures start + 4 * |instrs| < 0x1_0000_0000
  {
  }

  // ---- whole runs ----

  /** The block memory holds at the PC does not store into its own later words. */
  predicate StoresMissBlock(m: Machine) {
    match DecodeBlock(m.mem, m.pc)
    case Failed(_) => true
    case Done(instrs) => StoresMissRest(m, m.pc, instrs, 0)
  }

  predicate StoresMissRun(m: Machine, n: nat)
    decreases n
  {
    m.status == RUNNING && n > 0 ==>
      StoresMissBlock(m) && (FreshStep(m).Ran? ==> StoresMissRun(FreshStep(m).m, n - 1))
  }

  lemma FailedFetch(m: Machine)
    requires DecodeBlock(m.mem, m.pc).Failed?
    ensures OneStep(m) == FetchError(m, DecodeBlock(m.mem, m.pc).code)
  {
  }

  /** One freshly decoded block is some number of plain instructions. */
  lemma FreshStepIsSteps(m: Machine, r: nat) returns (k: nat)
    requires m.status == RUNNING && StoresMissBlock(m)
    ensures k > 0 && OneRun(m, k + r) ==
      match FreshStep(m)
      case Ran(m1) => OneRun(m1, r)
      case Threw(m1, code) => Over(m1, Raised(code))
      case FetchError(m1, code) => Over(m1, FetchFailed(code))
  {
    hide OneStep, RunFrom, DecodeBlock, InstrAt, StoresMissRest, OneRun;
    DecodeBlockShape(m.mem, m.pc);
    match DecodeBlock(m.mem, m.pc)
    case Failed(code) =>
      k := 1;
      FailedFetch(m);
      FailedRun(m, code, r);
    case Done(instrs) =>
      k := |instrs|;
      BlockIsSteps(m, m.pc, instrs, 0, r);
  }

  lemma FailedRun(m: Machine, code: ErrorCode, r: nat)
    requires m.status == RUNNING && OneStep(m) == FetchError(m, code)
    ensures OneRun(m, 1 + r) == Over(m, FetchFailed(code))
  {
    hide OneStep;
  }

  lemma {:induction false} FreshRunIsSteps(m: Machine, n: nat) returns (k: nat)
    requires StoresMissRun(m, n)
    ensures k >= n && OneRun(m, k) == FreshRun(m, n)
    decreases n
  {
    hide OneStep, FreshStep, StoresMissBlock, OneRun;
    k := n;
    if m.status != RUNNING || n == 0 {
      OneRunIdle(m, n);
    } else {
      var r := n;
      if FreshStep(m).Ran? {
        r := FreshRunIsSteps(FreshStep(m).m, n - 1);
      }
      var j := FreshStepIsSteps(m, r);
      k := j + r;
    }
  }

  lemma OneRunIdle(m: Machine, n: nat)
    requires m.status != RUNNING || n == 0
    ensures OneRun(m, n) == if m.status != RUNNING then Over(m, Stopped) else Going(m)
  {
  }

  /** Endings as under translated code: the error of a fault may be swallowed, which leaves the PC `faultPc`. */
  predicate Refines(j: Outcome, s: Outcome, faultPc: Word) {
    match j
    case Going(m) => s == Going(Bare(m))
    case Over(m, e) =>
      s.Over? &&
      if e == s.ending then Bare(m) == s.m
      else e == Stopped && s.ending.Raised? && m.status == FAULTED && Bare(m) == s.m.(pc := faultPc)
  }

  /** The PC of a fault that translated code swallows at the end of a run. */
  function LastFaultPc(m: Machine, n: nat): Word {
    SwallowedPc(SwitchLast(m, n))
  }

  lemma BareOfCore(m: Machine)
    ensures Bare(Core(m)) == Bare(m)
  {
  }

  lemma RefinesByCore(j: Outcome, m: Machine, n: nat, cold: bool)
    requires CoreOutcome(j) == ShownRun(m, n, cold)
    ensures Refines(j, BareOutcome(SwitchRun(m, n)), LastFaultPc(m, n))
  {
    hide CoreCache, SwitchRun, SwitchLast, SwallowedPc;
    SwitchRaisesFaulted(m, n);
    BareOfCore(j.m);
  }

  /**
    The JIT, its cache and its chains together against re-decoding at every block entry:
    as long as the cacheless run enters its blocks cleanly they are the same run.
  */
  lemma JitRefinesFreshDecoding(c: Config, threshold: nat, n: nat)
    requires ConfigOk(c) && Coherent(Core(c.m)) && CleanRun(Bare(c.m), n)
    ensures Refines(JitRun(c, threshold, n), FreshRun(Bare(c.m), n), LastFaultPc(Core(c.m), n))
  {
    hide JitRun, SwitchRun, ShownRun, JitLast, FreshRun, CleanRun, Refines, Coherent, Core, RunsCold;
    BareOfCore(c.m);
    JitRunSimulates(c, threshold, n);
    CacheTransparent(Core(c.m), n);
    RefinesByCore(JitRun(c, threshold, n), Core(c.m), n, RunsCold(JitLast(c, threshold, n), threshold));
  }

  /**
    The whole stack: if the cacheless run of a program enters its blocks cleanly and no
    block stores into its own later words, then any prefix of a JIT run, at any
    threshold, is a run of the plain fetch-decode-execute loop.
  */
  lemma JitRefinesSingleSteps(m: Machine, threshold: nat, n: nat) returns (k: nat)
    requires Loaded(m) && RegionsAligned(m.mem)
    requires CleanRun(m, n) && StoresMissRun(m, n)
    ensures k >= n && Refines(JitRun(Config(m, 0), threshold, n), OneRun(m, k), LastFaultPc(m, n))
  {
    hide JitRun, SwitchRun, ShownRun, JitLast, FreshRun, OneRun, CleanRun, StoresMissRun, Refines, RunsCold;
    assert Bare(m) == m && Coherent(m);
    JitProgramSimulates(m, threshold, n);
    CacheTransparent(m, n);
    k := FreshRunIsSteps(m, n);
    var last := JitLast(Config(m, 0), threshold, n);
    RefinesByCore(JitRun(Config(m, 0), threshold, n), m, n, RunsCold(last, threshold));
  }
}
