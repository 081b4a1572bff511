/** Faults under the JIT and under the interpreter: which PC, and which error, exactly. */
module Faults {
  import opened Words
  import opened BitUtils
  import opened Instructions
  import opened Decoder
  import opened GuestMemory
  import opened MachineState
  import opened CacheSpec
  import opened Executor
  import opened Interpreters
  import opened IrEval
  import opened JitSpec
  import opened JitEngine
  import opened JitCorrect
  import opened CacheInvariants
  import opened Simulation
  import opened Runs

  // ---- the interpreter's PC ----

  lemma RaiseKeepsPc(m: Machine, i: Instr)
    requires Exec(m, i).Raise?
    ensures Exec(m, i).m.pc == m.pc
  {
    hide Effect, SystemCall;
    if i.Syscall? {
      SystemCallKeeps(m);
    } else if !i.Invalid? {
      EffectKeeps(m, i);
    }
  }

  lemma InsideAdvances(m: Machine, i: Instr)
    requires !EndsBlock(i) && Exec(m, i).Ok?
    ensures Exec(m, i).m.pc == Add32(m.pc, 4)
  {
    hide Effect;
    EffectKeeps(m, i);
  }

  /** The interpreter raises with the PC at the raising instruction. */
  lemma {:induction false} RaisedPc(m: Machine, start: Word, instrs: seq<Instr>, k: nat)
    requires k <= |instrs| && TerminatorsLast(instrs) && m.pc == AddressOf(start, k)
    ensures RunFrom(m, instrs, k).Raise? <==> RaisedAt(m, instrs, k) < |instrs|
    ensures RunFrom(m, instrs, k).Raise? ==> RunFrom(m, instrs, k).m.pc == AddressOf(start, RaisedAt(m, instrs, k))
    decreases |instrs| - k
  {
    hide Exec, TerminatorsLast, AddressOf;
    if k < |instrs| {
      if Exec(m, instrs[k]).Raise? {
        RaiseKeepsPc(m, instrs[k]);
      } else if k + 1 < |instrs| {
        InsideBlock(instrs, k);
        InsideAdvances(m, instrs[k]);
        AddressSteps(start, k);
        RaisedPc(Exec(m, instrs[k]).m, start, instrs, k + 1);
      }
    }
  }

  lemma InsideBlock(instrs: seq<Instr>, k: nat)
    requires TerminatorsLast(instrs) && k + 1 < |instrs|
    ensures !EndsBlock(instrs[k])
  {
  }

  // ---- one step ----

  /** The instruction at which the block at the PC raises. */
  function RaisingAt(m: Machine): nat {
    RaisedAt(m, BlockAtPc(m), 0)
  }

  /** Translated code leaves the PC of this fault where the interpreter does. */
  predicate KeepsFaultPc(m: Machine) {
    RaisingAt(m) == 0 || (RaisingAt(m) < |BlockAtPc(m)| && StoresOwnPc(BlockAtPc(m)[RaisingAt(m)]))
  }

  /** Where both engines leave the PC of a fault. */
  lemma FaultPcs(m: Machine)
    requires MachineOk(m) && SwitchStep(m).Threw?
    ensures RaisingAt(m) < |BlockAtPc(m)|
    ensures SwitchStep(m).m.pc == m.pc + 4 * RaisingAt(m)
    ensures SwallowedPc(m) == if KeepsFaultPc(m) then m.pc + 4 * RaisingAt(m) else m.pc
  {
    hide MachineOk, RunFrom, RaisedAt, SwitchStep, GetBlock;
    var instrs := BlockAtPc(m);
    var m1 := ThrowingBlock(m);
    RaisedPc(m1, m.pc, instrs, 0);
    RaisedAtIgnoresCache(m, instrs, 0, m1.cache);
  }

  /** The machine after the lookup of a step that throws. */
  lemma ThrowingBlock(m: Machine) returns (m1: Machine)
    requires MachineOk(m) && SwitchStep(m).Threw?
    ensures m1 == m.(cache := m1.cache)
    ensures TerminatorsLast(BlockAtPc(m)) && m.pc + 4 * |BlockAtPc(m)| < 0x1_0000_0000
    ensures RunFrom(m1, BlockAtPc(m), 0).Raise? && SwitchStep(m).m.pc == RunFrom(m1, BlockAtPc(m), 0).m.pc
  {
    hide MachineOk, RunFrom, GetBlock, TerminatorsLast;
    MachineOkIs(m);
    GetBlockOk(m.cache, m.mem, m.pc);
    m1 := m.(cache := GetBlock(m.cache, m.mem, m.pc).cache);
    MachineOkIs(m1);
    BlockShape(m1);
  }

  lemma CoreOk(m: Machine)
    requires MachineOk(m)
    ensures MachineOk(Core(m))
  {
    hide WellShaped, Compile, SlotsOf;
  }

  /** The core has the same block and raises at the same instruction. */
  lemma CoreRaising(m: Machine)
    ensures BlockAtPc(Core(m)) == BlockAtPc(m) && RaisingAt(Core(m)) == RaisingAt(m)
  {
    hide GetBlock, RaisedAt;
    CoreGetBlock(m.cache, m.mem, m.pc);
    CoreRaisedAt(m, BlockAtPc(m), 0);
  }

  /** The PC after a JIT step that ran or threw. */
  function PcAfter(p: JitProgress): Option<Word> {
    match p
    case JitRan(c) => Some(c.m.pc)
    case JitThrew(m, _) => Some(m.pc)
    case _ => None
  }

  /**
    A step whose block faults. The JIT rethrows the error exactly when the block is cold.
    The PC is the interpreter's exactly when the block is cold, or its first instruction
    raises, or the raising instruction is SYSCALL or INVALID; otherwise it is the PC of
    the block's entry.
  */
  lemma FaultedStepExactly(c: Config, threshold: nat)
    requires ConfigOk(c) && c.m.status == RUNNING && SwitchStep(Core(c.m)).Threw?
    ensures JitStep(c, threshold).JitThrew? <==> RunsCold(c, threshold)
    ensures var s, pc := SwitchStep(Core(c.m)), PcAfter(JitStep(c, threshold));
      && s.m.pc == c.m.pc + 4 * RaisingAt(c.m)
      && (pc == Some(s.m.pc) <==> RunsCold(c, threshold) || KeepsFaultPc(c.m))
      && (pc == Some(s.m.pc) || pc == Some(c.m.pc))
  {
    hide MachineOk, CoreCache, JitStep, SwitchStep, RunsCold, SwallowedPc, RaisingAt, BlockAtPc;
    JitStepSimulates(c, threshold);
    CoreOk(c.m);
    CoreRaising(c.m);
    FaultPcs(Core(c.m));
  }

  // ---- whole runs ----

  lemma {:induction false} LastStepThrew(m: Machine, n: nat)
    requires SwitchRun(m, n).Over? && SwitchRun(m, n).ending.Raised?
    ensures m.status == RUNNING
    ensures SwitchStep(SwitchLast(m, n)) == Threw(SwitchRun(m, n).m, SwitchRun(m, n).ending.code)
    decreases n
  {
    hide SwitchStep;
    if SwitchStep(m).Ran? {
      LastStepThrew(SwitchStep(m).m, n - 1);
    }
  }

  /**
    A run that ends in a fault. The JIT run ends with the interpreter's error exactly when
    its last block ran cold, and otherwise without one. The PCs are the same exactly when
    that block ran cold, or raised at its first instruction, or at SYSCALL or INVALID.
  */
  lemma FaultedRunExactly(c: Config, threshold: nat, n: nat)
    requires ConfigOk(c) && SwitchRun(Core(c.m), n).Over? && SwitchRun(Core(c.m), n).ending.Raised?
    ensures JitRun(c, threshold, n).Over?
    ensures var (j, s, last) := (JitRun(c, threshold, n), SwitchRun(Core(c.m), n), JitLast(c, threshold, n));
      && j.ending == (if RunsCold(last, threshold) then s.ending else Stopped)
      && s.m.pc == last.m.pc + 4 * RaisingAt(last.m)
      && (j.m.pc == s.m.pc <==> RunsCold(last, threshold) || KeepsFaultPc(last.m))
      && (j.m.pc == s.m.pc || j.m.pc == last.m.pc)
  {
    hide MachineOk, CoreCache, JitRun, JitLast, SwitchRun, SwitchLast, SwitchStep, RunsCold, SwallowedPc, RaisingAt,
      BlockAtPc;
    var last := JitLast(c, threshold, n);
    LastStepThrew(Core(c.m), n);
    JitRunSimulates(c, threshold, n);
    JitLastCore(c, threshold, n);
    CoreOk(last.m);
    CoreRaising(last.m);
    FaultPcs(Core(last.m));
  }

  // ---- a block on which the engines differ ----

  /** LI, then SSAT to width zero. */
  const FAULTING: seq<Byte> := [0, 0, 0, 0x2C, 0, 0, 0, 0x20]

  function FaultingMachine(): Machine {
    Machine(seq(32, _ => 0), 0, Mem(FAULTING, [], []), RUNNING, 0, Host([], []),
            MachineState.Cache(map[], map[], map[], 1))
  }

  lemma FaultingDecodes()
    ensures Decode(0x2C00_0000).Li?
    ensures Decode(0x2000_0000).Ssat? && Decode(0x2000_0000).width == 0
  {
    hide Decode, ExtractBits, SignedField, Pow2;
    Pow2Values();
    ExtractBitsMeaning(0x2000_0000, 11, 5);
    DecodeFixed(0x2C00_0000, LI);
    DecodeFixed(0x2000_0000, SSAT);
  }

  lemma FaultingBlock()
    ensures var instrs := DecodeFrom(Mem(FAULTING, [], []), 0);
      |instrs| == 2 && instrs[0].Li? && instrs[1].Ssat? && instrs[1].width == 0
  {
    hide Decode;
    FaultingDecodes();
    var mem := Mem(FAULTING, [], []);
    assert InstrAt(mem, 0) == Decode(0x2C00_0000);
    assert InstrAt(mem, 4) == Decode(0x2000_0000);
    assert DecodeFrom(mem, 4) == [InstrAt(mem, 4)];
  }

  /**
    Translated at once, this block faults without an error and with the PC at its start;
    the interpreter throws, with the PC at the second instruction.
  */
  lemma SomeFaultDiffers() returns (m: Machine)
    ensures Loaded(m)
    ensures SwitchRun(m, 1).Over? && SwitchRun(m, 1).ending == Raised(INVALID_INSTRUCTION) && SwitchRun(m, 1).m.pc == 4
    ensures var j := JitRun(Config(m, 0), 0, 1);
      j.Over? && j.ending == Stopped && j.m.status == FAULTED && j.m.pc == 0
  {
    hide DecodeFrom, JitRun, JitStep, SwallowedPc, CoreCache;
    m := FaultingMachine();
    FaultingBlock();
    var instrs := DecodeFrom(m.mem, 0);
    var cache := Install(m.cache, 0, instrs);
    assert GetBlock(m.cache, m.mem, 0) == Found(cache);
    FaultingRun(m.(cache := cache), instrs);
    LoadedOk(m);
    FaultedRunExactly(Config(m, 0), 0, 1);
    JitProgramSimulates(m, 0, 1);
    SwitchRaisesFaulted(m, 1);
  }

  lemma FaultingRun(m: Machine, instrs: seq<Instr>)
    requires |instrs| == 2 && instrs[0].Li? && instrs[1].Ssat? && instrs[1].width == 0
    ensures RunFrom(m, instrs, 0) == Raise(Exec(m, instrs[0]).m, INVALID_INSTRUCTION)
    ensures RunFrom(m, instrs, 0).m.pc == Add32(m.pc, 4)
    ensures RaisedAt(m, instrs, 0) == 1
  {
    var m1 := Exec(m, instrs[0]).m;
    assert Exec(m1, instrs[1]) == Raise(m1, INVALID_INSTRUCTION);
    hide Exec;
    assert RunFrom(m, instrs, 0) == RunFrom(m1, instrs, 1);
  }
}
