/** When the JIT translates, what it counts, and how far a chain goes. */
module ChainLaws {
  import opened Words
  import opened Instructions
  import opened GuestMemory
  import opened MachineState
  import opened CacheSpec
  import opened Executor
  import opened Interpreters
  import opened IrEval
  import opened JitSpec
  import opened JitEngine
  import opened JitCorrect
  import opened CacheInvariants
  import opened Simulation
  import opened Runs

  // ---- which engine runs a block ----

  /** The cache once the block at the PC is found: the chain does not look it up. */
  function CacheAtEntry(c: Config): Cache {
    if c.next != 0 then c.m.cache else GetBlock(c.m.cache, c.m.mem, c.m.pc).cache
  }

  /**
    The next block runs translated code: from the chain always, and from the loop if it
    has a translation or has run as often as the threshold demands.
  */
  predicate TakesTranslation(c: Config, threshold: nat) {
    c.next != 0
    || (var blocks := CacheAtEntry(c).blocks;
        c.m.pc in blocks && blocks[c.m.pc].valid
        && (blocks[c.m.pc].code != 0 || blocks[c.m.pc].count >= threshold))
  }

  /** A step finds a block. */
  predicate FindsBlock(c: Config) {
    c.next != 0 || GetBlock(c.m.cache, c.m.mem, c.m.pc).Found?
  }

  lemma ColdOrTranslated(c: Config, threshold: nat)
    requires FindsBlock(c)
    ensures RunsCold(c, threshold) <==> !TakesTranslation(c, threshold)
  {
    hide DecodeBlock;
  }

  /** The machine that a step from `c` hands to native code. */
  function AtTranslation(c: Config): Machine
    requires c.m.pc in CacheAtEntry(c).blocks
  {
    var cache := CacheAtEntry(c);
    c.m.(cache := if cache.blocks[c.m.pc].code == 0 then CompileInto(cache, c.m.pc) else cache)
  }

  lemma EntryOk(c: Config)
    requires ConfigOk(c) && FindsBlock(c)
    ensures MachineOk(c.m.(cache := CacheAtEntry(c))) && HasValid(CacheAtEntry(c), c.m.pc)
    ensures CacheAtEntry(c).blocks[c.m.pc].instrs == BlockAtPc(c.m)
    ensures c.next != 0 ==> CacheAtEntry(c).blocks[c.m.pc].code == c.next
  {
    hide MachineOk, GetBlock;
    MachineOkIs(c.m);
    if c.next != 0 {
      ChainEntersLiveCode(c);
      BlockAtPcCached(c.m);
      assert c.m.(cache := c.m.cache) == c.m;
    } else {
      GetBlockOk(c.m.cache, c.m.mem, c.m.pc);
      MachineOkIs(c.m.(cache := CacheAtEntry(c)));
    }
  }

  /** A step that takes the translation runs native code of a translated block. */
  lemma TranslatedStep(c: Config, threshold: nat)
    requires ConfigOk(c) && c.m.status == RUNNING && FindsBlock(c) && TakesTranslation(c, threshold)
    ensures c.m.pc in CacheAtEntry(c).blocks
    ensures var m := AtTranslation(c);
      && Translated(m) && m.cache.blocks[m.pc].instrs == BlockAtPc(c.m)
      && JitStep(c, threshold) == AfterNative(RunNative(m, m.cache.blocks[m.pc].code))
  {
    hide MachineOk, CompileInto, RunNative, GetBlock;
    EntryOk(c);
    var m0, m := c.m.(cache := CacheAtEntry(c)), AtTranslation(c);
    BlockShape(m0);
    assert c.m.(cache := c.m.cache) == c.m;
    if c.next == 0 {
      EnterHot(m0, threshold);
    } else {
      ChainEntersLiveCode(c);
    }
    if m0.cache.blocks[m.pc].code == 0 {
      MachineOkIs(m0);
      MachineOkIs(m);
      CompileIntoOk(m0.cache, |m0.mem.bytes|, m0.pc);
      HandlesPositive(m0);
      CoreOfCompile(m0.cache, m0.pc);
      CompileKeeps(m0.cache, m0.pc);
    }
  }

  /** Translating a block changes its entry point only. */
  lemma CompileKeeps(cache: Cache, address: Word)
    requires address in cache.blocks
    ensures CompileInto(cache, address).blocks
         == cache.blocks[address := cache.blocks[address].(code := cache.nextHandle)]
  {
    hide Compile, SlotsOf, OpenSlots;
  }

  // ---- the pending entry ----

  /** The entry that native code of a translated block returns. */
  lemma NativeEntry(m: Machine)
    requires Translated(m)
    ensures m.cache.blocks[m.pc].instrs != []
    ensures var (r, instrs) := (RunNative(m, m.cache.blocks[m.pc].code), m.cache.blocks[m.pc].instrs);
      var last := instrs[|instrs| - 1];
      && r.Returned?
      && (r.m.status == RUNNING && !last.Flush? && !last.Invalid? ==>
            r.m.pc in r.m.cache.entries && r.handle == r.m.cache.entries[r.m.pc])
      && (r.m.status != RUNNING || last.Flush? || last.Invalid? ==> r.handle == 0)
  {
    hide MachineOk, Compile, Eval, RunFrom, RaisedAt, SlotsExist;
    TranslatedBlock(m);
    CompileCorrect(m, m.pc, m.cache.blocks[m.pc].instrs);
  }

  /** The chain may go on after this step: native code ran, nothing stopped, and no FLUSH or INVALID ended the block. */
  predicate MayChain(c: Config, threshold: nat, after: Machine) {
    && TakesTranslation(c, threshold) && after.status == RUNNING
    && BlockAtPc(c.m) != []
    && var last := BlockAtPc(c.m)[|BlockAtPc(c.m)| - 1]; !last.Flush? && !last.Invalid?
  }

  /**
    The pending entry after a step is what the slot at the resulting PC holds, if native
    code ran, the machine is running, and the block did not end in FLUSH or INVALID;
    otherwise there is none.
  */
  lemma PendingEntryExactly(c: Config, threshold: nat)
    requires ConfigOk(c) && c.m.status == RUNNING && JitStep(c, threshold).JitRan?
    ensures var c1 := JitStep(c, threshold).c;
      if MayChain(c, threshold, c1.m) then c1.m.pc in c1.m.cache.entries && c1.next == c1.m.cache.entries[c1.m.pc]
      else c1.next == 0
  {
    hide MachineOk, CompileInto, RunNative, ThreadFrom, GetBlock, RecordExecution;
    assert FindsBlock(c);
    EntryOk(c);
    if TakesTranslation(c, threshold) {
      TranslatedStep(c, threshold);
      NativeEntry(AtTranslation(c));
    } else {
      var m0 := c.m.(cache := CacheAtEntry(c));
      BlockShape(m0);
      EnterCold(m0, threshold);
    }
  }

  // ---- how far a chain goes ----

  /** The last step of a chain is the step from its last block entry. */
  lemma {:induction false} ChainLastStep(c: Config, threshold: nat, fuel: nat)
    requires ConfigOk(c)
    ensures var (p, k) := Chain(c, threshold, fuel);
      && (k > 0 ==> p == JitStep(JitLast(c, threshold, k), threshold))
      && (k == 0 ==> p == JitRan(c))
      && (p.JitRan? && k < fuel ==> p.c.next == 0)
    decreases fuel
  {
    hide JitStep, MachineOk, CoreCache, SwallowedPc, RunsCold;
    if c.next != 0 && fuel > 0 {
      JitStepSimulates(c, threshold);
      if JitStep(c, threshold).JitRan? {
        ChainLastStep(JitStep(c, threshold).c, threshold, fuel - 1);
      }
    }
  }

  lemma CallLastStep(m: Machine, threshold: nat, fuel: nat)
    requires MachineOk(m) && m.status == RUNNING
    ensures var (p, k) := JitCall(m, threshold, fuel);
      && k > 0 && p == JitStep(JitLast(Config(m, 0), threshold, k), threshold)
      && (p.JitRan? && k <= fuel ==> p.c.next == 0)
  {
    hide JitStep, MachineOk, CoreCache, SwallowedPc, RunsCold;
    JitStepSimulates(Config(m, 0), threshold);
    if JitStep(Config(m, 0), threshold).JitRan? {
      ChainLastStep(JitStep(Config(m, 0), threshold).c, threshold, fuel);
    }
  }

  /**
    A call that returns before its fuel is used had no way to go on: the last block stopped
    the machine, ended in FLUSH or INVALID, ran in threaded code, or led to a PC whose
    slot is null.
  */
  lemma CallEndsExactly(m: Machine, threshold: nat, fuel: nat)
    requires MachineOk(m) && m.status == RUNNING
    ensures var (p, k) := JitCall(m, threshold, fuel);
      p.JitRan? && k <= fuel ==>
        MayChain(JitLast(Config(m, 0), threshold, k), threshold, p.c.m) ==>
          p.c.m.pc in p.c.m.cache.entries && p.c.m.cache.entries[p.c.m.pc] == 0
  {
    hide JitCall, JitStep, JitLast, MachineOk, CoreCache, MayChain;
    var (p, k) := JitCall(m, threshold, fuel);
    CallLastStep(m, threshold, fuel);
    if p.JitRan? {
      JitLastCore(Config(m, 0), threshold, k);
      PendingEntryExactly(JitLast(Config(m, 0), threshold, k), threshold);
    }
  }

  /** A step that leads to a PC with a full slot is followed by the block there, in the same call. */
  lemma CallFollows(m: Machine, threshold: nat, fuel: nat)
    requires MachineOk(m) && m.status == RUNNING && fuel > 0
    requires JitStep(Config(m, 0), threshold).JitRan?
    requires var c1 := JitStep(Config(m, 0), threshold).c;
      && MayChain(Config(m, 0), threshold, c1.m)
      && c1.m.pc in c1.m.cache.entries && c1.m.cache.entries[c1.m.pc] != 0
    ensures JitCall(m, threshold, fuel).1 >= 2
  {
    hide JitStep, MachineOk, MayChain;
    PendingEntryExactly(Config(m, 0), threshold);
  }

  // ---- counters and translations ----

  /** The same blocks with the same counters and entry points; the same mapped code. */
  predicate SameCounts(c: Cache, d: Cache) {
    && c.blocks.Keys == d.blocks.Keys && c.native == d.native && c.nextHandle == d.nextHandle
    && forall a :: a in c.blocks ==>
         d.blocks[a].count == c.blocks[a].count && d.blocks[a].code == c.blocks[a].code
  }

  lemma {:induction false} InvalidateAllCounts(cache: Cache, ranges: seq<CodeRange>)
    ensures SameCounts(cache, InvalidateAll(cache, ranges))
    decreases |ranges|
  {
    hide Hit;
    if ranges != [] {
      InvalidateAllCounts(InvalidateRange(cache, ranges[0]), ranges[1..]);
    }
  }

  lemma {:induction false} RunFromCounts(m: Machine, instrs: seq<Instr>, k: nat)
    requires k <= |instrs|
    ensures SameCounts(m.cache, RunFrom(m, instrs, k).m.cache)
    decreases |instrs| - k
  {
    hide Exec;
    if k < |instrs| {
      ExecCache(m, instrs[k]);
      InvalidateAllCounts(m.cache, m.mem.dirty);
      if Exec(m, instrs[k]).Ok? {
        RunFromCounts(Exec(m, instrs[k]).m, instrs, k + 1);
      }
    }
  }

  lemma NativeCounts(m: Machine)
    requires Translated(m)
    ensures var r := RunNative(m, m.cache.blocks[m.pc].code);
      r.Returned? && SameCounts(m.cache, r.m.cache)
  {
    hide MachineOk, Compile, Eval, RunFrom, RaisedAt, SlotsExist, SameCounts;
    var instrs := m.cache.blocks[m.pc].instrs;
    TranslatedBlock(m);
    CompileCorrect(m, m.pc, instrs);
    RunFromCounts(m, instrs, 0);
  }

  /** A cold run counts one execution of its block; no other counter and no translation changes. */
  lemma ColdStepCounts(c: Config, threshold: nat)
    requires ConfigOk(c) && c.m.status == RUNNING && FindsBlock(c) && !TakesTranslation(c, threshold)
    ensures c.m.pc in CacheAtEntry(c).blocks
    ensures CacheAfter(JitStep(c, threshold)).Some?
    ensures var (before, after) := (CacheAtEntry(c), CacheAfter(JitStep(c, threshold)).value);
      && SameCounts(before.(blocks := before.blocks[c.m.pc := before.blocks[c.m.pc].(
                      count := before.blocks[c.m.pc].count + 1)]), after)
      && before.blocks[c.m.pc].code == 0 && before.blocks[c.m.pc].count < threshold
  {
    hide MachineOk, RunFrom, ThreadFrom, GetBlock, SameCounts;
    EntryOk(c);
    var m0 := c.m.(cache := CacheAtEntry(c));
    BlockShape(m0);
    EnterCold(m0, threshold);
    var m1, instrs := m0.(cache := RecordExecution(m0.cache, m0.pc)), m0.cache.blocks[m0.pc].instrs;
    ThreadedIsSwitch(m1, instrs, 0);
    RunFromCounts(m1, instrs, 0);
  }

  /**
    A block that has reached the threshold is translated before it runs, if it is not yet:
    its code is mapped under a new entry point. No counter changes.
  */
  lemma HotStepTranslates(c: Config, threshold: nat)
    requires ConfigOk(c) && c.m.status == RUNNING && FindsBlock(c) && TakesTranslation(c, threshold)
    ensures c.m.pc in CacheAtEntry(c).blocks
    ensures JitStep(c, threshold).JitRan?
    ensures var (before, after) := (CacheAtEntry(c), JitStep(c, threshold).c.m.cache);
      var b := before.blocks[c.m.pc];
      if b.code != 0 then SameCounts(before, after)
      else SameCounts(before.(blocks := before.blocks[c.m.pc := b.(code := before.nextHandle)],
                              native := before.native[before.nextHandle := Compile(c.m.pc, b.instrs)],
                              nextHandle := before.nextHandle + 1), after)
           && before.nextHandle != 0
  {
    hide MachineOk, CompileInto, RunNative, GetBlock, SameCounts, Compile;
    EntryOk(c);
    TranslatedStep(c, threshold);
    NativeCounts(AtTranslation(c));
    var m0 := c.m.(cache := CacheAtEntry(c));
    HandlesPositive(m0);
    StartIs(m0);
    CompileCounts(m0.cache, m0.pc, AtTranslation(c).cache, JitStep(c, threshold).c.m.cache);
  }

  lemma StartIs(m: Machine)
    requires MachineOk(m) && m.pc in m.cache.blocks
    ensures m.cache.blocks[m.pc].start == m.pc
  {
  }

  lemma CompileCounts(before: Cache, a: Word, middle: Cache, after: Cache)
    requires a in before.blocks && before.blocks[a].start == a && SameCounts(middle, after)
    ensures middle == CompileInto(before, a) ==>
      SameCounts(before.(blocks := before.blocks[a := before.blocks[a].(code := before.nextHandle)],
                         native := before.native[before.nextHandle := Compile(a, before.blocks[a].instrs)],
                         nextHandle := before.nextHandle + 1), after)
  {
    hide Compile, SlotsOf, OpenSlots;
  }
}
