/** The JIT engine: warm-up, compilation, publication of entries, and block chaining. */
module JitEngine {
  import opened Words
  import opened GuestMemory
  import opened Ir
  import opened MachineState
  import opened CacheSpec
  import opened Interpreters
  import opened IrEval
  import opened JitSpec

  /** Slots are allocated empty, and only if they are not there yet. */
  function OpenSlots(entries: map<Word, Handle>, addresses: set<Word>): map<Word, Handle> {
    map a | a in entries.Keys + addresses :: if a in entries then entries[a] else 0
  }

  /** Translate the block at an address, map the code, publish its entry. */
  function CompileInto(cache: Cache, address: Word): Cache
    requires address in cache.blocks
  {
    var b, h := cache.blocks[address], cache.nextHandle;
    Cache(
      cache.blocks[address := b.(code := h)],
      OpenSlots(cache.entries, SlotsOf(b.start, b.instrs))[b.start := h],
      cache.native[h := Compile(b.start, b.instrs)],
      h + 1)
  }

  /** A cache with these parts is the one after the translation. */
  lemma CompiledParts(before: Cache, address: Word, after: Cache)
    requires address in before.blocks
    requires var b, h := before.blocks[address], before.nextHandle;
      && after.blocks == before.blocks[address := b.(code := h)]
      && after.entries == OpenSlots(before.entries, SlotsOf(b.start, b.instrs))[b.start := h]
      && after.native == before.native[h := Compile(b.start, b.instrs)]
      && after.nextHandle == h + 1
    ensures after == CompileInto(before, address)
  {
    hide Compile, SlotsOf, OpenSlots;
  }

  function RecordExecution(cache: Cache, address: Word): Cache
    requires address in cache.blocks
  {
    var b := cache.blocks[address];
    cache.(blocks := cache.blocks[address := b.(count := b.count + 1)])
  }

  /** Calling an entry point; a handle of code that is not mapped is undefined behaviour. */
  function RunNative(m: Machine, h: Handle): Result {
    if h in m.cache.native then Eval(m.cache.native[h], 0, Entered(m)) else Stuck
  }

  function Entered(m: Machine): Frame {
    Frame(m, map[], false)
  }

  /** A machine and the entry that the chain goes on with; 0 is the interpreter loop. */
  datatype Config = Config(m: Machine, next: Handle)

  datatype JitProgress =
    | JitRan(c: Config)
    | JitThrew(m: Machine, code: ErrorCode)
    | JitFetchError(m: Machine, code: ErrorCode)
    | Crash

  function AfterNative(r: Result): JitProgress {
    match r
    case Returned(m, h) => JitRan(Config(m, h))
    case Stuck => Crash
  }

  function AfterThreaded(p: Progress): JitProgress {
    match p
    case Ran(m) => JitRan(Config(m, 0))
    case Threw(m, code) => JitThrew(m, code)
    case FetchError(m, code) => JitFetchError(m, code)
  }

  predicate StaysCold(b: Block, threshold: nat) {
    b.code == 0 && b.count < threshold
  }

  /** The block at the PC, found in the cache, is entered from the interpreter loop. */
  function EnterBlock(m: Machine, threshold: nat): JitProgress
    requires m.pc in m.cache.blocks
  {
    var b := m.cache.blocks[m.pc];
    if b.instrs == [] then Crash
    else if StaysCold(b, threshold) then
      AfterThreaded(Settle(ThreadFrom(m.(cache := RecordExecution(m.cache, m.pc)), b.instrs, 0)))
    else
      var cache := if b.code == 0 then CompileInto(m.cache, m.pc) else m.cache;
      AfterNative(RunNative(m.(cache := cache), cache.blocks[m.pc].code))
  }

  lemma EnterCold(m: Machine, threshold: nat)
    requires m.pc in m.cache.blocks && m.cache.blocks[m.pc].instrs != [] && StaysCold(m.cache.blocks[m.pc], threshold)
    ensures EnterBlock(m, threshold) == AfterThreaded(
      Settle(ThreadFrom(m.(cache := RecordExecution(m.cache, m.pc)), m.cache.blocks[m.pc].instrs, 0)))
  {
  }

  lemma EnterHot(m: Machine, threshold: nat)
    requires m.pc in m.cache.blocks && m.cache.blocks[m.pc].instrs != [] && !StaysCold(m.cache.blocks[m.pc], threshold)
    ensures var cache := if m.cache.blocks[m.pc].code == 0 then CompileInto(m.cache, m.pc) else m.cache;
      m.pc in cache.blocks &&
      EnterBlock(m, threshold) == AfterNative(RunNative(m.(cache := cache), cache.blocks[m.pc].code))
  {
    hide RunNative;
  }

  /** One block: the next one of the chain, or one from the interpreter loop. */
  function JitStep(c: Config, threshold: nat): JitProgress {
    if c.next != 0 then AfterNative(RunNative(c.m, c.next))
    else
      match GetBlock(c.m.cache, c.m.mem, c.m.pc)
      case Missing(cache, code) => JitFetchError(c.m.(cache := cache), code)
      case Found(cache) => EnterBlock(c.m.(cache := cache), threshold)
  }
}
