/** What every step keeps about the block cache, the chaining slots and the mapped code. */
module CacheInvariants {
  import opened Words
  import opened BitOperations
  import opened Instructions
  import opened GuestMemory
  import opened Ir
  import opened MachineState
  import opened CacheSpec
  import opened Executor
  import opened Interpreters
  import opened JitSpec
  import opened JitEngine

  /** The shape of a block that `DecodeBlock` can build in a memory of `size` bytes. */
  predicate WellShaped(start: Word, instrs: seq<Instr>, size: nat) {
    && start % 4 == 0 && |instrs| > 0 && start + 4 * |instrs| <= size
    && TerminatorsLast(instrs)
    && (EndsBlock(instrs[|instrs| - 1]) || start + 4 * |instrs| + 4 > size)
  }

  predicate BlocksOk(blocks: map<Word, Block>, size: nat) {
    forall a :: a in blocks ==> blocks[a].start == a && WellShaped(a, blocks[a].instrs, size)
  }

  /** Every translation is mapped, is the compilation of its block, and finds its slots. */
  predicate CodeOk(cache: Cache) {
    forall a :: a in cache.blocks && cache.blocks[a].code != 0 ==>
      && cache.blocks[a].code in cache.native
      && cache.native[cache.blocks[a].code] == Compile(a, cache.blocks[a].instrs)
      && SlotsOf(a, cache.blocks[a].instrs) <= cache.entries.Keys
  }

  /** A slot is non-null exactly for a valid translated block, and holds that block's entry. */
  predicate SlotsOk(cache: Cache) {
    && (forall a :: a in cache.entries && cache.entries[a] != 0 ==>
          HasValid(cache, a) && cache.blocks[a].code == cache.entries[a])
    && (forall a :: a in cache.blocks && cache.blocks[a].valid && cache.blocks[a].code != 0 ==>
          a in cache.entries && cache.entries[a] == cache.blocks[a].code)
  }

  predicate Owned(cache: Cache, h: Handle) {
    exists a :: a in cache.blocks && cache.blocks[a].code == h
  }

  /** Mapped code belongs to exactly one block; nothing is leaked. */
  predicate OwnersOk(cache: Cache) {
    && cache.nextHandle > 0 && 0 !in cache.native
    && (forall h :: h in cache.native ==> h < cache.nextHandle && Owned(cache, h))
    && (forall a, b :: a in cache.blocks && b in cache.blocks && a != b && cache.blocks[a].code != 0 ==>
          cache.blocks[a].code != cache.blocks[b].code)
  }

  predicate CacheOk(cache: Cache, size: nat) {
    BlocksOk(cache.blocks, size) && CodeOk(cache) && SlotsOk(cache) && OwnersOk(cache)
  }

  predicate MachineOk(m: Machine) {
    CacheOk(m.cache, |m.mem.bytes|)
  }

  // ---- decoding ----

  /** Decoding yields a well-shaped block whose instructions are those of the memory words. */
  lemma {:induction false} DecodeFromShape(mem: Mem, address: Word)
    requires address + 4 <= |mem.bytes| && address % 4 == 0
    ensures WellShaped(address, DecodeFrom(mem, address), |mem.bytes|)
    ensures forall k :: 0 <= k < |DecodeFrom(mem, address)| ==>
      DecodeFrom(mem, address)[k] == InstrAt(mem, address + 4 * k)
    decreases |mem.bytes| - address
  {
    hide InstrAt;
    var i := InstrAt(mem, address);
    if !EndsBlock(i) && address + 8 <= |mem.bytes| {
      DecodeFromShape(mem, address + 4);
      var rest := DecodeFrom(mem, address + 4);
      forall k | 0 <= k < |[i] + rest|
        ensures ([i] + rest)[k] == InstrAt(mem, address + 4 * k)
      {
        if k > 0 {
          assert ([i] + rest)[k] == rest[k - 1];
        }
      }
    }
  }

  /**
    Decoding fails exactly when the first word is misaligned or out of bounds, never on
    a look-ahead read; otherwise the block is well shaped and mirrors the memory words.
  */
  lemma DecodeBlockShape(mem: Mem, address: Word)
    ensures DecodeBlock(mem, address).Done? <==> address + 4 <= |mem.bytes| && address % 4 == 0
    ensures match DecodeBlock(mem, address)
      case Failed(code) => code == if address + 4 > |mem.bytes| then MEMORY_OUT_OF_BOUNDS else MISALIGNED_ACCESS
      case Done(instrs) =>
        && WellShaped(address, instrs, |mem.bytes|)
        && forall k :: 0 <= k < |instrs| ==> instrs[k] == InstrAt(mem, address + 4 * k)
  {
    hide InstrAt, WellShaped;
    if address + 4 <= |mem.bytes| && address % 4 == 0 {
      DecodeFromShape(mem, address);
    }
  }

  /** Shape and contents determine the block: decoding yields no other. */
  lemma {:induction false} DecodeFromUnique(mem: Mem, address: Word, instrs: seq<Instr>)
    requires WellShaped(address, instrs, |mem.bytes|)
    requires forall k :: 0 <= k < |instrs| ==> instrs[k] == InstrAt(mem, address + 4 * k)
    ensures address + 4 <= |mem.bytes| && DecodeFrom(mem, address) == instrs
    decreases |instrs|
  {
    hide InstrAt;
    assert instrs[0] == InstrAt(mem, address + 4 * 0);
    if |instrs| > 1 {
      var rest := instrs[1..];
      forall k | 0 <= k < |rest|
        ensures rest[k] == InstrAt(mem, address + 4 + 4 * k)
      {
        assert rest[k] == instrs[k + 1];
      }
      DecodeFromUnique(mem, address + 4, rest);
      assert instrs == [instrs[0]] + rest;
    }
  }

  // ---- lookup ----

  lemma EvictOwners(cache: Cache, address: Word)
    requires OwnersOk(cache)
    ensures OwnersOk(Evict(cache, address))
  {
    var after := Evict(cache, address);
    forall h | h in after.native
      ensures h < after.nextHandle && Owned(after, h)
    {
      var a :| a in cache.blocks && cache.blocks[a].code == h;
      assert a in after.blocks;
    }
  }

  lemma EvictCode(cache: Cache, address: Word)
    requires CodeOk(cache) && OwnersOk(cache)
    ensures CodeOk(Evict(cache, address))
  {
    hide Compile, SlotsOf;
  }

  lemma EvictSlots(cache: Cache, address: Word)
    requires SlotsOk(cache) && !HasValid(cache, address)
    ensures SlotsOk(Evict(cache, address))
    ensures address !in Evict(cache, address).blocks
    ensures address in cache.entries ==> cache.entries[address] == 0
  {
  }

  /** Erasing an invalid block unmaps its code; no slot refers to it. */
  lemma EvictOk(cache: Cache, size: nat, address: Word)
    requires CacheOk(cache, size) && !HasValid(cache, address)
    ensures CacheOk(Evict(cache, address), size)
    ensures address !in Evict(cache, address).blocks
    ensures address in cache.entries ==> cache.entries[address] == 0
  {
    hide WellShaped, CodeOk, SlotsOk, OwnersOk;
    EvictOwners(cache, address);
    EvictCode(cache, address);
    EvictSlots(cache, address);
  }

  lemma InstallOwners(cache: Cache, address: Word, instrs: seq<Instr>)
    requires OwnersOk(cache) && address !in cache.blocks
    ensures OwnersOk(Install(cache, address, instrs))
  {
    var after := Install(cache, address, instrs);
    forall h | h in after.native
      ensures h < after.nextHandle && Owned(after, h)
    {
      var a :| a in cache.blocks && cache.blocks[a].code == h;
      assert a in after.blocks && after.blocks[a].code == h;
    }
  }

  lemma InstallCode(cache: Cache, address: Word, instrs: seq<Instr>)
    requires CodeOk(cache)
    ensures CodeOk(Install(cache, address, instrs))
  {
    hide Compile, SlotsOf;
  }

  lemma InstallSlots(cache: Cache, address: Word, instrs: seq<Instr>)
    requires SlotsOk(cache) && address !in cache.blocks
    requires address in cache.entries ==> cache.entries[address] == 0
    ensures SlotsOk(Install(cache, address, instrs))
  {
  }

  lemma InstallOk(cache: Cache, size: nat, address: Word, instrs: seq<Instr>)
    requires CacheOk(cache, size) && address !in cache.blocks && WellShaped(address, instrs, size)
    requires address in cache.entries ==> cache.entries[address] == 0
    ensures CacheOk(Install(cache, address, instrs), size)
  {
    hide WellShaped, CodeOk, SlotsOk, OwnersOk;
    InstallOwners(cache, address, instrs);
    InstallCode(cache, address, instrs);
    InstallSlots(cache, address, instrs);
  }

  lemma GetBlockOk(cache: Cache, mem: Mem, address: Word)
    requires CacheOk(cache, |mem.bytes|)
    ensures CacheOk(GetBlock(cache, mem, address).cache, |mem.bytes|)
  {
    hide CacheOk, Evict, Install, WellShaped;
    if !HasValid(cache, address) {
      EvictOk(cache, |mem.bytes|, address);
      DecodeBlockShape(mem, address);
      if DecodeBlock(mem, address).Done? {
        EvictKeepsEntries(cache, address);
        InstallOk(Evict(cache, address), |mem.bytes|, address, DecodeBlock(mem, address).value);
      }
    }
  }

  lemma EvictKeepsEntries(cache: Cache, address: Word)
    ensures Evict(cache, address).entries == cache.entries
  {
  }

  // ---- invalidation ----

  /** Blocks differ at most in their valid flags and counters; the mapped code is the same. */
  predicate SameCode(c: Cache, d: Cache) {
    && c.blocks.Keys == d.blocks.Keys && c.entries.Keys == d.entries.Keys
    && c.native == d.native && c.nextHandle == d.nextHandle
    && forall a :: a in c.blocks ==>
         && d.blocks[a].start == c.blocks[a].start
         && d.blocks[a].instrs == c.blocks[a].instrs
         && d.blocks[a].code == c.blocks[a].code
  }

  lemma SameOwners(c: Cache, d: Cache)
    requires OwnersOk(c) && SameCode(c, d)
    ensures OwnersOk(d)
  {
    forall h | h in d.native
      ensures h < d.nextHandle && Owned(d, h)
    {
      var a :| a in c.blocks && c.blocks[a].code == h;
      assert a in d.blocks && d.blocks[a].code == h;
    }
  }

  lemma SameCodeOk(c: Cache, d: Cache)
    requires CodeOk(c) && SameCode(c, d)
    ensures CodeOk(d)
  {
    hide Compile, SlotsOf;
  }

  lemma SameBlocks(c: Cache, d: Cache, size: nat)
    requires BlocksOk(c.blocks, size) && SameCode(c, d)
    ensures BlocksOk(d.blocks, size)
  {
    hide WellShaped;
  }

  lemma SameOk(c: Cache, d: Cache, size: nat)
    requires CacheOk(c, size) && SameCode(c, d) && SlotsOk(d)
    ensures CacheOk(d, size)
  {
    hide BlocksOk, CodeOk, SlotsOk, OwnersOk, SameCode;
    SameOwners(c, d);
    SameCodeOk(c, d);
    SameBlocks(c, d, size);
  }

  /** A block and its slot are invalidated together. */
  lemma InvalidateRangeSlots(cache: Cache, range: CodeRange)
    requires SlotsOk(cache)
    ensures SlotsOk(InvalidateRange(cache, range))
  {
    hide Hit;
  }

  lemma InvalidateRangeSame(cache: Cache, range: CodeRange)
    ensures SameCode(cache, InvalidateRange(cache, range))
  {
    hide Hit;
  }

  lemma InvalidateRangeOk(cache: Cache, size: nat, range: CodeRange)
    requires CacheOk(cache, size)
    ensures CacheOk(InvalidateRange(cache, range), size)
    ensures InvalidateRange(cache, range).entries.Keys == cache.entries.Keys
  {
    hide InvalidateRange, BlocksOk, CodeOk, SlotsOk, OwnersOk;
    InvalidateRangeSlots(cache, range);
    InvalidateRangeSame(cache, range);
    SameOk(cache, InvalidateRange(cache, range), size);
  }

  lemma {:induction false} InvalidateAllOk(cache: Cache, size: nat, ranges: seq<CodeRange>)
    requires CacheOk(cache, size)
    ensures CacheOk(InvalidateAll(cache, ranges), size)
    ensures InvalidateAll(cache, ranges).entries.Keys == cache.entries.Keys
    decreases |ranges|
  {
    hide CacheOk, InvalidateRange;
    if ranges != [] {
      InvalidateRangeOk(cache, size, ranges[0]);
      InvalidateAllOk(InvalidateRange(cache, ranges[0]), size, ranges[1..]);
    }
  }

  // ---- instructions ----

  /** The memory never changes its size. */
  lemma ExecKeepsSize(m: Machine, i: Instr)
    ensures |Exec(m, i).m.mem.bytes| == |m.mem.bytes| && Exec(m, i).m.mem.regions == m.mem.regions
  {
    hide SaturateSigned, RotateRight, Compress32, Clz32, Or32, InvalidateAll, PutWord, Touches;
  }

  /** Only FLUSH touches the cache. */
  lemma ExecCache(m: Machine, i: Instr)
    ensures Exec(m, i).m.cache == if i.Flush? then InvalidateAll(m.cache, m.mem.dirty) else m.cache
  {
    hide SaturateSigned, RotateRight, Compress32, Clz32, Or32, InvalidateAll, Read32, Write32;
  }

  lemma ExecOk(m: Machine, i: Instr)
    requires MachineOk(m)
    ensures MachineOk(Exec(m, i).m)
  {
    hide Exec, CacheOk;
    ExecKeepsSize(m, i);
    ExecCache(m, i);
    InvalidateAllOk(m.cache, |m.mem.bytes|, m.mem.dirty);
  }

  lemma {:induction false} RunFromOk(m: Machine, instrs: seq<Instr>, k: nat)
    requires MachineOk(m) && k <= |instrs|
    ensures MachineOk(RunFrom(m, instrs, k).m)
    decreases |instrs| - k
  {
    hide Exec, MachineOk;
    if k < |instrs| {
      ExecOk(m, instrs[k]);
      if Exec(m, instrs[k]).Ok? {
        RunFromOk(Exec(m, instrs[k]).m, instrs, k + 1);
      }
    }
  }

  // ---- the JIT ----

  lemma CompileIntoOwners(cache: Cache, address: Word)
    requires OwnersOk(cache) && address in cache.blocks && cache.blocks[address].code == 0
    requires CodeOk(cache)
    ensures OwnersOk(CompileInto(cache, address))
  {
    hide Compile, SlotsOf, OpenSlots;
    var after := CompileInto(cache, address);
    forall h | h in after.native
      ensures h < after.nextHandle && Owned(after, h)
    {
      if h == cache.nextHandle {
        assert address in after.blocks && after.blocks[address].code == h;
      } else {
        var a :| a in cache.blocks && cache.blocks[a].code == h;
        assert a in after.blocks && after.blocks[a].code == h;
      }
    }
  }

  lemma CompileIntoCode(cache: Cache, address: Word)
    requires CodeOk(cache) && OwnersOk(cache) && address in cache.blocks
    requires cache.blocks[address].start == address && cache.blocks[address].code == 0
    ensures CodeOk(CompileInto(cache, address))
  {
    hide Compile, SlotsOf;
  }

  lemma CompileIntoSlots(cache: Cache, address: Word)
    requires SlotsOk(cache) && OwnersOk(cache) && HasValid(cache, address)
    requires cache.blocks[address].start == address && cache.blocks[address].code == 0
    ensures SlotsOk(CompileInto(cache, address))
  {
    hide Compile, SlotsOf;
  }

  lemma CompileIntoOk(cache: Cache, size: nat, address: Word)
    requires CacheOk(cache, size) && HasValid(cache, address) && cache.blocks[address].code == 0
    ensures CacheOk(CompileInto(cache, address), size)
  {
    hide WellShaped, CodeOk, SlotsOk, OwnersOk, OpenSlots, Compile, SlotsOf;
    CompileIntoOwners(cache, address);
    CompileIntoCode(cache, address);
    CompileIntoSlots(cache, address);
  }

  lemma RecordExecutionOk(cache: Cache, size: nat, address: Word)
    requires CacheOk(cache, size) && address in cache.blocks
    ensures CacheOk(RecordExecution(cache, address), size)
  {
    hide BlocksOk, CodeOk, OwnersOk;
    SameOk(cache, RecordExecution(cache, address), size);
  }
}
