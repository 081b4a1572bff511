/** The coherence protocol between cached blocks, memory, and dirty code ranges. */
module Coherence {
  import opened Words
  import opened BitUtils
  import opened BitOperations
  import opened Instructions
  import opened Decoder
  import opened GuestMemory
  import opened MachineState
  import opened CacheSpec
  import opened Executor
  import opened Interpreters
  import opened CacheInvariants

  /** Regions are made of whole words, as the loader demands. */
  predicate RegionsAligned(mem: Mem) {
    forall k :: 0 <= k < |mem.regions| ==> mem.regions[k].address % 4 == 0 && mem.regions[k].size % 4 == 0
  }

  /** A cached instruction of an executable word is current, or a pending dirty range covers the word. */
  predicate WordCoherent(mem: Mem, word: nat, i: Instr) {
    && word + 4 <= |mem.bytes|
    && (Touches(mem.regions, word, 4) ==> i == InstrAt(mem, word) || Touches(mem.dirty, word, 4))
  }

  predicate BlockCoherent(mem: Mem, start: Word, instrs: seq<Instr>) {
    forall k :: 0 <= k < |instrs| ==> WordCoherent(mem, start + 4 * k, instrs[k])
  }

  predicate CacheCoherent(mem: Mem, blocks: map<Word, Block>) {
    forall a :: a in blocks && blocks[a].valid ==> BlockCoherent(mem, a, blocks[a].instrs)
  }

  predicate Coherent(m: Machine) {
    && RegionsAligned(m.mem)
    && BlocksOk(m.cache.blocks, |m.mem.bytes|)
    && CacheCoherent(m.mem, m.cache.blocks)
  }

  // ---- stores ----

  lemma TouchesMore(ranges: seq<CodeRange>, more: seq<CodeRange>, address: int, count: nat)
    ensures Touches(ranges, address, count) || Touches(more, address, count) ==> Touches(ranges + more, address, count)
  {
    if k :| 0 <= k < |ranges| && Overlaps(ranges[k], address, count) {
      assert (ranges + more)[k] == ranges[k];
    }
    if k :| 0 <= k < |more| && Overlaps(more[k], address, count) {
      assert (ranges + more)[|ranges| + k] == more[k];
    }
  }

  lemma TouchesItself(word: Word)
    ensures Touches([CodeRange(word, 4)], word, 4)
  {
    assert Overlaps([CodeRange(word, 4)][0], word, 4);
  }

  /** A store keeps every aligned word coherent: it changes only its own word, and marks it. */
  lemma WriteCoherent(mem: Mem, address: Word, value: Word, word: Word, i: Instr)
    requires word % 4 == 0 && WordCoherent(mem, word, i) && Write32(mem, address, value).Done?
    ensures WordCoherent(Write32(mem, address, value).value, word, i)
  {
    hide Decode, Touches, PutWord, DecodeLittleEndianWord;
    WriteFrame(mem, address, value, word);
    TouchesMore(mem.dirty, [CodeRange(address, 4)], word, 4);
    TouchesItself(address);
  }

  lemma StoreCoherent(m: Machine, address: Word, value: Word)
    requires Coherent(m)
    ensures Coherent(Store(m, address, value).m)
  {
    hide Write32, WordCoherent;
    if Write32(m.mem, address, value).Done? {
      var after := Write32(m.mem, address, value).value;
      WriteFrame(m.mem, address, value, 0);
      forall a, k | a in m.cache.blocks && m.cache.blocks[a].valid && 0 <= k < |m.cache.blocks[a].instrs|
        ensures WordCoherent(after, a + 4 * k, m.cache.blocks[a].instrs[k])
      {
        WriteCoherent(m.mem, address, value, a + 4 * k, m.cache.blocks[a].instrs[k]);
      }
    }
  }

  // ---- FLUSH ----

  /** A block that survives the invalidation of some ranges is hit by none of them. */
  lemma {:induction false} SurvivorsMissed(cache: Cache, ranges: seq<CodeRange>, a: Word)
    requires HasValid(InvalidateAll(cache, ranges), a)
    ensures HasValid(cache, a)
    ensures InvalidateAll(cache, ranges).blocks[a] == cache.blocks[a]
    ensures forall k :: 0 <= k < |ranges| ==> !Hit(cache.blocks[a], ranges[k])
    decreases |ranges|
  {
    hide Hit;
    if ranges != [] {
      SurvivorsMissed(InvalidateRange(cache, ranges[0]), ranges[1..], a);
      forall k | 0 <= k < |ranges|
        ensures !Hit(cache.blocks[a], ranges[k])
      {
        if k > 0 {
          assert ranges[k] == ranges[1..][k - 1];
        }
      }
    }
  }

  /** A range that misses a block touches none of its words. */
  lemma MissedWords(b: Block, size: nat, ranges: seq<CodeRange>, k: nat)
    requires b.start + 4 * |b.instrs| <= size < 0x1_0000_0000 && k < |b.instrs|
    requires forall j :: 0 <= j < |ranges| ==> !Hit(b, ranges[j])
    ensures !Touches(ranges, b.start + 4 * k, 4)
  {
  }

  lemma {:induction false} InvalidateAllBlocksOk(cache: Cache, ranges: seq<CodeRange>, size: nat)
    requires BlocksOk(cache.blocks, size)
    ensures BlocksOk(InvalidateAll(cache, ranges).blocks, size)
    decreases |ranges|
  {
    hide WellShaped, Hit;
    if ranges != [] {
      InvalidateAllBlocksOk(InvalidateRange(cache, ranges[0]), ranges[1..], size);
    }
  }

  lemma FlushCoherent(m: Machine)
    requires Coherent(m)
    ensures Coherent(FlushCaches(m))
  {
    hide InvalidateAll, Decode, WordAt, Touches;
    var after := FlushCaches(m);
    var size := |m.mem.bytes|;
    InvalidateAllBlocksOk(m.cache, m.mem.dirty, size);
    forall a, k | a in after.cache.blocks && after.cache.blocks[a].valid && 0 <= k < |after.cache.blocks[a].instrs|
      ensures WordCoherent(after.mem, a + 4 * k, after.cache.blocks[a].instrs[k])
    {
      SurvivorsMissed(m.cache, m.mem.dirty, a);
      var b := m.cache.blocks[a];
      assert WordCoherent(m.mem, a + 4 * k, b.instrs[k]);
      MissedWords(b, size, m.mem.dirty, k);
    }
  }

  // ---- the read call ----

  /** The bytes a read call stores, if it stores any. */
  function ReadData(m: Machine): seq<Byte> {
    if m.regs[8] == 0 && m.regs[0] == 0 && !BoundsFail(|m.mem.bytes|, m.regs[1], m.regs[2]) && NextReply(m.host).ok
    then Delivered(NextReply(m.host), m.regs[2])
    else []
  }

  /** A system call about to read into an executable region. */
  predicate ReadHitsCode(m: Machine) {
    ReadData(m) != [] && Touches(m.mem.regions, m.regs[1], |ReadData(m)|)
  }

  /** An executable word lies inside its region, so a buffer outside the regions misses it. */
  lemma BufferMissesWord(mem: Mem, word: nat, address: nat, count: nat)
    requires RegionsAligned(mem) && word % 4 == 0 && count > 0
    requires Touches(mem.regions, word, 4) && !Touches(mem.regions, address, count)
    ensures address + count <= word || word + 4 <= address
  {
    var k :| 0 <= k < |mem.regions| && Overlaps(mem.regions[k], word, 4);
    assert !Overlaps(mem.regions[k], address, count);
    WordInside(mem.regions[k], word);
  }

  /** A word that overlaps a region of whole words lies inside it. */
  lemma WordInside(region: CodeRange, word: nat)
    requires region.address % 4 == 0 && region.size % 4 == 0 && word % 4 == 0 && Overlaps(region, word, 4)
    ensures region.address <= word && word + 4 <= region.address + region.size
  {
  }

  lemma PutBytesAt(bytes: Image, address: nat, data: seq<Byte>, k: nat)
    requires address + |data| <= |bytes| && k < |bytes|
    ensures |PutBytes(bytes, address, data)| == |bytes|
    ensures PutBytes(bytes, address, data)[k]
         == if address <= k < address + |data| then data[k - address] else bytes[k]
  {
  }

  lemma PutBytesWord(mem: Mem, address: nat, data: seq<Byte>, word: nat)
    requires address + |data| <= |mem.bytes| && word + 4 <= |mem.bytes|
    requires data == [] || address + |data| <= word || word + 4 <= address
    ensures InstrAt(mem.(bytes := PutBytes(mem.bytes, address, data)), word) == InstrAt(mem, word)
  {
    hide Decode, PutBytes, DecodeLittleEndianWord;
    PutBytesAt(mem.bytes, address, data, word);
    PutBytesAt(mem.bytes, address, data, word + 1);
    PutBytesAt(mem.bytes, address, data, word + 2);
    PutBytesAt(mem.bytes, address, data, word + 3);
  }

  lemma BufferCoherent(m: Machine, address: nat, data: seq<Byte>)
    requires Coherent(m) && address + |data| <= |m.mem.bytes|
    requires data == [] || !Touches(m.mem.regions, address, |data|)
    ensures Coherent(m.(mem := m.mem.(bytes := PutBytes(m.mem.bytes, address, data))))
  {
    hide InstrAt, PutBytes, Touches;
    var after := m.mem.(bytes := PutBytes(m.mem.bytes, address, data));
    assert |after.bytes| == |m.mem.bytes| by { PutBytesLength(m.mem.bytes, address, data); }
    forall a, k | a in m.cache.blocks && m.cache.blocks[a].valid && 0 <= k < |m.cache.blocks[a].instrs|
      ensures WordCoherent(after, a + 4 * k, m.cache.blocks[a].instrs[k])
    {
      var word := a + 4 * k;
      assert WordCoherent(m.mem, word, m.cache.blocks[a].instrs[k]);
      if Touches(m.mem.regions, word, 4) {
        if data != [] {
          BufferMissesWord(m.mem, word, address, |data|);
        }
        PutBytesWord(m.mem, address, data, word);
      }
    }
  }

  lemma PutBytesLength(bytes: Image, address: nat, data: seq<Byte>)
    requires address + |data| <= |bytes|
    ensures |PutBytes(bytes, address, data)| == |bytes|
  {
  }

  lemma SyscallCoherent(m: Machine)
    requires Coherent(m) && !ReadHitsCode(m)
    ensures Coherent(ExecSyscall(m).m)
  {
    hide CacheCoherent, BlocksOk, RegionsAligned, Touches, PutBytes;
    var data := ReadData(m);
    if data != [] {
      BufferCoherent(m, m.regs[1], data);
      CoherentDependsOn(m.(mem := m.mem.(bytes := PutBytes(m.mem.bytes, m.regs[1], data))), ExecSyscall(m).m);
    } else if m.regs[8] == 0 {
      EmptyRead(m);
      CoherentDependsOn(m, ExecSyscall(m).m);
    } else {
      CoherentDependsOn(m, ExecSyscall(m).m);
    }
  }

  lemma EmptyRead(m: Machine)
    requires m.regs[8] == 0 && ReadData(m) == []
    ensures ExecSyscall(m).m.mem == m.mem
  {
    if m.regs[0] == 0 && !BoundsFail(|m.mem.bytes|, m.regs[1], m.regs[2]) {
      assert PutBytes(m.mem.bytes, m.regs[1], []) == m.mem.bytes;
    }
  }

  lemma CoherentDependsOn(m: Machine, n: Machine)
    requires Coherent(m) && m.mem == n.mem && m.cache.blocks == n.cache.blocks
    ensures Coherent(n)
  {
  }

  // ---- every instruction, block and run ----

  /** Stores, loads, FLUSH, faults and half-done store pairs keep coherence. */
  lemma ExecCoherent(m: Machine, i: Instr)
    requires Coherent(m) && !(i.Syscall? && ReadHitsCode(m))
    ensures Coherent(Exec(m, i).m)
  {
    hide Coherent, SaturateSigned, RotateRight, Compress32, Clz32, Or32, InvalidateAll, Read32, Write32, ReadHitsCode,
      ExecSyscall;
    match i
    case Syscall(_) => SyscallCoherent(m);
    case Flush =>
      FlushCoherent(m);
      CoherentDependsOn(FlushCaches(m), Exec(m, i).m);
    case St(rt, base, imm) =>
      StoreCoherent(m, Add32(m.regs[base], imm), m.regs[rt]);
      CoherentDependsOn(Store(m, Add32(m.regs[base], imm), m.regs[rt]).m, Exec(m, i).m);
    case Stp(rt, rt2, base, imm) =>
      StorePairCoherent(m, Add32(m.regs[base], imm), m.regs[rt], m.regs[rt2]);
      CoherentDependsOn(StorePair(m, Add32(m.regs[base], imm), m.regs[rt], m.regs[rt2]).m, Exec(m, i).m);
    case _ => CoherentDependsOn(m, Exec(m, i).m);
  }

  lemma StorePairCoherent(m: Machine, address: Word, first: Word, second: Word)
    requires Coherent(m)
    ensures Coherent(StorePair(m, address, first, second).m)
  {
    hide Coherent, Store;
    StoreCoherent(m, address, first);
    if Store(m, address, first).Ok? {
      StoreCoherent(Store(m, address, first).m, Add32(address, 4), second);
    }
  }

  /** No read call of the block, from instruction `k` on, reads into an executable region. */
  predicate ReadsMissCode(m: Machine, instrs: seq<Instr>, k: nat)
    requires k <= |instrs|
    decreases |instrs| - k
  {
    k == |instrs| ||
    (&& !(instrs[k].Syscall? && ReadHitsCode(m))
     && (Exec(m, instrs[k]).Ok? ==> ReadsMissCode(Exec(m, instrs[k]).m, instrs, k + 1)))
  }

  lemma {:induction false} RunFromCoherent(m: Machine, instrs: seq<Instr>, k: nat)
    requires Coherent(m) && k <= |instrs| && ReadsMissCode(m, instrs, k)
    ensures Coherent(RunFrom(m, instrs, k).m)
    decreases |instrs| - k
  {
    hide Exec, Coherent, ReadHitsCode;
    if k < |instrs| {
      ExecCoherent(m, instrs[k]);
      if Exec(m, instrs[k]).Ok? {
        RunFromCoherent(Exec(m, instrs[k]).m, instrs, k + 1);
      }
    }
  }

  /** A freshly decoded block is coherent, whatever is dirty. */
  lemma DecodedCoherent(mem: Mem, address: Word)
    requires DecodeBlock(mem, address).Done?
    ensures BlockCoherent(mem, address, DecodeBlock(mem, address).value)
  {
    hide InstrAt, Touches;
    DecodeBlockShape(mem, address);
  }

  lemma GetBlockCoherent(m: Machine)
    requires Coherent(m)
    ensures Coherent(m.(cache := GetBlock(m.cache, m.mem, m.pc).cache))
  {
    hide WellShaped, BlockCoherent, DecodeBlock;
    if !HasValid(m.cache, m.pc) && DecodeBlock(m.mem, m.pc).Done? {
      DecodeBlockShape(m.mem, m.pc);
      DecodedCoherent(m.mem, m.pc);
    }
  }
}
