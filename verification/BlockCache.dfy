/** The block cache as the program holds it: mutable blocks, slots, and mapped code. */
module BlockCache {
  import opened Words
  import opened Instructions
  import opened Decoder
  import opened GuestMemory
  import opened Ir
  import opened MachineState
  import opened CacheSpec
  import opened JitEngine

  /** `instrs` is what decoding at `address` has read when it comes to `current`. */
  ghost predicate Decoding(mem: Mem, address: Word, instrs: seq<Instr>, current: Word) {
    if instrs == [] then current == address
    else
      && Check32(|mem.bytes|, address).Done? && current + 4 <= |mem.bytes| && current % 4 == 0
      && DecodeFrom(mem, address) == instrs + DecodeFrom(mem, current)
  }

  lemma DecodingStarts(mem: Mem, address: Word)
    ensures Decoding(mem, address, [], address)
  {
  }

  lemma DecodingFails(mem: Mem, address: Word, instrs: seq<Instr>, current: Word)
    requires Decoding(mem, address, instrs, current) && Check32(|mem.bytes|, current).Failed?
    ensures DecodeBlock(mem, address) == Failed(Check32(|mem.bytes|, current).code)
  {
    hide DecodeFrom;
  }

  lemma DecodingStep(mem: Mem, address: Word, instrs: seq<Instr>, current: Word)
    requires Decoding(mem, address, instrs, current) && Check32(|mem.bytes|, current).Done?
    ensures var i := InstrAt(mem, current);
      if EndsBlock(i) || current + 8 > |mem.bytes| then DecodeBlock(mem, address) == Done(instrs + [i])
      else Decoding(mem, address, instrs + [i], current + 4)
  {
    hide InstrAt;
    var i := InstrAt(mem, current);
    if !EndsBlock(i) && current + 8 <= |mem.bytes| {
      var rest := DecodeFrom(mem, current + 4);
      assert instrs + ([i] + rest) == instrs + [i] + rest;
      if instrs == [] {
        assert [] + [i] == [i];
      }
    } else if instrs == [] {
      assert [] + [i] == [i];
    }
  }

  // ---- invalidation, block by block ----

  /** Invalidation of the block at `a` and of its slot, if the range hits the block. */
  ghost function InvalidateOne(cache: Cache, a: Word, range: CodeRange): Cache
    requires a in cache.blocks
  {
    cache.(
      blocks := cache.blocks[a := Invalidated(cache.blocks[a], range)],
      entries := if Hit(cache.blocks[a], range) && a in cache.entries then cache.entries[a := 0] else cache.entries)
  }

  /** The blocks still to visit are as before, the others are invalidated if hit. */
  ghost function Visited(before: Cache, range: CodeRange, todo: set<Word>): Cache {
    before.(
      blocks := map a | a in before.blocks ::
        if a in todo then before.blocks[a] else Invalidated(before.blocks[a], range),
      entries := map a | a in before.entries ::
        if a in before.blocks && a !in todo && Hit(before.blocks[a], range) then 0 else before.entries[a])
  }

  lemma NoneVisited(before: Cache, range: CodeRange)
    ensures Visited(before, range, before.blocks.Keys) == before
  {
    hide Hit;
    assert Visited(before, range, before.blocks.Keys).blocks == before.blocks;
    assert Visited(before, range, before.blocks.Keys).entries == before.entries;
  }

  lemma AllVisited(before: Cache, range: CodeRange)
    ensures Visited(before, range, {}) == InvalidateRange(before, range)
  {
    hide Hit;
    assert Visited(before, range, {}).blocks == InvalidateRange(before, range).blocks;
  }

  lemma StillToVisit(before: Cache, range: CodeRange, todo: set<Word>, a: Word)
    requires a in todo && a in Visited(before, range, todo).blocks
    ensures a in before.blocks && Visited(before, range, todo).blocks[a] == before.blocks[a]
  {
  }

  lemma VisitOne(before: Cache, range: CodeRange, todo: set<Word>, a: Word)
    requires a in todo && a in before.blocks
    ensures a in Visited(before, range, todo).blocks
    ensures InvalidateOne(Visited(before, range, todo), a, range) == Visited(before, range, todo - {a})
  {
    hide Hit;
    var now, after := Visited(before, range, todo), Visited(before, range, todo - {a});
    assert InvalidateOne(now, a, range).blocks == after.blocks;
    assert InvalidateOne(now, a, range).entries == after.entries;
  }

  class TIBasicBlock {
    const StartAddress: Word
    const Instructions: seq<Instr>
    var ExecutionCount: nat
    var ValidFlag: bool
    var EntryPoint: Handle

    constructor (start: Word, instructions: seq<Instr>)
      ensures StartAddress == start && View() == Block(start, instructions, true, 0, 0)
    {
      StartAddress := start;
      Instructions := instructions;
      ExecutionCount := 0;
      ValidFlag := true;
      EntryPoint := 0;
    }

    ghost function View(): Block
      reads this
    {
      Block(StartAddress, Instructions, ValidFlag, ExecutionCount, EntryPoint)
    }

    function EndAddress(): (r: Word)
      reads this
      ensures r == BlockEnd(View())
    {
      Wrap(StartAddress + 4 * |Instructions|)
    }

    method Invalidate()
      modifies `ValidFlag
      ensures View() == old(View()).(valid := false)
    {
      ValidFlag := false;
    }

    method Record()
      modifies `ExecutionCount
      ensures View() == old(View()).(count := old(ExecutionCount) + 1)
    {
      ExecutionCount := ExecutionCount + 1;
    }

    method SetCompiled(entry: Handle)
      modifies `EntryPoint
      ensures View() == old(View()).(code := entry)
    {
      EntryPoint := entry;
    }
  }

  class TIBasicBlockCache {
    var Blocks: map<Word, TIBasicBlock>
    var JitEntries: map<Word, Handle>
    var Native: map<Handle, seq<Node>>
    var NextHandle: Handle

    constructor ()
      ensures Valid() && Blocks == map[] && View() == Cache(map[], map[], map[], 1)
    {
      Blocks := map[];
      JitEntries := map[];
      Native := map[];
      NextHandle := 1;
    }

    /** A block is filed under its start address, so different addresses hold different objects. */
    ghost predicate Valid()
      reads this
    {
      forall a :: a in Blocks ==> Blocks[a].StartAddress == a
    }

    ghost function BlocksView(): map<Word, Block>
      reads `Blocks, Blocks.Values
    {
      map a | a in Blocks :: Blocks[a].View()
    }

    ghost function View(): Cache
      reads this, Blocks.Values
    {
      Cache(BlocksView(), JitEntries, Native, NextHandle)
    }

    /** The decode loop: instructions up to a terminator or the end of memory. */
    method DecodeInstructions(address: Word, memory: TIMemory) returns (r: Access<seq<Instr>>)
      requires memory.Valid()
      ensures r == DecodeBlock(memory.View(), address)
    {
      hide Decode, DecodeFrom, DecodeBlock, Decoding;
      ghost var mem := memory.View();
      var instructions := [];
      var current: Word := address;
      assert Decoding(mem, address, [], address) by { DecodingStarts(mem, address); }
      while true
        invariant Decoding(mem, address, instructions, current)
        decreases memory.Bytes.Length - current
      {
        var word := memory.LoadWord(current);
        if word.Failed? {
          DecodingFails(mem, address, instructions, current);
          return Failed(word.code);
        }
        DecodingStep(mem, address, instructions, current);
        var i := Decode(word.value);
        instructions := instructions + [i];
        if EndsBlock(i) {
          return Done(instructions);
        }
        current := Wrap(current + 4);
        if current + 4 > memory.Bytes.Length {
          return Done(instructions);
        }
      }
    }

    method Evicts(address: Word)
      requires Valid()
      modifies this
      ensures Valid() && View() == Evict(old(View()), address)
      ensures Blocks == old(Blocks) - {address}
    {
      if address in Blocks {
        Native := Native - {Blocks[address].EntryPoint};
        Blocks := Blocks - {address};
        assert View().blocks == old(View()).blocks - {address};
      }
    }

    method Lookup(address: Word, memory: TIMemory) returns (r: Access<TIBasicBlock>)
      requires Valid() && memory.Valid()
      modifies this
      ensures Valid()
      ensures match GetBlock(old(View()), memory.View(), address)
        case Missing(cache, code) => r == Failed(code) && View() == cache
        case Found(cache) => r.Done? && View() == cache && address in Blocks && Blocks[address] == r.value
      ensures forall a :: a in Blocks ==> fresh(Blocks[a]) || (a in old(Blocks) && Blocks[a] == old(Blocks)[a])
    {
      if address in Blocks && Blocks[address].ValidFlag {
        return Done(Blocks[address]);
      }
      hide DecodeBlock, Evict;
      Evicts(address);
      var instructions := DecodeInstructions(address, memory);
      if instructions.Failed? {
        return Failed(instructions.code);
      }
      var block := Installs(address, instructions.value);
      return Done(block);
    }

    method Installs(address: Word, instructions: seq<Instr>) returns (block: TIBasicBlock)
      requires Valid()
      modifies this
      ensures Valid() && View() == Install(old(View()), address, instructions)
      ensures fresh(block) && Blocks == old(Blocks)[address := block]
    {
      ghost var before := View();
      block := new TIBasicBlock(address, instructions);
      Blocks := Blocks[address := block];
      assert View().blocks == before.blocks[address := block.View()];
    }

    /** Visit every block; a hit block loses its valid flag and its slot is nulled. */
    method InvalidatesRange(address: Word, count: nat)
      requires Valid()
      modifies this`JitEntries, Blocks.Values
      ensures Valid() && View() == InvalidateRange(old(View()), CodeRange(address, count))
      ensures Blocks == old(Blocks)
    {
      hide Hit, Visited;
      ghost var range := CodeRange(address, count);
      ghost var before := View();
      var todo := Blocks.Keys;
      assert todo == before.blocks.Keys;
      NoneVisited(before, range);
      while todo != {}
        invariant todo <= Blocks.Keys && Blocks == old(Blocks)
        invariant View() == Visited(before, range, todo)
        decreases |todo|
      {
        var a :| a in todo;
        assert a in before.blocks && View().blocks[a] == before.blocks[a] by { StillToVisit(before, range, todo, a); }
        VisitOne(before, range, todo, a);
        Visit(a, Blocks[a], address, count);
        todo := todo - {a};
      }
      AllVisited(before, range);
    }

    method Visit(a: Word, block: TIBasicBlock, address: Word, count: nat)
      requires Valid() && a in Blocks && Blocks[a] == block
      modifies this`JitEntries, block`ValidFlag
      ensures View() == InvalidateOne(old(View()), a, CodeRange(address, count))
    {
      ghost var before := View();
      if block.StartAddress < address + count && address < block.EndAddress() {
        if a in JitEntries {
          JitEntries := JitEntries[a := 0];
        }
        block.Invalidate();
      }
      assert BlocksView() == before.blocks[a := Invalidated(before.blocks[a], CodeRange(address, count))];
    }

    method InvalidatesAll(ranges: seq<CodeRange>)
      requires Valid()
      modifies this`JitEntries, Blocks.Values
      ensures Valid() && View() == InvalidateAll(old(View()), ranges)
      ensures Blocks == old(Blocks)
    {
      ghost var before := View();
      var k := 0;
      while k < |ranges|
        invariant 0 <= k <= |ranges|
        invariant Valid() && Blocks == old(Blocks)
        invariant InvalidateAll(View(), ranges[k..]) == InvalidateAll(before, ranges)
      {
        assert ranges[k..][0] == ranges[k] && ranges[k..][1..] == ranges[k + 1..];
        InvalidatesRange(ranges[k].address, ranges[k].size);
        k := k + 1;
      }
    }

    method JitEntrySlot(address: Word)
      modifies this`JitEntries
      ensures JitEntries == OpenSlots(old(JitEntries), {address})
    {
      if address !in JitEntries {
        JitEntries := JitEntries[address := 0];
      }
    }

    /** Store the translation of one of the blocks. */
    method SetCompiled(block: TIBasicBlock, entry: Handle)
      requires Valid() && block.StartAddress in Blocks && Blocks[block.StartAddress] == block
      modifies block`EntryPoint
      ensures Valid()
      ensures BlocksView() == old(BlocksView())[block.StartAddress := old(block.View()).(code := entry)]
    {
      block.SetCompiled(entry);
    }

    method SetJitEntry(address: Word, entry: Handle)
      modifies this`JitEntries
      ensures JitEntries == old(JitEntries)[address := entry]
    {
      JitEntrySlot(address);
      JitEntries := JitEntries[address := entry];
    }

    /** The IR library maps translated code at a new entry point. */
    method MapCode(code: seq<Node>) returns (entry: Handle)
      modifies this`Native, this`NextHandle
      ensures entry == old(NextHandle) && NextHandle == old(NextHandle) + 1
      ensures Native == old(Native)[entry := code]
    {
      entry := NextHandle;
      Native := Native[entry := code];
      NextHandle := entry + 1;
    }
  }
}
