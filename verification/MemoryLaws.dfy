/** What memory operations do, byte by byte and in plain arithmetic. */
module MemoryLaws {
  import opened Words
  import opened GuestMemory

  /** Byte `x` lies in the `count` bytes at `address`. */
  predicate InExtent(x: int, address: int, count: nat) {
    address <= x < address + count
  }

  ghost predicate ShareByte(a: int, m: nat, b: int, n: nat) {
    exists x :: InExtent(x, a, m) && InExtent(x, b, n)
  }

  /** Two non-empty extents overlap exactly when they share a byte. */
  lemma OverlapsMeaning(range: CodeRange, address: int, count: nat)
    requires range.size > 0 && count > 0
    ensures Overlaps(range, address, count) <==> ShareByte(range.address, range.size, address, count)
  {
    var x: int := if address < range.address then range.address else address;
    if Overlaps(range, address, count) {
      assert InExtent(x, range.address, range.size) && InExtent(x, address, count);
    }
  }

  /**
    The word at `address` shares a byte with some region. The comparisons of the program
    also take an empty region strictly inside the word for one; the loader makes none.
  */
  ghost predicate MeetsRegion(regions: seq<CodeRange>, address: nat) {
    exists k :: 0 <= k < |regions| && MeetsWord(regions[k], address)
  }

  ghost predicate MeetsWord(region: CodeRange, address: nat) {
    ShareByte(region.address, region.size, address, 4)
    || (region.size == 0 && address < region.address < address + 4)
  }

  lemma OverlapsWord(region: CodeRange, address: nat)
    ensures Overlaps(region, address, 4) <==> MeetsWord(region, address)
  {
    if region.size > 0 {
      OverlapsMeaning(region, address, 4);
    }
  }

  lemma TouchesMeaning(regions: seq<CodeRange>, address: nat)
    ensures Touches(regions, address, 4) <==> MeetsRegion(regions, address)
  {
    hide Overlaps, MeetsWord;
    forall k | 0 <= k < |regions|
      ensures Overlaps(regions[k], address, 4) <==> MeetsWord(regions[k], address)
    {
      OverlapsWord(regions[k], address);
    }
  }

  /** An aligned access of four bytes inside the memory, or the error that is reported first. */
  function AccessError(mem: Mem, address: Word): Access<()> {
    if address + 4 > |mem.bytes| then Failed(MEMORY_OUT_OF_BOUNDS)
    else if address % 4 != 0 then Failed(MISALIGNED_ACCESS)
    else Done(())
  }

  /** Four bytes as a number, the lowest first. */
  function WordValue(bytes: Image, address: nat): int
    requires address + 4 <= |bytes|
  {
    var b0: int, b1: int := bytes[address], bytes[address + 1];
    var b2: int, b3: int := bytes[address + 2], bytes[address + 3];
    b0 + 0x100 * b1 + 0x1_0000 * b2 + 0x100_0000 * b3
  }

  /** A read yields its four bytes, the lowest first. */
  lemma ReadLaw(mem: Mem, address: Word)
    ensures match AccessError(mem, address)
      case Failed(code) => Read32(mem, address) == Failed(code)
      case Done(_) =>
        Read32(mem, address).Done? && Read32(mem, address).value == WordValue(mem.bytes, address)
  {
  }

  /** `after` is `mem` with the four bytes of a word stored and, if it is code, marked. */
  ghost predicate Stored(mem: Mem, address: nat, value: Word, after: Mem) {
    && address + 4 <= |mem.bytes| == |after.bytes|
    && after.bytes[address] == value % 0x100 && after.bytes[address + 1] == value / 0x100 % 0x100
    && after.bytes[address + 2] == value / 0x1_0000 % 0x100 && after.bytes[address + 3] == value / 0x100_0000
    && (forall k :: 0 <= k < |mem.bytes| && !(address <= k < address + 4) ==> after.bytes[k] == mem.bytes[k])
    && after.regions == mem.regions
    && after.dirty == mem.dirty + if MeetsRegion(mem.regions, address) then [CodeRange(address, 4)] else []
  }

  /** A write stores its four bytes and marks them exactly when they meet a region, or fails. */
  lemma WriteLaw(mem: Mem, address: Word, value: Word)
    ensures match AccessError(mem, address)
      case Failed(code) => Write32(mem, address, value) == Failed(code)
      case Done(_) =>
        Write32(mem, address, value).Done? && Stored(mem, address, value, Write32(mem, address, value).value)
  {
    hide Touches, MeetsRegion;
    TouchesMeaning(mem.regions, address);
  }
}
