/** Guest memory: bounds and alignment checks, little-endian words, dirty code ranges. */
module GuestMemory {
  import opened Words
  import opened BitUtils

  datatype ErrorCode =
    | INVALID_INSTRUCTION
    | MEMORY_OUT_OF_BOUNDS
    | MISALIGNED_ACCESS
    | UNSUPPORTED_SYSCALL

  datatype Access<+T> = Done(value: T) | Failed(code: ErrorCode)

  datatype CodeRange = CodeRange(address: Word, size: nat)

  predicate Overlaps(range: CodeRange, address: int, count: nat) {
    range.address < address + count && address < range.address + range.size
  }

  /** Some range of the list overlaps the `count` bytes at `address`. */
  predicate Touches(ranges: seq<CodeRange>, address: int, count: nat) {
    exists k :: 0 <= k < |ranges| && Overlaps(ranges[k], address, count)
  }

  /** The contents of a memory of less than 2^32 bytes. */
  type Image = b: seq<Byte> | |b| < 0x1_0000_0000

  datatype Mem = Mem(bytes: Image, regions: seq<CodeRange>, dirty: seq<CodeRange>)

  /** The bounds check as three comparisons that cannot overflow. */
  predicate BoundsFail(size: nat, address: Word, count: nat) {
    address > size || count > size - address || count > 0x1_0000_0000 - address
  }

  /** The check accepts exactly the ranges inside both the memory and the address space. */
  lemma BoundsMeaning(size: nat, address: Word, count: nat)
    ensures !BoundsFail(size, address, count)
       <==> address + count <= size && address + count <= 0x1_0000_0000
  {
  }

  function Check32(size: nat, address: Word): (r: Access<()>)
    ensures r.Done? <==> address + 4 <= size && address % 4 == 0
  {
    if BoundsFail(size, address, 4) then Failed(MEMORY_OUT_OF_BOUNDS)
    else if address % 4 != 0 then Failed(MISALIGNED_ACCESS)
    else Done(())
  }

  function WordAt(bytes: Image, address: nat): Word
    requires address + 4 <= |bytes|
  {
    DecodeLittleEndianWord(bytes[address], bytes[address + 1], bytes[address + 2], bytes[address + 3])
  }

  function PutWord(bytes: Image, address: nat, value: Word): (r: Image)
    requires address + 4 <= |bytes|
    ensures |r| == |bytes|
    ensures forall k :: 0 <= k < |bytes| ==>
      r[k] == if address <= k < address + 4 then LittleEndianByte(value, k - address) else bytes[k]
  {
    bytes[address := LittleEndianByte(value, 0)]
         [address + 1 := LittleEndianByte(value, 1)]
         [address + 2 := LittleEndianByte(value, 2)]
         [address + 3 := LittleEndianByte(value, 3)]
  }

  function Read32(mem: Mem, address: Word): Access<Word> {
    match Check32(|mem.bytes|, address)
    case Failed(code) => Failed(code)
    case Done(_) => Done(WordAt(mem.bytes, address))
  }

  function MarkCodeDirty(mem: Mem, address: Word, count: nat): Mem {
    if Touches(mem.regions, address, count)
    then mem.(dirty := mem.dirty + [CodeRange(address, count)])
    else mem
  }

  function Write32(mem: Mem, address: Word, value: Word): Access<Mem> {
    match Check32(|mem.bytes|, address)
    case Failed(code) => Failed(code)
    case Done(_) => Done(MarkCodeDirty(mem.(bytes := PutWord(mem.bytes, address, value)), address, 4))
  }

  /** A stored word is read back, every other aligned word and all regions stay as they were. */
  lemma WriteFrame(mem: Mem, address: Word, value: Word, other: Word)
    requires Write32(mem, address, value).Done?
    ensures var after := Write32(mem, address, value).value;
      && |after.bytes| == |mem.bytes| && after.regions == mem.regions
      && Read32(after, address) == Done(value)
      && (other % 4 == 0 && other != address ==> Read32(after, other) == Read32(mem, other))
      && after.dirty == mem.dirty + (if Touches(mem.regions, address, 4) then [CodeRange(address, 4)] else [])
  {
    LittleEndianRoundTrip(value);
  }

  /** A write leaves every byte outside its word alone. */
  lemma WriteBytes(mem: Mem, address: Word, value: Word, k: nat)
    requires Write32(mem, address, value).Done?
    requires k < |mem.bytes| && !(address <= k < address + 4)
    ensures Write32(mem, address, value).value.bytes[k] == mem.bytes[k]
  {
  }

  class TIMemory {
    const Bytes: array<Byte>
    var ExecutableRegions: seq<CodeRange>
    var DirtyCodeRanges: seq<CodeRange>

    constructor (size: nat)
      requires size < 0x1_0000_0000
      ensures fresh(Bytes) && Bytes.Length == size && Valid()
      ensures View() == Mem(seq(size, _ => 0), [], [])
    {
      Bytes := new Byte[size](_ => 0);
      ExecutableRegions := [];
      DirtyCodeRanges := [];
    }

    ghost predicate Valid() {
      Bytes.Length < 0x1_0000_0000
    }

    ghost function View(): Mem
      requires Valid()
      reads this, Bytes
    {
      Mem(Bytes[..], ExecutableRegions, DirtyCodeRanges)
    }

    method CheckBounds(address: Word, count: nat) returns (fault: bool)
      ensures fault <==> address + count > Bytes.Length || address + count > 0x1_0000_0000
    {
      fault := address > Bytes.Length || count > Bytes.Length - address || count > 0x1_0000_0000 - address;
    }

    method AddExecutableRegion(address: Word, count: nat) returns (fault: bool)
      requires Valid()
      modifies this
      ensures fault <==> address + count > Bytes.Length || address + count > 0x1_0000_0000
      ensures View() == if fault then old(View())
                        else old(View()).(regions := old(ExecutableRegions) + [CodeRange(address, count)])
    {
      fault := CheckBounds(address, count);
      if !fault {
        ExecutableRegions := ExecutableRegions + [CodeRange(address, count)];
      }
    }

    method TakeDirtyCodeRanges() returns (ranges: seq<CodeRange>)
      requires Valid()
      modifies this
      ensures ranges == old(DirtyCodeRanges)
      ensures View() == old(View()).(dirty := [])
    {
      ranges := DirtyCodeRanges;
      DirtyCodeRanges := [];
    }

    method CheckAccess(address: Word) returns (r: Access<()>)
      ensures r == Check32(Bytes.Length, address)
    {
      BoundsMeaning(Bytes.Length, address, 4);
      var fault := CheckBounds(address, 4);
      if fault {
        return Failed(MEMORY_OUT_OF_BOUNDS);
      }
      if address % 4 != 0 {
        return Failed(MISALIGNED_ACCESS);
      }
      return Done(());
    }

    method LoadWord(address: Word) returns (r: Access<Word>)
      requires Valid()
      ensures r == Read32(View(), address)
    {
      var checked := CheckAccess(address);
      if checked.Failed? {
        return Failed(checked.code);
      }
      return Done(DecodeLittleEndianWord(Bytes[address], Bytes[address + 1], Bytes[address + 2], Bytes[address + 3]));
    }

    method EncodeWord(address: Word, value: Word)
      requires Valid() && address + 4 <= Bytes.Length
      modifies Bytes
      ensures Bytes[..] == PutWord(old(Bytes[..]), address, value)
    {
      Bytes[address] := LittleEndianByte(value, 0);
      Bytes[address + 1] := LittleEndianByte(value, 1);
      Bytes[address + 2] := LittleEndianByte(value, 2);
      Bytes[address + 3] := LittleEndianByte(value, 3);
    }

    method MarkDirty(address: Word, count: nat)
      requires Valid()
      modifies `DirtyCodeRanges
      ensures View() == MarkCodeDirty(old(View()), address, count)
    {
      var k := 0;
      while k < |ExecutableRegions|
        invariant 0 <= k <= |ExecutableRegions|
        invariant forall j :: 0 <= j < k ==> !Overlaps(ExecutableRegions[j], address, count)
        invariant DirtyCodeRanges == old(DirtyCodeRanges)
      {
        if Overlaps(ExecutableRegions[k], address, count) {
          DirtyCodeRanges := DirtyCodeRanges + [CodeRange(address, count)];
          return;
        }
        k := k + 1;
      }
    }

    /** A failing store changes nothing; a successful one is `Write32` on the view. */
    method StoreWord(address: Word, value: Word) returns (r: Access<()>)
      requires Valid()
      modifies this, Bytes
      ensures match Write32(old(View()), address, value)
        case Failed(code) => r == Failed(code) && View() == old(View())
        case Done(after) => r == Done(()) && View() == after
    {
      r := CheckAccess(address);
      if r.Done? {
        EncodeWord(address, value);
        MarkDirty(address, 4);
      }
    }
  }
}
