/** Decoding, lookup and invalidation of basic blocks. */
module CacheSpec {
  import opened Words
  import opened Instructions
  import opened Decoder
  import opened GuestMemory
  import opened MachineState

  function InstrAt(mem: Mem, address: nat): Instr
    requires address + 4 <= |mem.bytes|
  {
    Decode(WordAt(mem.bytes, address))
  }

  /** The instructions of the block at an address whose word can be fetched. */
  function DecodeFrom(mem: Mem, address: Word): seq<Instr>
    requires address + 4 <= |mem.bytes|
    decreases |mem.bytes| - address
  {
    var i := InstrAt(mem, address);
    if EndsBlock(i) || address + 8 > |mem.bytes| then [i]
    else [i] + DecodeFrom(mem, address + 4)
  }

  function DecodeBlock(mem: Mem, address: Word): Access<seq<Instr>> {
    match Check32(|mem.bytes|, address)
    case Failed(code) => Failed(code)
    case Done(_) => Done(DecodeFrom(mem, address))
  }

  function BlockEnd(b: Block): Word {
    Wrap(b.start + 4 * |b.instrs|)
  }

  predicate Hit(b: Block, range: CodeRange) {
    b.start < range.address + range.size && range.address < BlockEnd(b)
  }

  datatype Lookup = Found(cache: Cache) | Missing(cache: Cache, code: ErrorCode)

  /** Erasing a block unmaps its translation. */
  function Evict(cache: Cache, address: Word): Cache {
    if address in cache.blocks then
      cache.(blocks := cache.blocks - {address},
             native := cache.native - {cache.blocks[address].code})
    else cache
  }

  function Install(cache: Cache, address: Word, instrs: seq<Instr>): Cache {
    cache.(blocks := cache.blocks[address := Block(address, instrs, true, 0, 0)])
  }

  predicate HasValid(cache: Cache, address: Word) {
    address in cache.blocks && cache.blocks[address].valid
  }

  function GetBlock(cache: Cache, mem: Mem, address: Word): (r: Lookup)
    ensures r.Found? ==> HasValid(r.cache, address)
  {
    if HasValid(cache, address) then Found(cache)
    else
      match DecodeBlock(mem, address)
      case Failed(code) => Missing(Evict(cache, address), code)
      case Done(instrs) => Found(Install(Evict(cache, address), address, instrs))
  }

  function Invalidated(b: Block, range: CodeRange): Block {
    if Hit(b, range) then b.(valid := false) else b
  }

  function InvalidateRange(cache: Cache, range: CodeRange): Cache {
    cache.(
      blocks := map a | a in cache.blocks :: Invalidated(cache.blocks[a], range),
      entries := map a | a in cache.entries ::
        if a in cache.blocks && Hit(cache.blocks[a], range) then 0 else cache.entries[a])
  }

  function InvalidateAll(cache: Cache, ranges: seq<CodeRange>): Cache
    decreases |ranges|
  {
    if ranges == [] then cache
    else InvalidateAll(InvalidateRange(cache, ranges[0]), ranges[1..])
  }
}
