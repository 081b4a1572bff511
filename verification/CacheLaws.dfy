/** What lookups and invalidations do to the block cache, without its own predicates. */
module CacheLaws {
  import opened Words
  import opened GuestMemory
  import opened MachineState
  import opened CacheSpec
  import opened Interpreters
  import opened CacheInvariants

  // ---- invalidation ----

  /** No byte of the range is one of the `4 * n` bytes at `start`. */
  predicate Apart(start: nat, n: nat, range: CodeRange) {
    start >= range.address + range.size || range.address >= start + 4 * n
  }

  /** `after` is `before` with the block at `a` invalidated, and its slot emptied, unless spared. */
  predicate Invalidates(before: Cache, after: Cache, a: Word, spared: bool) {
    && (a in before.blocks <==> a in after.blocks)
    && (a in before.entries <==> a in after.entries)
    && (a in before.blocks ==> after.blocks[a] == before.blocks[a].(valid := spared && before.blocks[a].valid))
    && (a in before.entries ==>
          after.entries[a] == if a in before.blocks && !spared then 0 else before.entries[a])
    && after.native == before.native && after.nextHandle == before.nextHandle
  }

  predicate SparedBy(cache: Cache, a: Word, ranges: seq<CodeRange>) {
    a in cache.blocks ==> forall k :: 0 <= k < |ranges| ==> Apart(a, |cache.blocks[a].instrs|, ranges[k])
  }

  lemma InvalidateRangeLaw(cache: Cache, range: CodeRange, a: Word)
    requires a in cache.blocks ==>
      cache.blocks[a].start == a && a + 4 * |cache.blocks[a].instrs| < 0x1_0000_0000
    ensures Invalidates(cache, InvalidateRange(cache, range), a,
                        a in cache.blocks ==> Apart(a, |cache.blocks[a].instrs|, range))
  {
  }

  /**
    Invalidation is exact: a block is invalidated, and its slot emptied, if some range
    meets its bytes; otherwise block and slot stay as they are. Nothing else changes.
  */
  lemma {:induction false} InvalidateAllLaw(cache: Cache, ranges: seq<CodeRange>, a: Word)
    requires a in cache.blocks ==>
      cache.blocks[a].start == a && a + 4 * |cache.blocks[a].instrs| < 0x1_0000_0000
    ensures Invalidates(cache, InvalidateAll(cache, ranges), a, SparedBy(cache, a, ranges))
    decreases |ranges|
  {
    hide InvalidateRange, Apart;
    if ranges != [] {
      InvalidateRangeLaw(cache, ranges[0], a);
      InvalidateAllLaw(InvalidateRange(cache, ranges[0]), ranges[1..], a);
      if a in cache.blocks {
        ForallSplit(a, |cache.blocks[a].instrs|, ranges);
      }
    }
  }

  lemma ForallSplit(start: nat, n: nat, ranges: seq<CodeRange>)
    requires ranges != []
    ensures (forall k :: 0 <= k < |ranges| ==> Apart(start, n, ranges[k]))
       <==> Apart(start, n, ranges[0]) && forall k :: 0 <= k < |ranges[1..]| ==> Apart(start, n, ranges[1..][k])
  {
    hide Apart;
    var rest := ranges[1..];
    if Apart(start, n, ranges[0]) && forall k :: 0 <= k < |rest| ==> Apart(start, n, rest[k]) {
      forall k | 0 <= k < |ranges|
        ensures Apart(start, n, ranges[k])
      {
        if k > 0 {
          assert ranges[k] == rest[k - 1];
        }
      }
    }
  }

  // ---- lookup ----

  predicate Fetchable(mem: Mem, address: Word) {
    address + 4 <= |mem.bytes| && address % 4 == 0
  }

  /** Everything but the block at `address` and its translation stays. */
  predicate SameElsewhere(before: Cache, after: Cache, address: Word) {
    && after.entries == before.entries && after.nextHandle == before.nextHandle
    && after.blocks.Keys - {address} == before.blocks.Keys - {address}
    && (forall a :: a in before.blocks && a != address ==> a in after.blocks && after.blocks[a] == before.blocks[a])
    && after.native
       == before.native - (if address in before.blocks then {before.blocks[address].code} else {})
  }

  /**
    A valid block is returned as it is, stale or not. Otherwise the block at the address
    is erased with its translation, and a valid, cold, untranslated one takes its place
    if its first word can be fetched.
  */
  lemma LookupLaw(cache: Cache, mem: Mem, address: Word)
    ensures var r := GetBlock(cache, mem, address);
      if address in cache.blocks && cache.blocks[address].valid then r == Found(cache)
      else
        && SameElsewhere(cache, r.cache, address)
        && if Fetchable(mem, address)
           then r.Found? && address in r.cache.blocks &&
                var b := r.cache.blocks[address];
                b.start == address && b.valid && b.count == 0 && b.code == 0
                && DecodeBlock(mem, address) == Done(b.instrs)
           else r.Missing? && address !in r.cache.blocks
  {
    hide DecodeFrom;
    var r := GetBlock(cache, mem, address);
    if !HasValid(cache, address) {
      EvictElsewhere(cache, address);
    }
  }

  lemma EvictElsewhere(cache: Cache, address: Word)
    ensures SameElsewhere(cache, Evict(cache, address), address) && address !in Evict(cache, address).blocks
  {
  }

  /** A fetch error is raised exactly when there is no valid block and its first word cannot be fetched. */
  lemma FetchErrorLaw(m: Machine)
    ensures SwitchStep(m).FetchError?
       <==> !(m.pc in m.cache.blocks && m.cache.blocks[m.pc].valid) && !Fetchable(m.mem, m.pc)
    ensures SwitchStep(m).FetchError? ==>
      && SwitchStep(m).m == m.(cache := SwitchStep(m).m.cache)
      && SwitchStep(m).code == if m.pc + 4 > |m.mem.bytes| then MEMORY_OUT_OF_BOUNDS else MISALIGNED_ACCESS
  {
    hide RunFrom, DecodeBlock;
    DecodeBlockShape(m.mem, m.pc);
  }
}
