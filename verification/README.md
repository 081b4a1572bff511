# Toy ISA interpreter: verified model

A Dafny model of the TOY ISA v1.5 interpreter: a 32-bit processor with three
execution engines (switch, threaded, JIT), a basic-block cache that is kept
coherent by an explicit FLUSH instruction, and an assembler.

The model has two layers. Classes follow the program: `TIMemory`,
`TIBasicBlock`, `TIBasicBlockCache`, `ExecutionContext`, `IrContext` and
`TIAssembler` hold the same fields and change them step by step with the
program's loops. Each class has a `View()`, and each method is proved to take
the view where a specification function takes it. The specification functions
work on values (`Machine`, `Cache`, `Mem`, `Node` lists), and the theorems are
lemmas about them.

`dafny verify dfyconfig.toml` checks everything.

## How the pieces fit

| file | contents |
|---|---|
| `Words`, `BitUtils`, `BitOperations` | words as integers, bitwise operators, CLZ, SSAT, RORI, BEXT |
| `Instructions`, `Decoder` | decoded instructions, the mask table and its scan |
| `Encoder`, `EncoderProofs`, `Reencode` | the assembler's encoder, round trips in both directions |
| `Assembler`, `AssemblerProofs` | sections, PCs, labels; where branches and jumps land |
| `GuestMemory` | bounds, alignment, little-endian words, dirty code ranges |
| `Ir`, `MachineState`, `CacheSpec`, `Executor`, `Interpreters` | machine state, cache operations, instruction semantics, switch and threaded engines |
| `JitSpec`, `IrEval` | the emitted IR and its evaluation |
| `JitChunks`, `JitCorrect` | block compilation preserves meaning |
| `JitEngine`, `CacheInvariants`, `Simulation`, `Runs` | chaining, its invariants, and the simulation of whole runs |
| `Faults` | which PC and which error a fault leaves under the JIT and under the interpreter |
| `Coherence`, `ReadCoherence`, `Transparency`, `SingleStep` | the coherence protocol, and execution without a cache or without blocks |
| `MemoryLaws`, `CacheLaws`, `InstructionLaws`, `SyscallLaws`, `DecodeLaws`, `ChainLaws`, `AssemblerLaws` | what each operation means, in plain arithmetic and without the definitions above |
| `BlockCache`, `IrBuilder`, `Context` | the mutable objects and the engines that run on them |

The central theorem is a lockstep simulation. `Core` forgets what only the JIT
uses (counters, translations, slots, mapped code). Every block that the JIT
runs, cold or hot, dispatched or chained, does to the core what one switch step
does. The one difference is stated exactly in `Faults`: translated code swallows
the error of a fault, and unless SYSCALL or INVALID raised it leaves the PC at
the block's start. No coherence is needed for this: a non-null slot at the PC means
that the cache would have returned that same block, stale or not. Coherence is
a separate invariant, and together with clean block entries it removes first
the cache and then the blocks.

Native code is modelled as a map from entry points to IR lists; erasing a block
removes its code from the map, so that calling freed code would be visible as a
crash. Undefined behaviour of the IR (a missing or ill-typed operand, a slot
that was never allocated, CTLZ of zero) makes evaluation stuck, and the
theorems show that it never is.

The engines share the specification functions, so their agreement alone would not
show that an addition adds. The modules whose names end in `Laws` say what every
instruction, system call, memory access, lookup, invalidation, decoding, chain
and assembler call does, without naming the functions that do it.

## Model

| member | source | states |
|---|---|---|
| `Runs.JitRunSimulates` | src/execution_type/jit_executor.cpp:422-452 | Whole runs, chains included: after any number of blocks and for any threshold the JIT run is the switch run from the same core: going on or over alike, with the same registers, memory, dirty ranges, host, status, exit code, (instructions, valid) map, PC and ending. The one difference is fixed too: a fault in a block that did not run cold ends without an error, with the PC of `SwallowedPc`. Stale, unflushed code included |
| `Runs.JitProgramSimulates` | src/toy/execution_context.cpp:104-132 | The same from the state after loading, against the switch engine on the same machine |
| `Simulation.JitStepSimulates` | src/execution_type/jit_executor.cpp:422-452 | One block run by the JIT, from the loop or from the chain, is one switch step, PC and error included; only a fault of translated code throws nothing and has the PC of `SwallowedPc`; invariants hold again and nothing is stuck |
| `Runs.JitCallIsSwitchSteps` | src/execution_type/jit_executor.cpp:422-452 | One JIT call with its chain loop is k >= 1 switch steps in a row, with the same exact exception for a fault in the last block |
| `ChainLaws.PendingEntryExactly` | src/execution_type/jit_executor.cpp:448-451 | After a step the pending entry is the content of the slot at the resulting PC if native code ran, the machine runs, and the block did not end in FLUSH or INVALID; else there is none |
| `ChainLaws.CallEndsExactly` | src/execution_type/jit_executor.cpp:448-451 | A call that returns before its fuel is used had no way on: its last block stopped, ended in FLUSH or INVALID, ran in threaded code, or led to a null slot |
| `ChainLaws.CallFollows` | src/execution_type/jit_executor.cpp:448-451 | A translated block that leads to a full slot is followed by the block there in the same call |
| `ChainLaws.ColdOrTranslated` | src/execution_type/jit_executor.cpp:424-430 | A found block runs cold exactly when it is entered from the loop, has no translation and has run less often than the threshold |
| `ChainLaws.ColdStepCounts` | src/execution_type/jit_executor.cpp:424-428 | A step from the loop below the threshold counts exactly one execution of its block; no other counter, translation or mapped code changes |
| `ChainLaws.HotStepTranslates` | src/execution_type/jit_executor.cpp:430-446 | A step at the threshold translates a block that has no translation, once, under a new entry point, and counts nothing |
| `Runs.ThresholdIndependence` | src/execution_type/jit_executor.cpp:424-446 | For any two thresholds a run is over after the same number of blocks, with the same status, exit code, registers, memory and output, the same PC unless faulted, and the same PC of a fault if both runs rethrow its error or neither does |
| `JitCorrect.CompileCorrect` | src/execution_type/jit_executor.cpp:378-410 | For every block with terminators in last place, entered running at its start, the emitted IR is never stuck and returns the interpreter's machine and the slot of the resulting PC, or null after a stop, FLUSH or INVALID; on an error the faulted machine with null, and the PC of the raising instruction if it is SYSCALL or INVALID, else the block's start |
| `SingleStep.JitRefinesSingleSteps` | src/toy/execution_context.cpp:104-132 | Clean programs: any prefix of a JIT run, at any threshold, is a run of the plain fetch-decode-execute loop |
| `SingleStep.JitRefinesFreshDecoding` | src/toy/execution_context.cpp:104-132 | Clean runs: the JIT run equals the run that re-decodes every block from memory at entry |
| `Transparency.CacheTransparent` | src/toy/basic_block_cache.cpp:35-47 | As long as the cacheless run enters each block with nothing dirty and wholly inside executable regions, and no read call delivers into an executable region, the run through the cache is the same run |
| `SingleStep.BlockIsSteps` | src/execution_type/switch_executor.cpp:51-57 | A block that memory mirrors at entry and whose stores miss its later words runs as that many single instructions; PC is start + 4 k before instruction k |
| `Runs.JitRunInvariant` | include/toy/basic_block_cache.hpp:65-89 | At every point of every JIT run: a slot is non-null exactly for a valid translated block and holds its entry, mapped code belongs to exactly one block, counters stay within the threshold, and the run never crashes |
| `Simulation.CoreKeeps` | include/toy/basic_block_cache.hpp:15-60 | What the simulation compares: every component of the machine, and of each block the instructions and the valid flag |
| `Simulation.ChainEntersLiveCode` | src/execution_type/jit_executor.cpp:448-451 | The entry a chain is about to call is mapped and is the compilation of the valid block at the PC |
| `Runs.JitStepCounters` | src/execution_type/jit_executor.cpp:424-446 | Counters never pass the threshold and a translated block has reached it |
| `CacheInvariants.CompileIntoOk` | src/execution_type/jit_executor.cpp:431-446 | Translating and publishing a block keeps the cache invariant |
| `CacheInvariants.InvalidateRangeOk` | src/toy/basic_block_cache.cpp:49-65 | Invalidation keeps the cache invariant: block and slot go together; no slot disappears |
| `CacheInvariants.EvictOk` | src/toy/basic_block_cache.cpp:38-44 | Erasing an invalid block unmaps its code, and its slot, if any, is already null |
| `CacheInvariants.GetBlockOk` | src/toy/basic_block_cache.cpp:35-47 | Lookup keeps the cache invariant, also when decoding fails after the erase |
| `CacheInvariants.ExecOk` | src/toy/executor.cpp:49-201 | Every instruction, raising or not, keeps the cache invariant |
| `Coherence.ExecCoherent` | include/toy/memory.hpp:67-90 | Stores, loads, FLUSH, faults and half-done store pairs keep: every executable word of a valid block is current or covered by a dirty range |
| `Coherence.WriteCoherent` | include/toy/memory.hpp:67-90 | A store keeps every aligned word coherent: it changes its own word only and marks it |
| `Coherence.FlushCoherent` | src/toy/execution_context.cpp:98-102 | Flushing keeps coherence with no dirty range left |
| `Coherence.SurvivorsMissed` | src/toy/basic_block_cache.cpp:49-65 | A block still valid after invalidating some ranges was valid before, is unchanged, and is hit by none of them |
| `Coherence.GetBlockCoherent` | src/toy/basic_block_cache.cpp:6-47 | Lookup and decoding keep coherence whatever is dirty |
| `Transparency.SwitchRunCoherent` | src/toy/basic_block_cache.cpp:49-65 | Every state reached by the interpreter is coherent, provided no read call delivers into an executable region |
| `Transparency.JitRunCoherent` | src/toy/basic_block_cache.cpp:49-65 | The same for every state of every JIT run |
| `Transparency.CachedIsFresh` | src/toy/basic_block_cache.cpp:35-47 | With nothing dirty, and if the block that memory holds lies wholly in executable regions, a valid cached block is exactly that block |
| `ReadCoherence.ReadKeepsCoherenceExactly` | src/toy/syscall_emulator.cpp:29-49 | For every buffer, aligned or not, coherence survives every input of a read call exactly when no clean executable word of a valid cached block is exposed: covered in its top byte if it is FLUSH, completed to a table entry by the bytes outside the buffer if it is INVALID, overlapped at all otherwise |
| `ReadCoherence.SomeReadBreaks` | src/toy/syscall_emulator.cpp:29-49 | Coherence is not an invariant of read calls: a loaded program of one SYSCALL that reads over itself reaches an incoherent state |
| `ReadCoherence.AfterReadIs` | src/toy/syscall_emulator.cpp:29-49 | A successful read call changes the buffer, x0, the PC and the host only, and marks nothing dirty |
| `CacheLaws.InvalidateAllLaw` | src/toy/basic_block_cache.cpp:49-65 | Invalidation is exact: a block is invalidated and its slot emptied if some range meets its bytes, written as comparisons; otherwise block and slot stay as they are, and nothing else changes |
| `CacheLaws.LookupLaw` | src/toy/basic_block_cache.cpp:35-47 | A valid block is returned as it is, stale or not; otherwise the block is erased with its translation and a valid, cold, untranslated one replaces it if its first word can be fetched; every other block, slot and translation stays |
| `CacheLaws.FetchErrorLaw` | src/toy/execution_context.cpp:104-107 | A fetch error is raised exactly when there is no valid block at the PC and its word is misaligned or out of bounds; only the cache changes |
| `MemoryLaws.OverlapsMeaning` | include/toy/memory.hpp:79-90 | Two non-empty extents overlap exactly when some byte lies in both |
| `MemoryLaws.ReadLaw` | include/toy/memory.hpp:61-65 | A read yields b0 + 2^8 b1 + 2^16 b2 + 2^24 b3, or the bounds error, or else the alignment error |
| `MemoryLaws.WriteLaw` | include/toy/memory.hpp:67-90 | A write stores the four digits of the value, lowest first, keeps every other byte, and appends one dirty range exactly when the word shares a byte with a region; or it fails |
| `InstructionLaws.LiLaw` | src/toy/executor.cpp:49-54 | LI sets its register to the immediate, advances the PC by 4, changes nothing else |
| `InstructionLaws.AddLaw` | src/toy/executor.cpp:56-63 | ADD leaves (rs + rt) mod 2^32 |
| `InstructionLaws.AddiLaw` | src/toy/executor.cpp:65-73 | ADDI leaves (rs + imm) mod 2^32 |
| `InstructionLaws.OrLaw` | src/toy/executor.cpp:75-82 | Each binary digit of OR is one exactly when that of rs or of rt is |
| `InstructionLaws.ClzLaw` | src/toy/executor.cpp:151-158 | CLZ leaves the c with 2^(31-c) <= rs < 2^(32-c), and 32 for zero |
| `InstructionLaws.SsatLaw` | src/toy/executor.cpp:160-168 | SSAT leaves the signed clamp to [-2^(w-1), 2^(w-1)-1] for widths 1 to 31, and raises for all others |
| `InstructionLaws.RoriLaw` | src/toy/executor.cpp:170-178 | RORI leaves rs / 2^k + (rs mod 2^k) 2^(32-k) |
| `InstructionLaws.BextLaw` | src/toy/executor.cpp:180-188 | For every mask digit one at p, the output digit that counts the mask digits one below p is the value digit p; no other output digit is set |
| `InstructionLaws.LoadLaw` | src/toy/executor.cpp:84-105 | Both loads read the word at (base + offset) mod 2^32 into their register, or raise and change nothing |
| `InstructionLaws.StLaw` | src/toy/executor.cpp:107-115 | ST stores and marks the word at (base + imm) mod 2^32, or raises and changes nothing |
| `InstructionLaws.StpLaw` | src/toy/executor.cpp:117-126 | STP stores two words, the second 4 bytes on modulo 2^32; if the second fails, the first stays stored and the PC stays |
| `InstructionLaws.BeqLaw` | src/toy/executor.cpp:133-142 | BEQ goes to (pc + 4 offset) mod 2^32 if the registers are equal, else to pc + 4 |
| `InstructionLaws.JLaw` | src/toy/executor.cpp:144-149 | J goes to 4 index within the 2^28 bytes that hold its own PC |
| `InstructionLaws.FlushLaw` | src/toy/executor.cpp:128-131 | FLUSH empties the dirty list, advances the PC, and invalidates exactly the blocks that a dirty range meets |
| `InstructionLaws.InvalidLaw` | src/toy/executor.cpp:198-201 | INVALID raises and changes nothing |
| `SyscallLaws.WriteCallLaw` | src/toy/syscall_emulator.cpp:63-81 | Write appends one pair (x0, d) to the output, d being exactly the bytes of the buffer; x0 becomes the count or 2^32 minus errno; other descriptors leave 2^32 - 9, a bad buffer raises; nothing else changes |
| `SyscallLaws.ReadCallLaw` | src/toy/syscall_emulator.cpp:29-49 | Read puts the first min(n, x2) delivered bytes at x1 and their number in x0, or 2^32 minus errno; nothing else changes |
| `SyscallLaws.ReadNumberCallLaw` | src/toy/syscall_emulator.cpp:51-61 | Read-number leaves the number, 2^32 - 61 at the end of input, or 2^32 - 22 |
| `SyscallLaws.ExitCallLaw` | src/toy/syscall_emulator.cpp:15-27 | Exit halts with x0 as the exit code and keeps the PC; numbers other than 0, 1, 60 and 337 raise |
| `Interpreters.ThreadedIsSwitch` | src/execution_type/threaded_executor.cpp:26-123 | Threaded and switch execution agree on every block with terminators in last place, faults included |
| `Interpreters.ThreadedStopsAtTerminator` | src/execution_type/threaded_executor.cpp:53-73 | On every block whatever, the switch loop does what threaded code does, and then alone goes on after the first terminator |
| `Runs.ThreadedStepIsSwitchStep` | src/toy/execution_context.cpp:104-132 | Steps of the loop agree on every machine that satisfies the cache invariant |
| `Runs.StopIsFinal` | src/toy/execution_context.cpp:109-113 | Once a JIT run has halted or faulted it is over, and more blocks change nothing, in the loop or in a chain |
| `Runs.SwitchStopIsFinal` | src/toy/execution_context.cpp:109-113 | The same for the interpreters |
| `Runs.BlockStopsLast` | src/execution_type/threaded_executor.cpp:53-73 | Inside a block every instruction that executes finds the machine running: only the last one can stop it |
| `Faults.FaultedStepExactly` | src/execution_type/jit_executor.cpp:20-33 | A step whose block faults: the JIT rethrows the error exactly when the block is cold, and its PC is the interpreter's exactly when the block is cold, or the first instruction raises, or SYSCALL or INVALID raises; otherwise it is the block's start |
| `Faults.FaultedRunExactly` | src/toy/execution_context.cpp:104-132 | The same for whole runs that end in a fault |
| `Faults.RaisedPc` | src/execution_type/switch_executor.cpp:51-57 | The interpreter raises with the PC at start + 4 k, k being the raising instruction |
| `Faults.SomeFaultDiffers` | tests/basic_block_tests.cpp:80-100 | A two-instruction program on which the interpreter throws with PC 4 and translated code faults without an error and with PC 0 |
| `Runs.ExecStops` | src/toy/syscall_emulator.cpp:83-86 | Only an exit call stops a machine without raising; it sets the status and the exit code and nothing else |
| `Runs.HaltsByExit` | src/toy/syscall_emulator.cpp:83-86 | In every JIT run HALTED comes from exit with x0 as the exit code |
| `CacheInvariants.DecodeBlockShape` | src/toy/basic_block_cache.cpp:6-33 | Decoding fails exactly when the first word is misaligned or out of bounds; otherwise the block is non-empty, ends at a terminator or at the end of memory, has no other terminator, and mirrors the memory words |
| `CacheInvariants.DecodeFromUnique` | src/toy/basic_block_cache.cpp:6-33 | Shape and memory words determine the decoded block |
| `JitChunks.ExitIfStopped` | src/execution_type/jit_executor.cpp:35-42 | The exit test goes on when running and yields a null entry when stopped |
| `JitChunks.CallChunk` | src/execution_type/jit_executor.cpp:20-52 | A helper call swallows every error into FAULTED and leaves with a null entry unless still running |
| `JitChunks.ClzChunk` | src/execution_type/jit_executor.cpp:98-111 | The zero-adjusted CTLZ counts leading zeros for every value and never applies CTLZ to zero |
| `JitChunks.SsatChunk` | src/execution_type/jit_executor.cpp:113-133 | MAX/MIN on signed words equals the interpreter's unsigned comparisons |
| `JitChunks.RoriChunk` | src/execution_type/jit_executor.cpp:135-145 | The rotate operator equals the interpreter's two shifts |
| `JitChunks.LdImmChunk` | src/execution_type/jit_executor.cpp:174-187 | A load yields the interpreter's registers, or the faulted machine and a null entry |
| `JitChunks.LdRegChunk` | src/execution_type/jit_executor.cpp:189-203 | The same for a register offset |
| `JitChunks.StChunk` | src/execution_type/jit_executor.cpp:205-218 | A store yields the interpreter's memory and dirty ranges, or the faulted machine |
| `JitChunks.StpChunk` | src/execution_type/jit_executor.cpp:220-240 | A store pair, also one that fails half-way with its first word stored |
| `JitCorrect.BranchChunk` | src/execution_type/jit_executor.cpp:331-359 | BEQ: the PC and the slot of the arm that the registers choose, through IF, MERGE and PHI |
| `JitCorrect.EffectChunk` | src/execution_type/jit_executor.cpp:255-299 | The code of every instruction inside a block has the instruction's effect, without the PC |
| `JitCorrect.LastInstruction` | src/execution_type/jit_executor.cpp:320-376 | The code from the last instruction to the return agrees with the interpreter for every last instruction |
| `BitOperations.CountLeadingZeros` | src/toy/executor.cpp:5-12 | The loop finds the count c with 2^(31-c) <= value < 2^(32-c), and 32 for zero |
| `BitOperations.SaturateIsClamp` | src/toy/executor.cpp:14-26 | Saturation by unsigned comparison is the signed clamp to [-2^(w-1), 2^(w-1)-1] for every width 1..31 |
| `BitOperations.RotateMeaning` | src/toy/executor.cpp:28-33 | The two shifts move the low bits to the top and the others down |
| `BitOperations.CompressBits` | src/toy/executor.cpp:35-45 | The loop computes the recursive bit-gathering specification |
| `BitOperations.CompressGathers` | src/toy/executor.cpp:35-45 | Output bit k is the value bit at the k-th set mask position |
| `BitOperations.NthSetIsSet` | src/toy/executor.cpp:35-45 | That position is set in the mask and has exactly k set positions below it |
| `BitOperations.CompressBound` | src/toy/executor.cpp:35-45 | The result is below 2^popcount(mask) |
| `BitUtils.ExtractBitsMeaning` | include/toy/bitutils.hpp:19-29 | A field is the quotient by 2^offset reduced modulo 2^width |
| `BitUtils.SignExtendMeaning` | include/toy/bitutils.hpp:31-47 | Sign extension is the two's complement reading of the low bits |
| `BitUtils.LittleEndianRoundTrip` | include/toy/bitutils.hpp:49-72 | Splitting a word into bytes and joining them is the identity |
| `GuestMemory.BoundsMeaning` | include/toy/memory.hpp:92-101 | The three comparisons accept exactly address + count <= min(size, 2^32) |
| `GuestMemory.WriteFrame` | include/toy/memory.hpp:67-90 | A stored word is read back, other words are unchanged, and a dirty range is recorded exactly when an executable region is overlapped |
| `GuestMemory.WriteBytes` | include/toy/memory.hpp:67-72 | A write leaves every byte outside its word alone |
| `GuestMemory.TIMemory.constructor` | include/toy/memory.hpp:31 | A new memory is zero, with no region and nothing dirty |
| `GuestMemory.TIMemory.AddExecutableRegion` | include/toy/memory.hpp:35-38 | Adds the region, or fails exactly out of bounds and changes nothing |
| `GuestMemory.TIMemory.TakeDirtyCodeRanges` | include/toy/memory.hpp:40-44 | Hands over the dirty ranges and leaves none |
| `GuestMemory.TIMemory.CheckBounds` | include/toy/memory.hpp:92-101 | Reports a fault exactly when address + count exceeds the memory or 2^32 |
| `GuestMemory.TIMemory.LoadWord` | include/toy/memory.hpp:61-65 | The aligned little-endian word, or the bounds or alignment error |
| `GuestMemory.TIMemory.MarkDirty` | include/toy/memory.hpp:79-90 | Appends one dirty range exactly when some region overlaps |
| `GuestMemory.TIMemory.StoreWord` | include/toy/memory.hpp:67-72 | Stores and marks, or fails and changes nothing |
| `BlockCache.TIBasicBlock.constructor` | include/toy/basic_block_cache.hpp:15-18 | A new block is valid, cold and untranslated |
| `BlockCache.TIBasicBlock.Invalidate` | include/toy/basic_block_cache.hpp:35 | Clears the valid flag only |
| `BlockCache.TIBasicBlock.Record` | include/toy/basic_block_cache.hpp:37 | Counts one execution |
| `BlockCache.TIBasicBlock.SetCompiled` | include/toy/basic_block_cache.hpp:47-49 | Stores the entry point |
| `BlockCache.TIBasicBlockCache.DecodeInstructions` | src/toy/basic_block_cache.cpp:9-27 | The decode loop computes the decoded block of the specification, errors included |
| `BlockCache.TIBasicBlockCache.Lookup` | src/toy/basic_block_cache.cpp:35-47 | Returns the valid cached block object, or erases, decodes and installs; other block objects stay in place |
| `BlockCache.TIBasicBlockCache.InvalidatesRange` | src/toy/basic_block_cache.cpp:49-65 | Visiting every block in any order invalidates exactly the hit blocks and nulls their slots |
| `BlockCache.TIBasicBlockCache.InvalidatesAll` | src/toy/execution_context.cpp:98-102 | All dirty ranges in turn |
| `BlockCache.TIBasicBlockCache.JitEntrySlot` | include/toy/basic_block_cache.hpp:66-68 | Allocates an empty slot unless there is one |
| `BlockCache.TIBasicBlockCache.SetJitEntry` | include/toy/basic_block_cache.hpp:71-73 | Publishes an entry in the slot of an address |
| `IrBuilder.IrContext.ExitIfStopped` | src/execution_type/jit_executor.cpp:35-42 | Appends the exit test |
| `IrBuilder.IrContext.Call` | src/execution_type/jit_executor.cpp:44-52 | Appends a helper call and the exit test |
| `IrBuilder.IrContext.AppendInstruction` | src/execution_type/jit_executor.cpp:255-299 | Appends the nodes of any instruction in order |
| `IrBuilder.IrContext.AppendBranch` | src/execution_type/jit_executor.cpp:331-359 | Appends both arms of a branch and allocates both slots |
| `IrBuilder.IrContext.AppendNextEntry` | src/execution_type/jit_executor.cpp:320-376 | Appends the next-entry code and allocates exactly the slots it embeds |
| `IrBuilder.IrContext.AppendBody` | src/execution_type/jit_executor.cpp:387-399 | The loop over the instructions, skipping a terminal BEQ |
| `IrBuilder.CompileBlock` | src/execution_type/jit_executor.cpp:378-446 | Translates a block, maps the code, stores and publishes its entry |
| `Context.ExecutionContext.constructor` | include/toy/execution_context.hpp:24-30 | A new context: zero registers and memory, running, empty cache |
| `Context.ExecutionContext.FlushInstructionCache` | src/toy/execution_context.cpp:98-102 | Drains the dirty ranges into the cache |
| `Context.ExecutionContext.HandleRead` | src/toy/syscall_emulator.cpp:29-49 | The read call against the specification, errors included |
| `Context.ExecutionContext.HandleWrite` | src/toy/syscall_emulator.cpp:63-81 | The write call; the bytes sent are recorded |
| `Context.ExecutionContext.HandleReadNumber` | src/toy/syscall_emulator.cpp:51-61 | The read-number call |
| `Context.ExecutionContext.HandleExit` | src/toy/syscall_emulator.cpp:83-86 | Halts with x0 as the exit code |
| `Context.ExecutionContext.CallSystem` | src/toy/syscall_emulator.cpp:15-27 | Dispatch on x8, unsupported numbers raise |
| `Context.ExecutionContext.ExecuteSyscall` | src/toy/executor.cpp:190-196 | The PC advances only if still running |
| `Context.ExecutionContext.ExecuteArithmetic` | src/toy/executor.cpp:49-188 | LI, ADD, ADDI, OR, CLZ, RORI, BEXT write one register |
| `Context.ExecutionContext.ExecuteSsat` | src/toy/executor.cpp:160-168 | SSAT, or an error for a width outside 1..31 |
| `Context.ExecutionContext.ExecuteMemory` | src/toy/executor.cpp:84-126 | Loads, ST and STP with their errors; a failing load keeps its register |
| `Context.ExecutionContext.ExecuteJump` | src/toy/executor.cpp:133-149 | BEQ and J set the PC |
| `Context.ExecutionContext.ExecuteFlush` | src/toy/executor.cpp:128-131 | FLUSH drains the dirty ranges and advances |
| `Context.ExecutionContext.ExecuteInstruction` | src/execution_type/switch_executor.cpp:8-47 | The dispatch on the opcode is the reference semantics |
| `Context.ExecutionContext.ExecuteSwitchBlock` | src/execution_type/switch_executor.cpp:51-57 | The switch loop over a block |
| `Context.ExecutionContext.ExecuteThreadedFrom` | src/execution_type/threaded_executor.cpp:26-123 | Handlers that call the next one, terminators that return |
| `Context.ExecutionContext.ReadHelper` | src/execution_type/jit_executor.cpp:162-166 | The noexcept read helper: zero and FAULTED on an error |
| `Context.ExecutionContext.WriteHelper` | src/execution_type/jit_executor.cpp:168-171 | The noexcept write helper: FAULTED on an error |
| `Context.ExecutionContext.CallEntry` | include/execution_type/jit_executor.hpp:42-44 | Calling an entry point evaluates the code mapped there |
| `Context.ExecutionContext.StepSwitch` | src/toy/execution_context.cpp:104-132 | One loop step in switch mode, with the catch that faults and rethrows |
| `Context.ExecutionContext.StepThreaded` | src/toy/execution_context.cpp:104-132 | One loop step in threaded mode |
| `Context.ExecutionContext.RunInterpreter` | src/toy/execution_context.cpp:109-113 | The loop in switch or threaded mode performs the same run and keeps the cache invariant |
| `Context.ExecutionContext.EnterJitBlock` | src/execution_type/jit_executor.cpp:422-448 | Below the threshold threaded code, otherwise translate once and call |
| `Context.ExecutionContext.FollowChain` | src/execution_type/jit_executor.cpp:449-451 | The chain loop follows entries without consulting the cache |
| `Context.ExecutionContext.StepJit` | src/toy/execution_context.cpp:104-132 | One loop step in JIT mode with its chain |
| `Context.ExecutionContext.RunJit` | src/toy/execution_context.cpp:109-113 | The loop in JIT mode performs the specified run, is never stuck, keeps the cache invariant, and is the run of the switch engine up to the error and the PC of a fault in translated code |
| `DecodeLaws.DecodeLaw` | src/toy/decoder.cpp:11-189 | For every word, decoding is the format table in plain arithmetic: major opcode, fixed bits, register fields at 21, 16 and 11, sign-extended immediates |
| `Decoder.MatchesIsFixed` | src/toy/decoder.cpp:160-177 | An entry matches exactly the words with its major opcode and its minor field |
| `Decoder.Unambiguous` | src/toy/decoder.cpp:160-177 | No word matches two entries, so table order is irrelevant |
| `Decoder.DecodeFixed` | src/toy/decoder.cpp:179-189 | The fixed fields alone decide the decoded instruction |
| `Decoder.DecodeInvalid` | src/toy/decoder.cpp:179-189 | A word is INVALID exactly when no entry matches |
| `EncoderProofs.EncodeThenDecode` | assembler/modules/encoder.rb:8-164 | Every accepted instruction decodes to the same operation, operand order and two's complement values |
| `EncoderProofs.EncoderIsExact` | assembler/modules/encoder.rb:8-253 | The encoder accepts an instruction as a word for i exactly when the instruction denotes i, ranges included |
| `EncoderProofs.MeaningIsUnique` | assembler/modules/encoder.rb:8-164 | An assembler instruction denotes at most one machine instruction |
| `BitUtils.SignExtendTruncated` | assembler/modules/encoder.rb:193-203 | A signed immediate in range survives truncation to its field and sign extension |
| `Reencode.ReencodeExactly` | src/toy/decoder.cpp:11-189 | For every word: some assembler instruction encodes to it exactly when it is not INVALID, no ignored bit of SYSCALL or FLUSH is set and it is no SSAT of width 0; then the text of its decoding does |
| `Reencode.DecodeInjective` | src/toy/decoder.cpp:11-189 | Decoding is injective on all words but FLUSH and INVALID |
| `Assembler.TIAssembler.constructor` | assembler/modules/assembler.rb:52-59 | The empty program |
| `Assembler.TIAssembler.Open` | assembler/modules/assembler.rb:107-117 | Opens a section once; an error changes nothing |
| `Assembler.TIAssembler.Label` | assembler/modules/assembler.rb:119-127 | Defines a label once, at the current offset of its section |
| `Assembler.TIAssembler.Instruction` | assembler/modules/assembler.rb:73-80 | Records an instruction at the text offset and advances it by 4, in .text only |
| `Assembler.TIAssembler.DataItem` | assembler/modules/assembler.rb:94-101 | Appends bytes in .data only |
| `Assembler.TIAssembler.Run` | assembler/modules/assembler.rb:61-63 | A whole program is the fold of its calls; the first error is the one raised, and leaves the state of the calls before it |
| `AssemblerLaws.AssembleExactly` | assembler/modules/assembler.rb:73-134 | A program assembles exactly when every section is known and opened once, every label defined once and in a section, and every instruction and data item in its own section; the text is its instructions from address 0 in steps of 4, the data the concatenation of its items |
| `AssemblerLaws.FirstError` | assembler/modules/assembler.rb:73-134 | The first call that is not in order ends the program, with its error |
| `AssemblerLaws.LabelExactly` | assembler/modules/assembler.rb:119-127 | A label, text or data, is recorded in the section opened last, at 4 * (instructions before it) or at the number of data bytes before it |
| `AssemblerProofs.AssembleLayout` | assembler/modules/assembler.rb:73-127 | Instruction k has PC 4 k; labels lie inside their section, text labels on instruction boundaries |
| `AssemblerProofs.LabelPosition` | assembler/modules/assembler.rb:119-127 | A text label, once defined, keeps the offset 4 * (instructions before it) |
| `AssemblerProofs.BeqReachesLabel` | assembler/modules/encoder.rb:76-84 | A taken BEQ to a label sets the PC to the label's offset mod 2^32, forward or backward |
| `AssemblerProofs.JReachesLabel` | assembler/modules/encoder.rb:67-74 | A J reaches its label exactly when its own PC is below 2^28 |
| `AssemblerProofs.ProgramBranchLands` | src/toy/executor.cpp:133-142 | In every program that assembles, a taken branch continues at the instruction after its label |
| `AssemblerProofs.ProgramJumpLands` | src/toy/executor.cpp:144-149 | The same for J, exactly when the jump lies in the first 2^28 bytes |

## Left out

- The IR library: folding, register allocation, machine code and memory mapping; its operators get a semantics and an entry point stands for an IR list. A failing compilation and the optimization level are not modelled.
- Address operands of IR loads and stores: registers, PC, status and slots are named directly, because the compiler only ever uses constant addresses.
- Operand type tags and operand vectors of decoded instructions: constructors with typed fields take their place.
- Memories of 2^32 bytes or more; the program allocates 64 MiB (src/main.cpp:12).
- ELF reading and writing, file handling and the command line; a run starts from memory, regions and entry PC. `RegionsAligned` and `Loaded` state what the loader establishes.
- Host input and output: read, write and read-number take the next of a list of replies that every engine shares; a list that has run out answers with a failure. The text of error messages and the errno table are not modelled beyond EBADF, ENODATA and EINVAL.
- The Ruby surface of the assembler: a program is a list of section, label, instruction and data calls; label and data arguments of a wrong Ruby type are not expressible.
- JLaw: the index is below 2^26, the only ones that decoding yields.
- Allocation failure, and exceptions other than simulation errors.
- Unbounded loops: `RunJit`, `RunInterpreter` and `FollowChain` take a bound on the number of blocks, and the theorems quantify over every bound.
- EncodeThenDecode: the error kinds of the encoder are coarser than the Ruby messages, which carry text and line numbers.
- GuestMemory.TIMemory.constructor: requires less than 2^32 bytes, because the decode loop wraps around beyond (src/toy/basic_block_cache.cpp:21-24).
- Context.ExecutionContext.constructor: requires less than 2^32 bytes, for the same reason.
- SwitchRunCoherent: assumes that no read call delivers into an executable region, because the program marks nothing dirty there (src/toy/syscall_emulator.cpp:40-41).
- BlockIsSteps: assumes that no store hits a later word of its own block, because a running block keeps its decoded instructions.
