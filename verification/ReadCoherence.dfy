/** The read call stores without marking code dirty: exactly when that breaks coherence. */
module ReadCoherence {
  import opened Words
  import opened BitUtils
  import opened Instructions
  import opened Decoder
  import opened EncoderProofs
  import opened Reencode
  import opened GuestMemory
  import opened MachineState
  import opened CacheSpec
  import opened Executor
  import opened Interpreters
  import opened CacheInvariants
  import opened Coherence
  import opened Runs

  /** A machine about to execute a read call that passes its checks. */
  predicate Reading(m: Machine) {
    && m.regs[8] == 0 && m.regs[0] == 0
    && !BoundsFail(|m.mem.bytes|, m.regs[1], m.regs[2])
  }

  /** The machine after the call when the host gives this reply. */
  function AfterRead(m: Machine, reply: Reply): Machine {
    ExecSyscall(m.(host := m.host.(replies := [reply]))).m
  }

  /** Word `k` of the block at `a` is executable, cached as valid, and not dirty. */
  predicate CleanWord(m: Machine, a: Word, k: nat) {
    && HasValid(m.cache, a) && k < |m.cache.blocks[a].instrs|
    && Touches(m.mem.regions, a + 4 * k, 4) && !Touches(m.mem.dirty, a + 4 * k, 4)
  }

  // ---- which words the input can change ----

  /** The buffer of the call covers byte `j` of a word. */
  predicate Covers(m: Machine, word: nat, j: nat) {
    0 <= word + j - m.regs[1] < m.regs[2]
  }

  /** The bytes of a word outside the buffer meet a table entry. */
  predicate FitsOutside(m: Machine, word: nat, opcode: Opcode)
    requires word + 4 <= |m.mem.bytes|
  {
    forall j :: 0 <= j < 4 && !Covers(m, word, j) ==>
      ByteMatches(DECODE_VECTOR[Position(opcode)], j, m.mem.bytes[word + j])
  }

  /**
    Input can change what the word decodes to. FLUSH ignores all but its top byte, and an
    INVALID word stays invalid unless its other bytes meet a table entry.
  */
  ghost predicate Exposed(m: Machine, word: nat)
    requires word + 4 <= |m.mem.bytes|
  {
    match InstrAt(m.mem, word)
    case Flush => Covers(m, word, 3)
    case Invalid => exists opcode :: FitsOutside(m, word, opcode)
    case _ => Covers(m, word, 0) || Covers(m, word, 1) || Covers(m, word, 2) || Covers(m, word, 3)
  }

  /** The buffer exposes a clean word. */
  ghost predicate ExposesCleanWord(m: Machine) {
    exists a: Word, k: nat :: CleanWord(m, a, k) && a + 4 * k + 4 <= |m.mem.bytes| && Exposed(m, a + 4 * k)
  }

  /** FLUSH is decided by the top byte. */
  lemma FlushIsTopByte(b0: Byte, b1: Byte, b2: Byte, b3: Byte)
    ensures Decode(DecodeLittleEndianWord(b0, b1, b2, b3)).Flush? <==> b3 / 4 == 0x26
  {
    hide Decode, HasFixed;
    var w := DecodeLittleEndianWord(b0, b1, b2, b3);
    DivModUnique(w, 0x400_0000, b3 / 4, b3 % 4 * 0x100_0000 + b2 * 0x1_0000 + b1 * 0x100 + b0);
    MajorDecides(w, FLUSH);
    if b3 / 4 == 0x26 {
      DecodeFixed(w, FLUSH);
    } else if Decode(w).Flush? {
      var opcode := OpcodeFound(w);
      OnlyFlush(opcode, w);
    }
  }

  lemma OnlyFlush(opcode: Opcode, w: Word)
    requires Operands(opcode, w).Flush?
    ensures opcode.FLUSH?
  {
  }

  /** A word whose bytes all meet an entry is valid, and a valid word meets some entry. */
  lemma ValidBytewise(b0: Byte, b1: Byte, b2: Byte, b3: Byte, opcode: Opcode)
    ensures var info := DECODE_VECTOR[Position(opcode)];
      ByteMatches(info, 0, b0) && ByteMatches(info, 1, b1) && ByteMatches(info, 2, b2) && ByteMatches(info, 3, b3)
      <==> HasFixed(opcode, DecodeLittleEndianWord(b0, b1, b2, b3))
  {
    hide DECODE_VECTOR, Position, ByteMatches, Matches, HasFixed;
    MatchesBytewise(DECODE_VECTOR[Position(opcode)], b0, b1, b2, b3);
    MatchesIsFixed(opcode, DecodeLittleEndianWord(b0, b1, b2, b3));
  }

  // ---- what input makes of a word ----

  /** Byte `j` of a word after the input. */
  function InputByte(m: Machine, data: seq<Byte>, word: nat, j: nat): Byte
    requires word + 4 <= |m.mem.bytes| && j < 4
  {
    if 0 <= word + j - m.regs[1] < |data| then data[word + j - m.regs[1]] else m.mem.bytes[word + j]
  }

  lemma WordAfterInput(m: Machine, data: seq<Byte>, word: nat)
    requires Reading(m) && |data| <= m.regs[2] && word + 4 <= |m.mem.bytes|
    ensures var after := PutBytes(m.mem.bytes, m.regs[1], data);
      && |after| == |m.mem.bytes|
      && after[word] == InputByte(m, data, word, 0) && after[word + 1] == InputByte(m, data, word, 1)
      && after[word + 2] == InputByte(m, data, word, 2) && after[word + 3] == InputByte(m, data, word, 3)
  {
    hide PutBytes;
    PutBytesAt(m.mem.bytes, m.regs[1], data, word);
    PutBytesAt(m.mem.bytes, m.regs[1], data, word + 1);
    PutBytesAt(m.mem.bytes, m.regs[1], data, word + 2);
    PutBytesAt(m.mem.bytes, m.regs[1], data, word + 3);
  }

  /** If the input makes the word valid, the bytes it cannot reach meet a table entry. */
  lemma FitsIfValid(m: Machine, data: seq<Byte>, word: nat, opcode: Opcode)
    requires Reading(m) && |data| <= m.regs[2] && word + 4 <= |m.mem.bytes|
    requires |PutBytes(m.mem.bytes, m.regs[1], data)| == |m.mem.bytes|
    requires HasFixed(opcode, WordAt(PutBytes(m.mem.bytes, m.regs[1], data), word))
    ensures FitsOutside(m, word, opcode)
  {
    hide PutBytes, DecodeLittleEndianWord, ByteMatches, DECODE_VECTOR, Position, HasFixed;
    var c := PutBytes(m.mem.bytes, m.regs[1], data);
    WordAfterInput(m, data, word);
    ValidBytewise(c[word], c[word + 1], c[word + 2], c[word + 3], opcode);
  }

  /** A word that is not exposed decodes as before, whatever the input. */
  lemma HiddenWordStays(m: Machine, data: seq<Byte>, word: nat)
    requires Reading(m) && |data| <= m.regs[2] && word + 4 <= |m.mem.bytes| && !Exposed(m, word)
    ensures var after := PutBytes(m.mem.bytes, m.regs[1], data);
      |after| == |m.mem.bytes| && Decode(WordAt(after, word)) == InstrAt(m.mem, word)
  {
    hide PutBytes, Decode, DecodeLittleEndianWord, ByteMatches, DECODE_VECTOR, Position, HasFixed;
    var b, c := m.mem.bytes, PutBytes(m.mem.bytes, m.regs[1], data);
    WordAfterInput(m, data, word);
    match InstrAt(m.mem, word)
    case Flush =>
      FlushIsTopByte(b[word], b[word + 1], b[word + 2], b[word + 3]);
      FlushIsTopByte(c[word], c[word + 1], c[word + 2], c[word + 3]);
    case Invalid =>
      var w := WordAt(c, word);
      DecodeInvalid(w);
      if opcode :| HasFixed(opcode, w) {
        FitsIfValid(m, data, word, opcode);
      }
    case _ =>
  }

  /** Input that puts four given bytes where the buffer covers the word. */
  function Overlay(m: Machine, word: nat, u: seq<Byte>): seq<Byte>
    requires |u| == 4
  {
    seq(m.regs[2], j requires 0 <= j < m.regs[2] =>
      if word <= m.regs[1] + j < word + 4 then u[m.regs[1] + j - word] else 0)
  }

  function Mixed(m: Machine, word: nat, u: seq<Byte>, j: nat): Byte
    requires |u| == 4 && j < 4 && word + 4 <= |m.mem.bytes|
  {
    if Covers(m, word, j) then u[j] else m.mem.bytes[word + j]
  }

  function MixedWord(m: Machine, word: nat, u: seq<Byte>): Word
    requires |u| == 4 && word + 4 <= |m.mem.bytes|
  {
    DecodeLittleEndianWord(Mixed(m, word, u, 0), Mixed(m, word, u, 1), Mixed(m, word, u, 2), Mixed(m, word, u, 3))
  }

  lemma OverlayWord(m: Machine, word: nat, u: seq<Byte>)
    requires Reading(m) && word + 4 <= |m.mem.bytes| && |u| == 4
    ensures |Overlay(m, word, u)| == m.regs[2]
    ensures var after := PutBytes(m.mem.bytes, m.regs[1], Overlay(m, word, u));
      |after| == |m.mem.bytes| && WordAt(after, word) == MixedWord(m, word, u)
  {
    hide PutBytes, DecodeLittleEndianWord;
    WordAfterInput(m, Overlay(m, word, u), word);
  }

  /** An exposed word can be made to decode to something else. */
  lemma ExposedWordChanges(m: Machine, word: nat) returns (u: seq<Byte>)
    requires Reading(m) && word + 4 <= |m.mem.bytes| && Exposed(m, word)
    ensures |u| == 4 && Decode(MixedWord(m, word, u)) != InstrAt(m.mem, word)
  {
    hide Decode, DecodeLittleEndianWord, FitsOutside;
    match InstrAt(m.mem, word)
    case Flush =>
      u := [0, 0, 0, 0xFC];
      FlushIsTopByte(Mixed(m, word, u, 0), Mixed(m, word, u, 1), Mixed(m, word, u, 2), Mixed(m, word, u, 3));
    case Invalid =>
      var opcode :| FitsOutside(m, word, opcode);
      u := InvalidBecomes(m, word, opcode);
    case _ =>
      var j := if Covers(m, word, 0) then 0 else if Covers(m, word, 1) then 1 else if Covers(m, word, 2) then 2 else 3;
      u := OneByteChanges(m, word, j);
      if Decode(MixedWord(m, word, u)) == InstrAt(m.mem, word) {
        DecodeInjective(WordAt(m.mem.bytes, word), MixedWord(m, word, u));
      }
  }

  /** Any byte that the buffer covers can be made to differ. */
  lemma OneByteChanges(m: Machine, word: nat, j: nat) returns (u: seq<Byte>)
    requires word + 4 <= |m.mem.bytes| && j < 4 && Covers(m, word, j)
    ensures |u| == 4 && MixedWord(m, word, u) != WordAt(m.mem.bytes, word)
  {
    hide DecodeLittleEndianWord, Covers;
    var b := m.mem.bytes[word..word + 4];
    u := b[j := if b[j] == 0 then 1 else 0];
    BytesUnique(Mixed(m, word, u, 0), Mixed(m, word, u, 1), Mixed(m, word, u, 2), Mixed(m, word, u, 3),
                b[0], b[1], b[2], b[3]);
  }

  /** The bytes of an entry's reference, where the buffer covers the word, complete a valid word. */
  lemma InvalidBecomes(m: Machine, word: nat, opcode: Opcode) returns (u: seq<Byte>)
    requires word + 4 <= |m.mem.bytes| && FitsOutside(m, word, opcode)
    ensures |u| == 4 && !Decode(MixedWord(m, word, u)).Invalid?
  {
    hide Decode, DecodeLittleEndianWord, LittleEndianByte, ByteMatches, DECODE_VECTOR, Position, HasFixed;
    var r := DECODE_VECTOR[Position(opcode)].reference;
    u := [LittleEndianByte(r, 0), LittleEndianByte(r, 1), LittleEndianByte(r, 2), LittleEndianByte(r, 3)];
    ReferenceByteMatches(opcode, 0);
    ReferenceByteMatches(opcode, 1);
    ReferenceByteMatches(opcode, 2);
    ReferenceByteMatches(opcode, 3);
    ValidBytewise(Mixed(m, word, u, 0), Mixed(m, word, u, 1), Mixed(m, word, u, 2), Mixed(m, word, u, 3), opcode);
    DecodeInvalid(MixedWord(m, word, u));
  }

  // ---- the call ----

  /** The call changes the buffer, x0, the PC and the host, and nothing else; no range becomes dirty. */
  lemma AfterReadIs(m: Machine, reply: Reply)
    requires Reading(m)
    ensures var after := AfterRead(m, reply);
      && after.regs == m.regs[0 := if reply.ok then |Delivered(reply, m.regs[2])| else Negated(reply.value)]
      && (m.status == RUNNING ==> after.pc == Add32(m.pc, 4)) && after.status == m.status
      && after.cache == m.cache && after.mem.regions == m.mem.regions && after.mem.dirty == m.mem.dirty
      && after.mem.bytes == (if reply.ok then PutBytes(m.mem.bytes, m.regs[1], Delivered(reply, m.regs[2]))
                             else m.mem.bytes)
  {
    hide PutBytes;
  }

  /** An exposed clean word can be made stale by some input. */
  lemma SomeInputBreaks(m: Machine, a: Word, k: nat) returns (reply: Reply)
    requires Coherent(m) && Reading(m) && CleanWord(m, a, k)
    requires a + 4 * k + 4 <= |m.mem.bytes| && Exposed(m, a + 4 * k)
    ensures !Coherent(AfterRead(m, reply))
  {
    hide PutBytes, Touches, Decode, AfterRead, WordAt, Overlay, MixedWord, Exposed, InstrAt;
    var i, word := m.cache.blocks[a].instrs[k], a + 4 * k;
    assert WordCoherent(m.mem, word, i);
    var u := ExposedWordChanges(m, word);
    OverlayWord(m, word, u);
    reply := Reply(true, 0, Overlay(m, word, u));
    AfterReadIs(m, reply);
    InstrOf(AfterRead(m, reply).mem, word);
    assert !WordCoherent(AfterRead(m, reply).mem, word, i);
  }

  lemma InstrOf(mem: Mem, word: nat)
    requires word + 4 <= |mem.bytes|
    ensures InstrAt(mem, word) == Decode(WordAt(mem.bytes, word))
  {
  }

  /** Input that exposes no clean word keeps coherence. */
  lemma InputKeeps(m: Machine, reply: Reply)
    requires Coherent(m) && Reading(m) && !ExposesCleanWord(m)
    ensures Coherent(AfterRead(m, reply))
  {
    hide PutBytes, Touches, Exposed, InstrAt, Decode, WordAt, AfterRead, WellShaped;
    var after := AfterRead(m, reply);
    AfterReadIs(m, reply);
    if reply.ok {
      var data := Delivered(reply, m.regs[2]);
      PutBytesLength(m.mem.bytes, m.regs[1], data);
      forall a, k | a in m.cache.blocks && m.cache.blocks[a].valid && 0 <= k < |m.cache.blocks[a].instrs|
        ensures WordCoherent(after.mem, a + 4 * k, m.cache.blocks[a].instrs[k])
      {
        assert WordCoherent(m.mem, a + 4 * k, m.cache.blocks[a].instrs[k]);
        if CleanWord(m, a, k) {
          HiddenWordStays(m, data, a + 4 * k);
          InstrOf(after.mem, a + 4 * k);
        }
      }
    } else {
      CoherentDependsOn(m, after);
    }
  }

  /**
    Coherence is not an invariant of read calls. It survives every possible input exactly
    when the buffer exposes no clean executable word of a valid cached block.
  */
  lemma ReadKeepsCoherenceExactly(m: Machine)
    requires Coherent(m) && Reading(m)
    ensures (forall reply: Reply :: Coherent(AfterRead(m, reply))) <==> !ExposesCleanWord(m)
  {
    hide Coherent, AfterRead, CleanWord, Reading, Exposed;
    if ExposesCleanWord(m) {
      var a: Word, k: nat :| CleanWord(m, a, k) && a + 4 * k + 4 <= |m.mem.bytes| && Exposed(m, a + 4 * k);
      var reply := SomeInputBreaks(m, a, k);
    } else {
      forall reply: Reply
        ensures Coherent(AfterRead(m, reply))
      {
        InputKeeps(m, reply);
      }
    }
  }

  // ---- a program that reads over its own code ----

  /** One SYSCALL in an executable region; x2 asks for four bytes at address 0. */
  function ReadingProgram(reply: Reply): Machine {
    Machine(seq(32, r => if r == 2 then 4 else 0), 0, Mem([0x1E, 0, 0, 0], [CodeRange(0, 4)], []), RUNNING, 0,
            Host([reply], []), MachineState.Cache(map[], map[], map[], 1))
  }

  /** Its block, once it is decoded. */
  function ReadingBlock(reply: Reply): Machine {
    ReadingProgram(reply).(cache := Install(ReadingProgram(reply).cache, 0, [Instr.Syscall(0)]))
  }

  lemma ReadingProgramDecodes(reply: Reply)
    ensures InstrAt(ReadingProgram(reply).mem, 0) == Instr.Syscall(0)
    ensures DecodeBlock(ReadingProgram(reply).mem, 0) == Done([Instr.Syscall(0)])
  {
    hide Decode;
    SyscallDecodes(0x1E);
  }

  lemma ReadingBlockIsClean(reply: Reply)
    ensures var m := ReadingBlock(reply);
      Coherent(m) && Reading(m) && CleanWord(m, 0, 0) && Exposed(m, 0)
  {
    hide InstrAt;
    ReadingProgramDecodes(reply);
    var m := ReadingBlock(reply);
    assert Overlaps(m.mem.regions[0], 0, 4);
  }

  lemma ReadingProgramRuns(reply: Reply)
    ensures SwitchRun(ReadingProgram(reply), 1).m == AfterRead(ReadingBlock(reply), reply)
  {
    hide GetBlock, ExecSyscall, RunFrom;
    var p, m := ReadingProgram(reply), ReadingBlock(reply);
    ReadingLookup(reply);
    ReadingBlockIsClean(reply);
    hide Coherent, Reading, CleanWord, Exposed;
    OneSyscall(m);
    ReadDoesNotRaise(m);
    assert SwitchStep(p) == Ran(ExecSyscall(m).m);
    hide SwitchStep;
    assert m.(host := m.host.(replies := [reply])) == m;
  }

  lemma ReadingLookup(reply: Reply)
    ensures GetBlock(ReadingProgram(reply).cache, ReadingProgram(reply).mem, 0) == Found(ReadingBlock(reply).cache)
    ensures 0 in ReadingBlock(reply).cache.blocks && ReadingBlock(reply).cache.blocks[0].instrs == [Instr.Syscall(0)]
  {
    hide DecodeBlock, Install;
    ReadingProgramDecodes(reply);
    var cache := ReadingProgram(reply).cache;
    assert Evict(cache, 0) == cache;
    InstallHas(cache, 0, [Instr.Syscall(0)]);
  }

  lemma InstallHas(cache: Cache, address: Word, instrs: seq<Instr>)
    ensures address in Install(cache, address, instrs).blocks
    ensures Install(cache, address, instrs).blocks[address].instrs == instrs
  {
  }

  lemma OneSyscall(m: Machine)
    ensures RunFrom(m, [Instr.Syscall(0)], 0) == ExecSyscall(m)
  {
    hide ExecSyscall;
    if ExecSyscall(m).Ok? {
      assert RunFrom(ExecSyscall(m).m, [Instr.Syscall(0)], 1) == Ok(ExecSyscall(m).m);
    }
  }

  lemma ReadDoesNotRaise(m: Machine)
    requires Reading(m)
    ensures ExecSyscall(m).Ok?
  {
    hide PutBytes;
  }

  /** A program reaches an incoherent state: its block is valid, nothing is dirty, and memory differs. */
  lemma SomeReadBreaks() returns (p: Machine)
    ensures Loaded(p) && Coherent(p) && !Coherent(SwitchRun(p, 1).m)
  {
    hide Exposed, AfterRead, SwitchRun, Touches, WordCoherent;
    var empty := ReadingBlock(NO_REPLY);
    ReadingBlockIsClean(NO_REPLY);
    var reply := SomeInputBreaks(empty, 0, 0);
    p := ReadingProgram(reply);
    ReadingProgramRuns(reply);
    AfterReadSame(empty, ReadingBlock(reply), reply);
  }

  /** The reply replaces whatever answers were waiting. */
  lemma AfterReadSame(m: Machine, n: Machine, reply: Reply)
    requires n == m.(host := m.host.(replies := n.host.replies))
    ensures AfterRead(n, reply) == AfterRead(m, reply)
  {
    assert n.(host := n.host.(replies := [reply])) == m.(host := m.host.(replies := [reply]));
  }
}
