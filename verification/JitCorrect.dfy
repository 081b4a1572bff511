/** Block compilation preserves meaning. */
module JitCorrect {
  import opened Words
  import opened BitOperations
  import opened Instructions
  import opened GuestMemory
  import opened Ir
  import opened MachineState
  import opened CacheSpec
  import opened Executor
  import opened Interpreters
  import opened IrEval
  import opened JitSpec
  import opened JitChunks
  import opened JitEngine

  // ---- one instruction ----

  /** The code of every instruction that does not end a block has the instruction's effect. */
  lemma EffectChunk(ns: seq<Node>, k: nat, f: Frame, i: Instr, address: Word) returns (g: Frame)
    requires !EndsBlock(i) && f.m.status == RUNNING
    requires At(ns, k, EncodeInstruction(k, i, address))
    ensures Continues(ns, k, f, k + |EncodeInstruction(k, i, address)|, Effect(f.m, i), g)
  {
    hide Eval, PureValue, EffectOf, Load, Store, StorePair, SaturateSigned, RotateRight, Compress32, Clz32, Or32;
    hide EncodeExitIfStopped, At;
    match i
    case Li(rt, imm) => g := LiChunk(ns, k, f, rt, imm);
    case Add(rd, rs, rt) => g := AddChunk(ns, k, f, rd, rs, rt);
    case Addi(rt, rs, imm) => g := AddiChunk(ns, k, f, rt, rs, imm);
    case OrReg(rd, rs, rt) => g := OrChunk(ns, k, f, rd, rs, rt);
    case LdReg(rt, base, rm) => g := LdRegChunk(ns, k, f, rt, base, rm);
    case LdImm(rt, base, imm) => g := LdImmChunk(ns, k, f, rt, base, imm);
    case St(rt, base, imm) => g := StChunk(ns, k, f, rt, base, imm);
    case Stp(rt, rt2, base, imm) => g := StpChunk(ns, k, f, rt, rt2, base, imm);
    case Clz(rd, rs) => g := ClzChunk(ns, k, f, rd, rs);
    case Ssat(_, _, width) =>
      if ValidWidth(width) {
        g := SsatChunk(ns, k, f, i);
      } else {
        g := CallChunk(ns, k, f, HandleSsat, i);
      }
    case Rori(rd, rs, shift) => g := RoriChunk(ns, k, f, rd, rs, shift);
    case Bext(rd, rs, rt) => g := BextChunk(ns, k, f, rd, rs, rt);
  }

  function StepAtPc(s: Step, pc: Word): Step {
    match s
    case Ok(m) => Ok(m.(pc := pc))
    case Raise(m, code) => Raise(m.(pc := pc), code)
  }

  /** The effect neither reads nor writes the PC. */
  lemma EffectIgnoresPc(m: Machine, i: Instr, pc: Word)
    requires !EndsBlock(i)
    ensures Effect(m.(pc := pc), i) == StepAtPc(Effect(m, i), pc)
  {
    hide SaturateSigned, RotateRight, Compress32, Clz32, Or32, Read32, Write32;
  }

  /** An instruction inside a block keeps the PC, the status and the cache. */
  lemma EffectKeeps(m: Machine, i: Instr)
    requires !EndsBlock(i)
    ensures var after := Effect(m, i).m;
      after.pc == m.pc && after.status == m.status && after.cache == m.cache
  {
    hide SaturateSigned, RotateRight, Compress32, Clz32, Or32, Read32, Write32;
  }

  // ---- addresses ----

  lemma AddressSteps(start: Word, k: nat)
    ensures Add32(AddressOf(start, k), 4) == AddressOf(start, k + 1)
    ensures Wrap(AddressOf(start, k + 1) - 4) == AddressOf(start, k)
  {
  }

  // ---- the whole block ----

  /** The entry that chaining goes to after a block that did not raise. */
  function NextEntry(m: Machine, last: Instr): Option<Handle> {
    if m.status != RUNNING || last.Flush? || last.Invalid? then Some(0)
    else if m.pc in m.cache.entries then Some(m.cache.entries[m.pc])
    else None
  }

  /** The PC after a fault in translated code: that of SYSCALL and INVALID, else the PC at the block's entry. */
  function FaultPc(raising: Instr, raisedPc: Word, entryPc: Word): Word {
    if StoresOwnPc(raising) then raisedPc else entryPc
  }

  /**
    Translated code, entered with PC `entry`, against the interpreter, which raises at
    instruction `k` if it raises: the same machine and the slot of the resulting PC, or
    the same faulted machine with the PC of `FaultPc` and a null entry.
  */
  predicate BlockAgrees(r: Result, s: Step, instrs: seq<Instr>, k: nat, entry: Word)
    requires instrs != []
  {
    match s
    case Ok(m) => r.Returned? && r.m == m && NextEntry(m, instrs[|instrs| - 1]) == Some(r.handle)
    case Raise(m, _) => k < |instrs| && r == Returned(Fault(m).(pc := FaultPc(instrs[k], m.pc, entry)), 0)
  }

  predicate SlotsExist(m: Machine, start: Word, instrs: seq<Instr>) {
    SlotsOf(start, instrs) <= m.cache.entries.Keys
  }

  /** Load a slot and return it. */
  lemma ReturnSlot(ns: seq<Node>, k: nat, f: Frame, address: Word)
    requires At(ns, k, [LoadSlot(address), Return(k)]) && address in f.m.cache.entries
    ensures Eval(ns, k, f) == Returned(f.m, f.m.cache.entries[address])
  {
    hide Eval;
    var g := Pure(ns, k, f);
    Returns(ns, k + 1, g);
  }

  lemma ReturnNull(ns: seq<Node>, k: nat, f: Frame)
    requires At(ns, k, [ConstNull, Return(k)])
    ensures Eval(ns, k, f) == Returned(f.m, 0)
  {
    hide Eval;
    var g := Pure(ns, k, f);
    Returns(ns, k + 1, g);
  }

  /** The comparison of a branch. */
  lemma BranchCompare(ns: seq<Node>, k: nat, f: Frame, rs: Reg, rt: Reg) returns (g: Frame)
    requires k + 3 <= |ns| && ns[k] == LoadReg(rs) && ns[k + 1] == LoadReg(rt) && ns[k + 2] == Eq(k, k + 1)
    ensures g.m == f.m && Eval(ns, k, f) == Eval(ns, k + 3, g)
    ensures k + 2 in g.env && g.env[k + 2] == Bool(f.m.regs[rs] == f.m.regs[rt])
  {
    hide Eval, PureValue, EffectOf;
    g := RegNode(ns, k, f, rs);
    g := RegNode(ns, k + 1, g, rt);
    g := EqNode(ns, k + 2, g, k, k + 1);
  }

  /** The test of a branch and the jump to one of its arms. */
  lemma BranchTest(ns: seq<Node>, k: nat, f: Frame, rs: Reg, rt: Reg) returns (g: Frame)
    requires k + 10 <= |ns| && ns[k] == LoadReg(rs) && ns[k + 1] == LoadReg(rt) && ns[k + 2] == Eq(k, k + 1)
    requires ns[k + 3] == If(k + 2) && ns[k + 4] == IfTrue(k + 3) && ns[k + 9] == IfFalse(k + 3)
    requires forall i :: k + 3 < i < k + 9 ==> !ns[i].IfFalse?
    ensures g.m == f.m
    ensures f.m.regs[rs] == f.m.regs[rt] ==> Eval(ns, k, f) == Eval(ns, k + 5, g)
    ensures f.m.regs[rs] != f.m.regs[rt] ==> Eval(ns, k, f) == Eval(ns, k + 10, g)
  {
    hide Eval, PureValue, EffectOf;
    g := BranchCompare(ns, k, f, rs, rt);
    if f.m.regs[rs] == f.m.regs[rt] {
      Branch(ns, k + 3, g, k + 4);
      SkipNode(ns, k + 4, g);
    } else {
      Branch(ns, k + 3, g, k + 9);
      SkipNode(ns, k + 9, g);
    }
  }

  /** The start of an arm does nothing. */
  lemma SkipNode(ns: seq<Node>, k: nat, f: Frame)
    requires k < |ns| && (ns[k].IfTrue? || ns[k].IfFalse?)
    ensures Eval(ns, k, f) == Eval(ns, k + 1, f)
  {
    var g := Effectful(ns, k, f);
  }

  /** One arm of a branch: its slot, its PC, and the merge. */
  lemma BranchArm(ns: seq<Node>, k: nat, f: Frame, j: nat, target: Word, merge: nat, isSecond: bool)
    returns (g: Frame)
    requires k < j && At(ns, j, [LoadSlot(target), ConstU32(target), StorePc(j + 1), End])
    requires j + 3 < merge < |ns| && forall i :: j + 3 < i < merge ==> !ns[i].Merge2?
    requires ns[merge].Merge2? && (if isSecond then ns[merge].b else ns[merge].a) == j + 3
    requires isSecond ==> ns[merge].a != j + 3
    requires target in f.m.cache.entries
    ensures Eval(ns, j, f) == Eval(ns, merge, g)
    ensures g.m == f.m.(pc := target) && g.second == isSecond
    ensures j in g.env && g.env[j] == Addr(f.m.cache.entries[target])
  {
    hide Eval;
    g := Pure(ns, j, f);
    g := WordNode(ns, j + 1, g, target);
    g := PcNode(ns, j + 2, g, j + 1);
    g := Merges(ns, j + 3, g, merge);
  }

  lemma Merges(ns: seq<Node>, k: nat, f: Frame, merge: nat) returns (g: Frame)
    requires k < merge < |ns| && ns[k] == End && ns[merge].Merge2?
    requires ns[merge].a == k || ns[merge].b == k
    requires forall i :: k < i < merge ==> !ns[i].Merge2?
    ensures g == f.(second := ns[merge].a != k)
    ensures Eval(ns, k, f) == Eval(ns, merge, g)
  {
    FindMergeIs(ns, k + 1, merge, k);
    g := f.(second := ns[merge].a != k);
    assert StepNode(ns, k, f) == Goto(merge, g);
  }

  lemma {:induction false} FindMergeIs(ns: seq<Node>, k: nat, merge: nat, from: Ref)
    requires k <= merge < |ns| && ns[merge].Merge2? && (ns[merge].a == from || ns[merge].b == from)
    requires forall i :: k <= i < merge ==> !ns[i].Merge2?
    ensures FindMerge(ns, k, from) == merge
    decreases merge - k
  {
    if k < merge {
      FindMergeIs(ns, k + 1, merge, from);
    }
  }

  /** The merge, the PHI and the return. */
  lemma BranchEnd(ns: seq<Node>, k: nat, f: Frame, a: Ref, b: Ref)
    requires k + 2 < |ns| && ns[k].Merge2? && ns[k + 1] == Phi2(a, b) && ns[k + 2] == Return(k + 1)
    requires var r := if f.second then b else a;
      r in f.env && f.env[r].Addr?
    ensures Eval(ns, k, f) == Returned(f.m, f.env[if f.second then b else a].handle)
  {
    hide Eval;
    var g := Effectful(ns, k, f);
    g := Pure(ns, k + 1, g);
    Returns(ns, k + 2, g);
  }

  lemma BranchLayout(ns: seq<Node>, k: nat, rs: Reg, rt: Reg, taken: Word, fall: Word)
    requires At(ns, k, EncodeBranch(k, rs, rt, taken, fall))
    ensures k + 16 <= |ns| && ns[k] == LoadReg(rs) && ns[k + 1] == LoadReg(rt) && ns[k + 2] == Eq(k, k + 1)
    ensures ns[k + 3] == If(k + 2) && ns[k + 4] == IfTrue(k + 3) && ns[k + 9] == IfFalse(k + 3)
    ensures forall i :: k + 3 < i < k + 9 ==> !ns[i].IfFalse?
    ensures At(ns, k + 5, [LoadSlot(taken), ConstU32(taken), StorePc(k + 6), End])
    ensures At(ns, k + 10, [LoadSlot(fall), ConstU32(fall), StorePc(k + 11), End])
    ensures forall i :: k + 8 < i < k + 14 ==> !ns[i].Merge2?
    ensures ns[k + 14] == Merge2(k + 8, k + 13) && ns[k + 15] == Phi2(k + 5, k + 10)
  {
  }

  lemma BranchChunk(ns: seq<Node>, k: nat, f: Frame, rs: Reg, rt: Reg, taken: Word, fall: Word)
    requires At(ns, k, EncodeBranch(k, rs, rt, taken, fall)) && At(ns, k + 16, [Return(k + 15)])
    requires taken in f.m.cache.entries && fall in f.m.cache.entries
    ensures var target := if f.m.regs[rs] == f.m.regs[rt] then taken else fall;
      Eval(ns, k, f) == Returned(f.m.(pc := target), f.m.cache.entries[target])
  {
    hide Eval, PureValue, EffectOf, EncodeBranch;
    BranchLayout(ns, k, rs, rt, taken, fall);
    var g := BranchTest(ns, k, f, rs, rt);
    if f.m.regs[rs] == f.m.regs[rt] {
      g := BranchArm(ns, k, g, k + 5, taken, k + 14, false);
    } else {
      g := BranchArm(ns, k, g, k + 10, fall, k + 14, true);
    }
    BranchEnd(ns, k + 14, g, k + 5, k + 10);
  }

  // ---- the last instruction and the tail ----

  /** The code from the last instruction of a block to its end. */
  function LastCode(k: nat, start: Word, instrs: seq<Instr>): seq<Node>
    requires instrs != []
  {
    var body := EncodeBody(k, start, instrs, |instrs| - 1);
    body + EncodeTail(k + |body|, start, instrs)
  }

  function OwnCode(k: nat, start: Word, instrs: seq<Instr>): seq<Node>
    requires instrs != []
  {
    var n := |instrs| - 1;
    if instrs[n].Beq? then [] else EncodeInstruction(k, instrs[n], AddressOf(start, n))
  }

  lemma LastBody(k: nat, start: Word, instrs: seq<Instr>)
    requires instrs != []
    ensures EncodeBody(k, start, instrs, |instrs| - 1) == OwnCode(k, start, instrs)
  {
    hide EncodeInstruction;
    var c := OwnCode(k, start, instrs);
    assert EncodeBody(k + |c|, start, instrs, |instrs|) == [];
    assert c + [] == c;
  }

  /** Terminators store the PC themselves, so their code is followed by the next entry at once. */
  lemma LastCodeIs(k: nat, start: Word, instrs: seq<Instr>)
    requires instrs != []
    ensures var c := OwnCode(k, start, instrs);
      var pc := EncodeEndPc(k + |c|, start, instrs);
      var next := EncodeNextEntry(k + |c| + |pc|, start, instrs);
      LastCode(k, start, instrs) == c + (pc + (next + [Return(k + |c| + |pc| + |next| - 1)]))
  {
    hide EncodeInstruction, EncodeNextEntry, EncodeEndPc;
    LastBody(k, start, instrs);
  }

  predicate BlockEndsWell(ns: seq<Node>, k: nat, f: Frame, start: Word, instrs: seq<Instr>)
    requires instrs != []
  {
    var n := |instrs| - 1;
    BlockAgrees(Eval(ns, k, f), Exec(f.m.(pc := AddressOf(start, n)), instrs[n]), instrs, n, f.m.pc)
  }

  /** What the code at the end of a block is entered with. */
  predicate AtLast(ns: seq<Node>, k: nat, f: Frame, start: Word, instrs: seq<Instr>) {
    && instrs != [] && f.m.status == RUNNING && SlotsExist(f.m, start, instrs)
    && At(ns, k, LastCode(k, start, instrs))
  }

  lemma LastPlain(ns: seq<Node>, k: nat, f: Frame, start: Word, instrs: seq<Instr>)
    requires AtLast(ns, k, f, start, instrs) && !EndsBlock(instrs[|instrs| - 1])
    ensures BlockEndsWell(ns, k, f, start, instrs)
  {
    hide Eval, PureValue, EffectOf, Effect, EncodeInstruction, At;
    var n := |instrs| - 1;
    var i, address, end := instrs[n], AddressOf(start, n), AddressOf(start, n + 1);
    var c := EncodeInstruction(k, i, address);
    var j := k + |c|;
    var tail := EncodePc(j, end) + [LoadSlot(end)] + [Return(j + 2)];
    LastCodeIs(k, start, instrs);
    assert LastCode(k, start, instrs) == c + tail;
    AtSplit(ns, k, c, tail);
    assert tail == EncodePc(j, end) + [LoadSlot(end), Return(j + 2)];
    AtSplit(ns, j, EncodePc(j, end), [LoadSlot(end), Return(j + 2)]);
    var g := EffectChunk(ns, k, f, i, address);
    EffectIgnoresPc(f.m, i, address);
    EffectKeeps(f.m, i);
    AddressSteps(start, n);
    if Effect(f.m, i).Ok? {
      g := PcChunk(ns, j, g, end);
      ReturnSlot(ns, j + 2, g, end);
    }
  }

  lemma LastBeq(ns: seq<Node>, k: nat, f: Frame, start: Word, instrs: seq<Instr>)
    requires AtLast(ns, k, f, start, instrs) && instrs[|instrs| - 1].Beq?
    ensures BlockEndsWell(ns, k, f, start, instrs)
  {
    hide Eval, EncodeBranch, At, BranchTarget, LastCode;
    var n := |instrs| - 1;
    var i, address := instrs[n], AddressOf(start, n);
    var taken, fall := BranchTarget(address, i.offset), Add32(address, 4);
    assert taken in SlotsOf(start, instrs) && fall in SlotsOf(start, instrs) by { AddressSteps(start, n); }
    hide SlotsOf, AddressOf;
    LastCodeOfBeq(k, start, instrs);
    BranchLength(k, i.rs, i.rt, taken, fall);
    AtSplit(ns, k, EncodeBranch(k, i.rs, i.rt, taken, fall), [Return(k + 15)]);
    BranchChunk(ns, k, f, i.rs, i.rt, taken, fall);
  }

  lemma LastCodeOfBeq(k: nat, start: Word, instrs: seq<Instr>)
    requires instrs != [] && instrs[|instrs| - 1].Beq?
    ensures var (i, address) := (instrs[|instrs| - 1], AddressOf(start, |instrs| - 1));
      LastCode(k, start, instrs)
      == EncodeBranch(k, i.rs, i.rt, BranchTarget(address, i.offset), Add32(address, 4)) + [Return(k + 15)]
  {
    hide EncodeBranch, BranchTarget, LastCode, AddressOf, Add32, Wrap;
    var n := |instrs| - 1;
    var i, address := instrs[n], AddressOf(start, n);
    var c := EncodeBranch(k, i.rs, i.rt, BranchTarget(address, i.offset), Add32(address, 4));
    assert EncodeNextEntry(k, start, instrs) == c by { AddressSteps(start, n); }
    hide EncodeNextEntry;
    assert |c| == 16 by { BranchLength(k, i.rs, i.rt, BranchTarget(address, i.offset), Add32(address, 4)); }
    LastCodeIs(k, start, instrs);
    assert EncodeEndPc(k, start, instrs) == [] && OwnCode(k, start, instrs) == [];
    hide EncodeEndPc, OwnCode;
    NothingBefore(c + [Return(k + 15)]);
  }

  lemma NothingBefore(ns: seq<Node>)
    ensures [] + ([] + ns) == ns
  {
  }

  lemma BranchLength(k: nat, rs: Reg, rt: Reg, taken: Word, fall: Word)
    ensures |EncodeBranch(k, rs, rt, taken, fall)| == 16
  {
  }

  lemma LastJ(ns: seq<Node>, k: nat, f: Frame, start: Word, instrs: seq<Instr>)
    requires AtLast(ns, k, f, start, instrs) && instrs[|instrs| - 1].J?
    ensures BlockEndsWell(ns, k, f, start, instrs)
  {
    hide Eval, At, JumpTarget;
    var n := |instrs| - 1;
    var target := JumpTarget(AddressOf(start, n), instrs[n].index);
    AddressSteps(start, n);
    LastCodeIs(k, start, instrs);
    assert LastCode(k, start, instrs) == EncodePc(k, target) + [LoadSlot(target), Return(k + 2)];
    AtSplit(ns, k, EncodePc(k, target), [LoadSlot(target), Return(k + 2)]);
    var g := PcChunk(ns, k, f, target);
    ReturnSlot(ns, k + 2, g, target);
  }

  lemma LastFlush(ns: seq<Node>, k: nat, f: Frame, start: Word, instrs: seq<Instr>)
    requires AtLast(ns, k, f, start, instrs) && instrs[|instrs| - 1].Flush?
    ensures BlockEndsWell(ns, k, f, start, instrs)
  {
    hide Eval, At, EncodeCall, InvalidateAll;
    var n := |instrs| - 1;
    var address := AddressOf(start, n);
    AddressSteps(start, n);
    var call := EncodeCall(k, HandleFlush, instrs[n]);
    assert |call| == 9 by { CallLength(k, HandleFlush, instrs[n]); }
    var pc := EncodePc(k + 9, Add32(address, 4));
    LastCodeIs(k, start, instrs);
    assert LastCode(k, start, instrs) == call + (pc + [ConstNull, Return(k + 11)]);
    AtSplit(ns, k, call, pc + [ConstNull, Return(k + 11)]);
    AtSplit(ns, k + 9, pc, [ConstNull, Return(k + 11)]);
    var g := CallChunk(ns, k, f, HandleFlush, instrs[n]);
    g := PcChunk(ns, k + 9, g, Add32(address, 4));
    ReturnNull(ns, k + 11, g);
  }

  lemma CallLength(k: nat, h: Handler, i: Instr)
    ensures |EncodeCall(k, h, i)| == 9
  {
  }

  lemma LastSyscall(ns: seq<Node>, k: nat, f: Frame, start: Word, instrs: seq<Instr>)
    requires AtLast(ns, k, f, start, instrs) && instrs[|instrs| - 1].Syscall?
    ensures BlockEndsWell(ns, k, f, start, instrs)
  {
    hide Eval, At, EncodeCall, SystemCall, ExecSyscall;
    var n := |instrs| - 1;
    var address, next := AddressOf(start, n), AddressOf(start, n + 1);
    AddressSteps(start, n);
    SyscallLayout(ns, k, start, instrs);
    var g := PcChunk(ns, k, f, address);
    SyscallKeeps(g.m);
    var h := g;
    g := CallChunk(ns, k + 2, h, HandleSyscall, instrs[n]);
    if Caught(ExecSyscall(h.m)).status == RUNNING {
      ReturnSlot(ns, k + 11, g, next);
    }
  }

  lemma SyscallLayout(ns: seq<Node>, k: nat, start: Word, instrs: seq<Instr>)
    requires instrs != [] && instrs[|instrs| - 1].Syscall? && At(ns, k, LastCode(k, start, instrs))
    ensures var (n, i) := (|instrs| - 1, instrs[|instrs| - 1]);
      && At(ns, k, EncodePc(k, AddressOf(start, n)))
      && At(ns, k + 2, EncodeCall(k + 2, HandleSyscall, i))
      && At(ns, k + 11, [LoadSlot(AddressOf(start, n + 1)), Return(k + 11)])
  {
    hide At, EncodeCall;
    var n := |instrs| - 1;
    var address, next := AddressOf(start, n), AddressOf(start, n + 1);
    AddressSteps(start, n);
    var call := EncodeCall(k + 2, HandleSyscall, instrs[n]);
    assert |call| == 9 by { CallLength(k + 2, HandleSyscall, instrs[n]); }
    LastCodeIs(k, start, instrs);
    assert LastCode(k, start, instrs) == EncodePc(k, address) + (call + [LoadSlot(next), Return(k + 11)]);
    AtSplit(ns, k, EncodePc(k, address), call + [LoadSlot(next), Return(k + 11)]);
    AtSplit(ns, k + 2, call, [LoadSlot(next), Return(k + 11)]);
  }

  /** A system call that leaves the machine running advances the PC; none touches the cache. */
  lemma SyscallKeeps(m: Machine)
    ensures var s := ExecSyscall(m);
      s.m.cache == m.cache && (s.Ok? && s.m.status == RUNNING ==> s.m.pc == Add32(m.pc, 4))
  {
    hide SystemCall;
    SystemCallKeeps(m);
  }

  /** A system call leaves the PC and the cache alone. */
  lemma SystemCallKeeps(m: Machine)
    ensures SystemCall(m).m.pc == m.pc && SystemCall(m).m.cache == m.cache
  {
  }

  lemma LastInvalid(ns: seq<Node>, k: nat, f: Frame, start: Word, instrs: seq<Instr>)
    requires AtLast(ns, k, f, start, instrs) && instrs[|instrs| - 1].Invalid?
    ensures BlockEndsWell(ns, k, f, start, instrs)
  {
    hide Eval, At, EncodeCall;
    var n := |instrs| - 1;
    var address := AddressOf(start, n);
    var call := EncodeCall(k + 2, HandleInvalid, instrs[n]);
    assert |call| == 9 by { CallLength(k + 2, HandleInvalid, instrs[n]); }
    LastCodeIs(k, start, instrs);
    assert LastCode(k, start, instrs) == EncodePc(k, address) + (call + [ConstNull, Return(k + 11)]);
    AtSplit(ns, k, EncodePc(k, address), call + [ConstNull, Return(k + 11)]);
    AtSplit(ns, k + 2, call, [ConstNull, Return(k + 11)]);
    var g := PcChunk(ns, k, f, address);
    g := CallChunk(ns, k + 2, g, HandleInvalid, instrs[n]);
  }

  lemma LastInstruction(ns: seq<Node>, k: nat, f: Frame, start: Word, instrs: seq<Instr>)
    requires AtLast(ns, k, f, start, instrs)
    ensures BlockEndsWell(ns, k, f, start, instrs)
  {
    assert instrs != [];
    hide AtLast, BlockEndsWell;
    match instrs[|instrs| - 1]
    case Beq(_, _, _) => LastBeq(ns, k, f, start, instrs);
    case J(_) => LastJ(ns, k, f, start, instrs);
    case Flush => LastFlush(ns, k, f, start, instrs);
    case Syscall(_) => LastSyscall(ns, k, f, start, instrs);
    case Invalid => LastInvalid(ns, k, f, start, instrs);
    case _ => LastPlain(ns, k, f, start, instrs);
  }

  // ---- the whole block ----

  /** The code from instruction `j` to the end of the block. */
  function CodeFrom(k: nat, start: Word, instrs: seq<Instr>, j: nat): seq<Node>
    requires j <= |instrs|
  {
    var body := EncodeBody(k, start, instrs, j);
    body + EncodeTail(k + |body|, start, instrs)
  }

  lemma CodeFromStep(k: nat, start: Word, instrs: seq<Instr>, j: nat)
    requires j + 1 < |instrs| && !EndsBlock(instrs[j])
    ensures var c := EncodeInstruction(k, instrs[j], AddressOf(start, j));
      CodeFrom(k, start, instrs, j) == c + CodeFrom(k + |c|, start, instrs, j + 1)
  {
    hide EncodeInstruction, EncodeTail;
    var c := EncodeInstruction(k, instrs[j], AddressOf(start, j));
    var rest := EncodeBody(k + |c|, start, instrs, j + 1);
    assert EncodeBody(k, start, instrs, j) == c + rest;
    assert k + |c + rest| == k + |c| + |rest|;
  }

  /** One instruction inside a block: the interpreter's side. */
  lemma RunFromStep(m: Machine, start: Word, instrs: seq<Instr>, j: nat)
    requires j < |instrs| && !EndsBlock(instrs[j])
    ensures var here := m.(pc := AddressOf(start, j));
      match Effect(m, instrs[j])
      case Raise(m1, code) =>
        RunFrom(here, instrs, j) == Raise(m1.(pc := AddressOf(start, j)), code) && RaisedAt(here, instrs, j) == j
      case Ok(m1) =>
        && RunFrom(here, instrs, j) == RunFrom(m1.(pc := AddressOf(start, j + 1)), instrs, j + 1)
        && RaisedAt(here, instrs, j) == RaisedAt(m1.(pc := AddressOf(start, j + 1)), instrs, j + 1)
  {
    hide Effect;
    AddressSteps(start, j);
    EffectIgnoresPc(m, instrs[j], AddressOf(start, j));
  }

  lemma RunFromLast(m: Machine, instrs: seq<Instr>)
    requires instrs != []
    ensures RunFrom(m, instrs, |instrs| - 1) == Exec(m, instrs[|instrs| - 1])
    ensures Exec(m, instrs[|instrs| - 1]).Raise? ==> RaisedAt(m, instrs, |instrs| - 1) == |instrs| - 1
  {
    hide Exec;
  }

  /** Code and interpreter agree from any instruction of the block on. */
  lemma {:induction false} BodyCorrect(ns: seq<Node>, k: nat, f: Frame, start: Word, instrs: seq<Instr>, j: nat)
    requires j < |instrs| && TerminatorsLast(instrs)
    requires f.m.status == RUNNING && SlotsExist(f.m, start, instrs)
    requires At(ns, k, CodeFrom(k, start, instrs, j))
    ensures var here := f.m.(pc := AddressOf(start, j));
      BlockAgrees(Eval(ns, k, f), RunFrom(here, instrs, j), instrs, RaisedAt(here, instrs, j), f.m.pc)
    decreases |instrs| - j
  {
    hide Eval, RunFrom, RaisedAt, Exec, Effect, At, EncodeInstruction, EncodeBody, EncodeTail, SlotsOf;
    if j + 1 == |instrs| {
      RunFromLast(f.m.(pc := AddressOf(start, j)), instrs);
      LastInstruction(ns, k, f, start, instrs);
    } else {
      var i, address := instrs[j], AddressOf(start, j);
      var c := EncodeInstruction(k, i, address);
      CodeFromStep(k, start, instrs, j);
      AtSplit(ns, k, c, CodeFrom(k + |c|, start, instrs, j + 1));
      var g := EffectChunk(ns, k, f, i, address);
      EffectKeeps(f.m, i);
      RunFromStep(f.m, start, instrs, j);
      if Effect(f.m, i).Ok? {
        BodyCorrect(ns, k + |c|, g, start, instrs, j + 1);
      }
    }
  }

  /**
    Block compilation preserves meaning: for every block with terminators in last
    place, entered running at its start, the code returns the interpreter's machine
    and the slot of the resulting PC, or null when the block stopped or flushed. When
    the interpreter raises, it returns the faulted machine with null, and the PC is that
    of the raising instruction if it is SYSCALL or INVALID, else the block's start.
    It is never stuck.
  */
  lemma CompileCorrect(m: Machine, start: Word, instrs: seq<Instr>)
    requires instrs != [] && TerminatorsLast(instrs)
    requires m.status == RUNNING && m.pc == start && SlotsExist(m, start, instrs)
    ensures BlockAgrees(Eval(Compile(start, instrs), 0, Entered(m)), RunFrom(m, instrs, 0), instrs,
                        RaisedAt(m, instrs, 0), start)
  {
    hide Eval, EncodeBody, EncodeTail, RunFrom, RaisedAt, SlotsOf;
    var ns, f := Compile(start, instrs), Entered(m);
    var g := Effectful(ns, 0, f);
    g := Effectful(ns, 1, g);
    var code := CodeFrom(2, start, instrs, 0);
    assert ns == [Start, Param] + code;
    AtSplit(ns, 0, [Start, Param], code);
    BodyCorrect(ns, 2, g, start, instrs, 0);
    assert m == m.(pc := AddressOf(start, 0));
  }
}
