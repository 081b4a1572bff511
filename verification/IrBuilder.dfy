/** The compiler as the program runs it: nodes are appended to an IR context in order. */
module IrBuilder {
  import opened Words
  import opened Instructions
  import opened Ir
  import opened Executor
  import opened JitSpec
  import opened JitEngine
  import opened BlockCache

  class IrContext {
    var Nodes: seq<Node>

    constructor ()
      ensures Nodes == []
    {
      Nodes := [];
    }

    /** Append a node; its reference is its position. */
    method Add(n: Node) returns (r: Ref)
      modifies this
      ensures r == |old(Nodes)| && Nodes == old(Nodes) + [n]
    {
      r := |Nodes|;
      Nodes := Nodes + [n];
    }

    method Put(n: Node)
      modifies this
      ensures Nodes == old(Nodes) + [n]
    {
      Nodes := Nodes + [n];
    }

    method ExitIfStopped()
      modifies this
      ensures Nodes == old(Nodes) + EncodeExitIfStopped(|old(Nodes)|)
    {
      var status := Add(LoadStatus);
      var running := Add(ConstU8(0));
      var differs := Add(Ne(status, running));
      var stopped := Add(If(differs));
      Put(IfTrue(stopped));
      var zero := Add(ConstNull);
      Put(Return(zero));
      Put(IfFalse(stopped));
    }

    method Call(h: Handler, i: Instr)
      modifies this
      ensures Nodes == old(Nodes) + EncodeCall(|old(Nodes)|, h, i)
    {
      hide EncodeExitIfStopped;
      Put(CallHandler(h, i));
      ExitIfStopped();
    }

    method Pc(value: Word)
      modifies this
      ensures Nodes == old(Nodes) + EncodePc(|old(Nodes)|, value)
    {
      var word := Add(ConstU32(value));
      Put(StorePc(word));
    }

    method AppendLi(rt: Reg, imm: Word)
      modifies this
      ensures Nodes == old(Nodes) + EncodeLi(|old(Nodes)|, rt, imm)
    {
      var word := Add(ConstU32(imm));
      Put(StoreReg(rt, word));
    }

    method AppendAdd(rd: Reg, rs: Reg, rt: Reg)
      modifies this
      ensures Nodes == old(Nodes) + EncodeAdd(|old(Nodes)|, rd, rs, rt)
    {
      var a := Add(LoadReg(rs));
      var b := Add(LoadReg(rt));
      var sum := Add(AddU32(a, b));
      Put(StoreReg(rd, sum));
    }

    method AppendAddi(rt: Reg, rs: Reg, imm: Word)
      modifies this
      ensures Nodes == old(Nodes) + EncodeAddi(|old(Nodes)|, rt, rs, imm)
    {
      var a := Add(LoadReg(rs));
      var b := Add(ConstU32(imm));
      var sum := Add(AddU32(a, b));
      Put(StoreReg(rt, sum));
    }

    method AppendOr(rd: Reg, rs: Reg, rt: Reg)
      modifies this
      ensures Nodes == old(Nodes) + EncodeOr(|old(Nodes)|, rd, rs, rt)
    {
      var a := Add(LoadReg(rs));
      var b := Add(LoadReg(rt));
      var or := Add(OrU32(a, b));
      Put(StoreReg(rd, or));
    }

    method AppendClz(rd: Reg, rs: Reg)
      modifies this
      ensures Nodes == old(Nodes) + EncodeClz(|old(Nodes)|, rd, rs)
    {
      var value := Add(LoadReg(rs));
      var zero := Add(ConstU32(0));
      var isZero := Add(Eq(value, zero));
      var adjustment := Add(ZextU32(isZero));
      var safe := Add(OrU32(value, adjustment));
      var count := Add(CtlzU32(safe));
      var result := Add(AddU32(count, adjustment));
      Put(StoreReg(rd, result));
    }

    method AppendSsat(i: Instr)
      requires i.Ssat?
      modifies this
      ensures Nodes == old(Nodes) + EncodeSsat(|old(Nodes)|, i)
    {
      hide EncodeCall, Pow2;
      if i.width == 0 || i.width >= 32 {
        Call(HandleSsat, i);
        return;
      }
      var maximum := Pow2(i.width - 1) - 1;
      var minimum := -maximum - 1;
      var value := Add(LoadReg(i.rs));
      var x := Add(BitcastI32(value));
      var low := Add(ConstI32(minimum));
      var bounded := Add(MaxI32(x, low));
      var high := Add(ConstI32(maximum));
      var saturated := Add(MinI32(bounded, high));
      var word := Add(BitcastU32(saturated));
      Put(StoreReg(i.rd, word));
    }

    method AppendRori(rd: Reg, rs: Reg, shift: Shift)
      modifies this
      ensures Nodes == old(Nodes) + EncodeRori(|old(Nodes)|, rd, rs, shift)
    {
      var a := Add(LoadReg(rs));
      var b := Add(ConstU32(shift));
      var rotated := Add(RorU32(a, b));
      Put(StoreReg(rd, rotated));
    }

    method AppendBext(rd: Reg, rs: Reg, rt: Reg)
      modifies this
      ensures Nodes == old(Nodes) + EncodeBext(|old(Nodes)|, rd, rs, rt)
    {
      var a := Add(LoadReg(rs));
      var b := Add(LoadReg(rt));
      var bits := Add(CallCompress(a, b));
      Put(StoreReg(rd, bits));
    }

    method AppendLdImm(rt: Reg, base: Reg, imm: Word)
      modifies this
      ensures Nodes == old(Nodes) + EncodeLdImm(|old(Nodes)|, rt, base, imm)
    {
      hide EncodeExitIfStopped;
      var a := Add(LoadReg(base));
      var b := Add(ConstU32(imm));
      var address := Add(AddU32(a, b));
      var value := Add(CallRead(address));
      ExitIfStopped();
      Put(StoreReg(rt, value));
    }

    method AppendLdReg(rt: Reg, base: Reg, rm: Reg)
      modifies this
      ensures Nodes == old(Nodes) + EncodeLdReg(|old(Nodes)|, rt, base, rm)
    {
      hide EncodeExitIfStopped;
      var a := Add(LoadReg(base));
      var b := Add(LoadReg(rm));
      var address := Add(AddU32(a, b));
      var value := Add(CallRead(address));
      ExitIfStopped();
      Put(StoreReg(rt, value));
    }

    method AppendSt(rt: Reg, base: Reg, imm: Word)
      modifies this
      ensures Nodes == old(Nodes) + EncodeSt(|old(Nodes)|, rt, base, imm)
    {
      hide EncodeExitIfStopped;
      var a := Add(LoadReg(base));
      var b := Add(ConstU32(imm));
      var address := Add(AddU32(a, b));
      var value := Add(LoadReg(rt));
      Put(CallWrite(address, value));
      ExitIfStopped();
    }

    method AppendStp(rt: Reg, rt2: Reg, base: Reg, imm: Word)
      modifies this
      ensures Nodes == old(Nodes) + EncodeStp(|old(Nodes)|, rt, rt2, base, imm)
    {
      hide EncodeExitIfStopped;
      var a := Add(LoadReg(base));
      var b := Add(ConstU32(imm));
      var first := Add(AddU32(a, b));
      var four := Add(ConstU32(4));
      var second := Add(AddU32(first, four));
      var value := Add(LoadReg(rt));
      var value2 := Add(LoadReg(rt2));
      Put(CallWrite(first, value));
      ExitIfStopped();
      Put(CallWrite(second, value2));
      ExitIfStopped();
    }

    method AppendCallAtPc(h: Handler, i: Instr, address: Word)
      modifies this
      ensures Nodes == old(Nodes) + EncodeCallAtPc(|old(Nodes)|, h, i, address)
    {
      hide EncodeCall;
      Pc(address);
      Call(h, i);
    }

    method AppendFlush(i: Instr, address: Word)
      modifies this
      ensures Nodes == old(Nodes) + EncodeFlush(|old(Nodes)|, i, address)
    {
      hide EncodeCall;
      CallHasNineNodes(|Nodes|, HandleFlush, i);
      Call(HandleFlush, i);
      Pc(Add32(address, 4));
    }

    lemma CallHasNineNodes(k: Ref, h: Handler, i: Instr)
      ensures |EncodeCall(k, h, i)| == 9
    {
    }

    method AppendInstruction(i: Instr, address: Word)
      modifies this
      ensures Nodes == old(Nodes) + EncodeInstruction(|old(Nodes)|, i, address)
    {
      hide EncodeLi, EncodeAdd, EncodeAddi, EncodeOr, EncodeLdReg, EncodeSt, EncodeStp, EncodeFlush, EncodePc,
        EncodeClz, EncodeSsat, EncodeRori, EncodeBext, EncodeCallAtPc, EncodeLdImm, JumpTarget;
      match i {
        case Li(rt, imm) => AppendLi(rt, imm);
        case Add(rd, rs, rt) => AppendAdd(rd, rs, rt);
        case Addi(rt, rs, imm) => AppendAddi(rt, rs, imm);
        case OrReg(rd, rs, rt) => AppendOr(rd, rs, rt);
        case LdReg(rt, base, rm) => AppendLdReg(rt, base, rm);
        case St(rt, base, imm) => AppendSt(rt, base, imm);
        case Stp(rt, rt2, base, imm) => AppendStp(rt, rt2, base, imm);
        case Flush => AppendFlush(i, address);
        case J(index) => Pc(JumpTarget(address, index));
        case Clz(rd, rs) => AppendClz(rd, rs);
        case Ssat(_, _, _) => AppendSsat(i);
        case Rori(rd, rs, shift) => AppendRori(rd, rs, shift);
        case Bext(rd, rs, rt) => AppendBext(rd, rs, rt);
        case Syscall(_) => AppendCallAtPc(HandleSyscall, i, address);
        case LdImm(rt, base, imm) => AppendLdImm(rt, base, imm);
        case _ => AppendCallAtPc(HandleInvalid, i, address);
      }
    }

    /** One arm of a branch: slot, PC, end. */
    method AppendArm(cache: TIBasicBlockCache, target: Word) returns (entry: Ref, end: Ref)
      modifies this, cache`JitEntries
      ensures entry == |old(Nodes)| && end == |old(Nodes)| + 3
      ensures Nodes == old(Nodes) + [LoadSlot(target), ConstU32(target), StorePc(|old(Nodes)| + 1), End]
      ensures cache.JitEntries == OpenSlots(old(cache.JitEntries), {target})
    {
      hide OpenSlots;
      cache.JitEntrySlot(target);
      entry := Add(LoadSlot(target));
      Pc(target);
      end := Add(End);
    }

    lemma OpenTwice(entries: map<Word, Handle>, a: Word, b: Word)
      ensures OpenSlots(OpenSlots(entries, {a}), {b}) == OpenSlots(entries, {a, b})
    {
    }

    /** A branch and its two arms; the slot of the taken arm is allocated first. */
    method AppendBranch(cache: TIBasicBlockCache, rs: Reg, rt: Reg, taken: Word, fall: Word) returns (entry: Ref)
      modifies this, cache`JitEntries
      ensures Nodes == old(Nodes) + EncodeBranch(|old(Nodes)|, rs, rt, taken, fall)
      ensures entry == |Nodes| - 1
      ensures cache.JitEntries == OpenSlots(old(cache.JitEntries), {taken, fall})
    {
      hide OpenSlots;
      OpenTwice(cache.JitEntries, taken, fall);
      var a := Add(LoadReg(rs));
      var b := Add(LoadReg(rt));
      var equal := Add(Eq(a, b));
      var condition := Add(If(equal));
      Put(IfTrue(condition));
      var takenEntry, takenEnd := AppendArm(cache, taken);
      Put(IfFalse(condition));
      var fallEntry, fallEnd := AppendArm(cache, fall);
      Put(Merge2(takenEnd, fallEnd));
      entry := Add(Phi2(takenEntry, fallEntry));
    }

    method AppendSlotLoad(cache: TIBasicBlockCache, address: Word) returns (entry: Ref)
      modifies this, cache`JitEntries
      ensures Nodes == old(Nodes) + [LoadSlot(address)] && entry == |old(Nodes)|
      ensures cache.JitEntries == OpenSlots(old(cache.JitEntries), {address})
    {
      cache.JitEntrySlot(address);
      entry := Add(LoadSlot(address));
    }

    method AppendNull(cache: TIBasicBlockCache) returns (entry: Ref)
      modifies this
      ensures Nodes == old(Nodes) + [ConstNull] && entry == |old(Nodes)|
      ensures cache.JitEntries == OpenSlots(cache.JitEntries, {})
    {
      entry := Add(ConstNull);
    }

    method AppendNextEntry(cache: TIBasicBlockCache, start: Word, instrs: seq<Instr>) returns (entry: Ref)
      modifies this, cache`JitEntries
      ensures Nodes == old(Nodes) + EncodeNextEntry(|old(Nodes)|, start, instrs)
      ensures entry == |Nodes| - 1
      ensures cache.JitEntries == OpenSlots(old(cache.JitEntries), SlotsOf(start, instrs))
    {
      hide EncodeBranch, OpenSlots, BranchTarget, JumpTarget;
      var end: int := AddressOf(start, |instrs|);
      if instrs == [] {
        entry := AppendSlotLoad(cache, end);
        return;
      }
      var address := Wrap(end - 4);
      match instrs[|instrs| - 1] {
        case Beq(rs, rt, offset) =>
          entry := AppendBranch(cache, rs, rt, BranchTarget(address, offset), Add32(address, 4));
        case J(index) => entry := AppendSlotLoad(cache, JumpTarget(address, index));
        case Invalid => entry := AppendNull(cache);
        case Syscall(_) => entry := AppendSlotLoad(cache, Add32(address, 4));
        case Flush => entry := AppendNull(cache);
        case _ => entry := AppendSlotLoad(cache, end);
      }
    }

    /** The loop over the instructions of the block. */
    method AppendBody(start: Word, instrs: seq<Instr>)
      modifies this
      ensures Nodes == old(Nodes) + EncodeBody(|old(Nodes)|, start, instrs, 0)
    {
      hide EncodeInstruction;
      var k := 0;
      while k < |instrs|
        invariant 0 <= k <= |instrs|
        invariant Nodes + EncodeBody(|Nodes|, start, instrs, k)
               == old(Nodes) + EncodeBody(|old(Nodes)|, start, instrs, 0)
      {
        ghost var before := Nodes;
        if !(k + 1 == |instrs| && instrs[k].Beq?) {
          AppendInstruction(instrs[k], AddressOf(start, k));
        }
        assert Nodes + EncodeBody(|Nodes|, start, instrs, k + 1) == before + EncodeBody(|before|, start, instrs, k);
        k := k + 1;
      }
    }

    method AppendTail(cache: TIBasicBlockCache, start: Word, instrs: seq<Instr>)
      modifies this, cache`JitEntries
      ensures Nodes == old(Nodes) + EncodeTail(|old(Nodes)|, start, instrs)
      ensures cache.JitEntries == OpenSlots(old(cache.JitEntries), SlotsOf(start, instrs))
    {
      hide EncodeNextEntry, OpenSlots, SlotsOf;
      if instrs == [] || !UpdatesPc(instrs[|instrs| - 1]) {
        Pc(AddressOf(start, |instrs|));
      }
      var entry := AppendNextEntry(cache, start, instrs);
      Put(Return(entry));
    }
  }

  /** The code of a block; its slots are allocated on the way. */
  method Translate(cache: TIBasicBlockCache, start: Word, instrs: seq<Instr>) returns (code: seq<Node>)
    modifies cache`JitEntries
    ensures code == Compile(start, instrs)
    ensures cache.JitEntries == OpenSlots(old(cache.JitEntries), SlotsOf(start, instrs))
  {
    hide EncodeBody, EncodeTail, OpenSlots, SlotsOf;
    var ctx := new IrContext();
    ctx.Put(Start);
    ctx.Put(Param);
    ctx.AppendBody(start, instrs);
    ctx.AppendTail(cache, start, instrs);
    code := ctx.Nodes;
  }

  /** Translate a block, map the code, publish its entry. */
  method CompileBlock(cache: TIBasicBlockCache, block: TIBasicBlock)
    requires cache.Valid() && block.StartAddress in cache.Blocks && cache.Blocks[block.StartAddress] == block
    modifies cache`JitEntries, cache`Native, cache`NextHandle, block`EntryPoint
    ensures cache.View() == CompileInto(old(cache.View()), block.StartAddress)
    ensures cache.Valid() && cache.Blocks == old(cache.Blocks)
  {
    hide Compile, CompileInto, OpenSlots, SlotsOf;
    ghost var before := cache.View();
    var code := Translate(cache, block.StartAddress, block.Instructions);
    var entry := cache.MapCode(code);
    cache.SetCompiled(block, entry);
    cache.SetJitEntry(block.StartAddress, entry);
    CompiledParts(before, block.StartAddress, cache.View());
  }
}
