/** Assembled control flow lands on its labels. */
module AssemblerProofs {
  import opened Words
  import opened Decoder
  import opened Encoder
  import opened EncoderProofs
  import opened Assembler
  import opened MachineState
  import opened Executor

  // ---- what the first pass keeps ----

  /** Instructions have consecutive PCs; every label lies inside its section. */
  predicate LayoutOk(s: State) {
    && s.textOffset == 4 * |s.instructions|
    && (forall k :: 0 <= k < |s.instructions| ==> s.instructions[k].pc == 4 * k)
    && (forall l :: l in s.labels ==>
          && s.labels[l].offset <= OffsetIn(s, s.labels[l].section)
          && (s.labels[l].section == Text ==> s.labels[l].offset % 4 == 0))
  }

  lemma ApplyLayout(s: State, item: Item)
    requires LayoutOk(s) && Apply(s, item).Good?
    ensures LayoutOk(Apply(s, item).value)
  {
  }

  lemma {:induction false} AssembleLayout(items: seq<Item>)
    requires Assemble(items).Good?
    ensures LayoutOk(Assemble(items).value)
    decreases |items|
  {
    hide LayoutOk, Apply;
    if items == [] {
      assert LayoutOk(INITIAL) by { InitialLayout(); }
    } else {
      AssembleLayout(items[..|items| - 1]);
      ApplyLayout(Assemble(items[..|items| - 1]).value, items[|items| - 1]);
    }
  }

  lemma InitialLayout()
    ensures LayoutOk(INITIAL)
  {
  }

  /** Labels are never redefined, instructions and data never removed. */
  lemma ApplyExtends(s: State, item: Item)
    requires Apply(s, item).Good?
    ensures var after := Apply(s, item).value;
      && (forall l :: l in s.labels ==> l in after.labels && after.labels[l] == s.labels[l])
      && s.instructions <= after.instructions && s.data <= after.data
  {
  }

  lemma {:induction false} AssembleExtends(items: seq<Item>, k: nat)
    requires k <= |items| && Assemble(items).Good?
    ensures Assemble(items[..k]).Good?
    ensures var (s, after) := (Assemble(items[..k]).value, Assemble(items).value);
      && (forall l :: l in s.labels ==> l in after.labels && after.labels[l] == s.labels[l])
      && s.instructions <= after.instructions && s.data <= after.data
    decreases |items|
  {
    hide Apply;
    if k == |items| {
      assert items[..k] == items;
    } else {
      var front := items[..|items| - 1];
      assert front[..k] == items[..k];
      AssembleExtends(front, k);
      ApplyExtends(Assemble(front).value, items[|items| - 1]);
    }
  }

  /** How many instructions the items emit. */
  function Emitted(items: seq<Item>): nat {
    if items == [] then 0
    else Emitted(items[..|items| - 1]) + if items[|items| - 1].Emit? then 1 else 0
  }

  lemma {:induction false} AssembleCounts(items: seq<Item>)
    requires Assemble(items).Good?
    ensures |Assemble(items).value.instructions| == Emitted(items)
    decreases |items|
  {
    if items != [] {
      AssembleCounts(items[..|items| - 1]);
    }
  }

  /** A text label marks the instruction that follows it: its offset counts those before it. */
  lemma LabelPosition(items: seq<Item>, j: nat, s: State)
    requires Assemble(items) == Good(s) && j < |items| && items[j].DefineLabel?
    ensures items[j].symbol in s.labels
    ensures var info := s.labels[items[j].symbol];
      info.section == Text ==> info.offset == 4 * Emitted(items[..j])
  {
    hide LayoutOk, Emitted;
    AssembleExtends(items, j);
    AssembleExtends(items, j + 1);
    assert items[..j + 1][..j] == items[..j];
    var before := Assemble(items[..j]).value;
    assert Assemble(items[..j + 1]) == Apply(before, items[j]);
    AssembleLayout(items[..j]);
    AssembleCounts(items[..j]);
    TextOffsetIs(before);
  }

  lemma TextOffsetIs(s: State)
    requires LayoutOk(s)
    ensures s.textOffset == 4 * |s.instructions|
  {
  }

  lemma {:induction false} EncodeAllAt(labels: Labels, instructions: seq<AsmInstr>, k: nat)
    requires EncodeAll(labels, instructions).Good? && k < |instructions|
    ensures var words := EncodeAll(labels, instructions).value;
      |words| == |instructions| && Encode(labels, instructions[k]) == Good(words[k])
    decreases |instructions|
  {
    hide Encode;
    var front := instructions[..|instructions| - 1];
    if k < |front| {
      EncodeAllAt(labels, front, k);
    } else if front != [] {
      EncodeAllAt(labels, front, 0);
    }
  }

  // ---- where branches and jumps go ----

  lemma WrapSum(a: int, b: int)
    ensures Wrap(Wrap(a) + b) == Wrap(a + b) && Wrap(a + Wrap(b)) == Wrap(a + b)
  {
  }

  lemma WrapTimesFour(a: int)
    ensures Wrap(Wrap(a) * 4) == Wrap(a * 4)
  {
    var q, x := a / 0x1_0000_0000, Wrap(a) * 4;
    DivModUnique(a * 4, 0x1_0000_0000, 4 * q + x / 0x1_0000_0000, x % 0x1_0000_0000);
  }

  /** A branch over a distance of whole instructions, forward or backward. */
  lemma BranchLands(pc: nat, target: nat)
    requires (target - pc) % 4 == 0
    ensures BranchTarget(Wrap(pc), Wrap((target - pc) / 4)) == Wrap(target)
  {
    var d := (target - pc) / 4;
    WrapTimesFour(d);
    WrapSum(pc, Wrap(d * 4));
    WrapSum(pc, d * 4);
  }

  /** A jump keeps the top four bits of its own PC. */
  lemma JumpLands(pc: Word, index: Word)
    requires index < 0x400_0000
    ensures JumpTarget(pc, index) == pc / 0x1000_0000 * 0x1000_0000 + 4 * index
  {
    hide And, Or, Low, Shl, Shr;
    Pow2Values();
    MaskField(pc, 28, 4);
    ShlIsProduct(15, 28);
    ShiftIsDivision(pc, 28);
    LowOfSmall(Shr(pc, 28), 4);
    ShlIsProduct(Shr(pc, 28), 28);
    OrDisjoint(Shr(pc, 28), 4 * index, 28);
  }

  /** The machine with its PC at an instruction of the text section. */
  function AtInstruction(m: Machine, ins: AsmInstr): Machine {
    m.(pc := Wrap(ins.pc))
  }

  /** A taken BEQ to a label sets the PC to the label's offset, whatever the PC of the branch. */
  lemma BeqReachesLabel(labels: Labels, ins: AsmInstr, m: Machine)
    requires ins.name.MBeq? && Encode(labels, ins).Good? && IsText(labels, ins.operands[2])
    requires 0 <= ins.operands[0].index < 32 && 0 <= ins.operands[1].index < 32
    requires m.regs[ins.operands[0].index] == m.regs[ins.operands[1].index]
    ensures Encode(labels, ins).value < 0x1_0000_0000
    ensures Exec(AtInstruction(m, ins), Decode(Encode(labels, ins).value))
         == Ok(m.(pc := Wrap(labels[ins.operands[2].name].offset)))
  {
    hide Decode, Encode, FitsSigned, BranchTarget;
    EncodeThenDecode(labels, ins);
    BranchLands(ins.pc, labels[ins.operands[2].name].offset);
  }

  /** A J to a label reaches it exactly when its own PC lies in the first 2^28 bytes. */
  lemma JReachesLabel(labels: Labels, ins: AsmInstr, m: Machine)
    requires ins.name.MJ? && Encode(labels, ins).Good?
    ensures Encode(labels, ins).value < 0x1_0000_0000
    ensures IsText(labels, ins.operands[0])
    ensures Exec(AtInstruction(m, ins), Decode(Encode(labels, ins).value))
         == Ok(m.(pc := Wrap(labels[ins.operands[0].name].offset)))
       <==> Wrap(ins.pc) < 0x1000_0000
  {
    hide Decode, Encode, JumpTarget;
    EncodeThenDecode(labels, ins);
    Pow2Values();
    JumpLands(Wrap(ins.pc), Decode(Encode(labels, ins).value).index);
  }

  /** Program text: the items assemble to `s`, whose instructions encode to `words`. */
  predicate Assembled(items: seq<Item>, s: State, words: seq<nat>) {
    Assemble(items) == Good(s) && EncodeAll(s.labels, s.instructions) == Good(words)
  }

  lemma InstructionAt(items: seq<Item>, s: State, words: seq<nat>, k: nat)
    requires Assembled(items, s, words) && k < |s.instructions|
    ensures k < |words| && Encode(s.labels, s.instructions[k]) == Good(words[k])
    ensures s.instructions[k].pc == 4 * k
  {
    AssembleLayout(items);
    EncodeAllAt(s.labels, s.instructions, k);
  }

  /**
    In every program that assembles and encodes, a taken branch number `k` to the text
    label that item `j` defines continues at the instruction after the label.
  */
  lemma ProgramBranchLands(items: seq<Item>, s: State, words: seq<nat>, j: nat, k: nat, rs: Reg, rt: Reg, m: Machine)
    requires Assembled(items, s, words) && j < |items| && items[j].DefineLabel? && k < |s.instructions|
    requires s.instructions[k].name.MBeq?
    requires s.instructions[k].operands == [Register(rs), Register(rt), Symbol(items[j].symbol)]
    requires m.regs[rs] == m.regs[rt]
    ensures k < |words| && words[k] < 0x1_0000_0000
    ensures Exec(m.(pc := Wrap(4 * k)), Decode(words[k])) == Ok(m.(pc := Wrap(4 * Emitted(items[..j]))))
  {
    hide Decode, Exec, Assembled, LayoutOk, Emitted, FitsSigned;
    InstructionAt(items, s, words, k);
    AssembledParts(items, s, words);
    LabelPosition(items, j, s);
    BeqReachesLabel(s.labels, s.instructions[k], m);
  }

  lemma AssembledParts(items: seq<Item>, s: State, words: seq<nat>)
    requires Assembled(items, s, words)
    ensures Assemble(items) == Good(s)
  {
  }

  /** The same for J, exactly when the jump itself lies in the first 2^28 bytes. */
  lemma ProgramJumpLands(items: seq<Item>, s: State, words: seq<nat>, j: nat, k: nat, m: Machine)
    requires Assembled(items, s, words) && j < |items| && items[j].DefineLabel? && k < |s.instructions|
    requires s.instructions[k].name.MJ? && s.instructions[k].operands == [Symbol(items[j].symbol)]
    ensures k < |words| && words[k] < 0x1_0000_0000
    ensures Exec(m.(pc := Wrap(4 * k)), Decode(words[k])) == Ok(m.(pc := Wrap(4 * Emitted(items[..j]))))
       <==> Wrap(4 * k) < 0x1000_0000
  {
    hide Decode, Exec, Assembled, LayoutOk, Emitted;
    InstructionAt(items, s, words, k);
    AssembledParts(items, s, words);
    LabelPosition(items, j, s);
    JReachesLabel(s.labels, s.instructions[k], m);
  }
}
