/** Encoding and decoding are inverse to each other. */
module EncoderProofs {
  import opened Words
  import opened BitUtils
  import opened Instructions
  import opened Decoder
  import opened Encoder

  // ---- what an assembler instruction means ----

  predicate IsSigned(o: Operand, width: nat, imm: Word)
    requires width > 0
  {
    o.Number? && FitsSigned(o.value, width) && imm == Wrap(o.value)
  }

  predicate IsUnsigned(o: Operand, width: nat, minimum: nat, imm: nat) {
    o == Number(imm) && minimum <= imm < Pow2(width)
  }

  predicate IsAddress(o: Operand, base: Reg, width: nat, imm: Word)
    requires width > 0
  {
    o.Address? && |o.items| == 2 && o.items[0] == Register(base) && IsSigned(o.items[1], width, imm)
  }

  predicate IsText(labels: Labels, o: Operand) {
    o.Symbol? && o.name in labels && labels[o.name].section == Text
  }

  predicate IsBranchTarget(labels: Labels, o: Operand, pc: nat, offset: Word) {
    if IsText(labels, o) then
      var distance := labels[o.name].offset - pc;
      distance % 4 == 0 && FitsSigned(distance / 4, 16) && offset == Wrap(distance / 4)
    else IsSigned(o, 16, offset)
  }

  /** The assembler instruction denotes `i`: operand order, ranges, two's complement values. */
  predicate Means(labels: Labels, ins: AsmInstr, i: Instr) {
    var ops := ins.operands;
    match ins.name
    case MAdd => i.Add? && ops == [Register(i.rd), Register(i.rs), Register(i.rt)]
    case MOr => i.OrReg? && ops == [Register(i.rd), Register(i.rs), Register(i.rt)]
    case MBext => i.Bext? && ops == [Register(i.rd), Register(i.rs), Register(i.rt)]
    case MClz => i.Clz? && ops == [Register(i.rd), Register(i.rs)]
    case MAddi =>
      i.Addi? && |ops| == 3 && ops[..2] == [Register(i.rt), Register(i.rs)] && IsSigned(ops[2], 16, i.imm)
    case MLi => i.Li? && |ops| == 2 && ops[0] == Register(i.rt) && IsSigned(ops[1], 16, i.imm)
    case MSsat =>
      i.Ssat? && |ops| == 3 && ops[..2] == [Register(i.rd), Register(i.rs)] && IsUnsigned(ops[2], 5, 1, i.width)
    case MRori =>
      i.Rori? && |ops| == 3 && ops[..2] == [Register(i.rd), Register(i.rs)] && IsUnsigned(ops[2], 5, 0, i.shift)
    case MSt => i.St? && |ops| == 2 && ops[0] == Register(i.rt) && IsAddress(ops[1], i.base, 14, i.imm)
    case MLd =>
      |ops| == 2 &&
      if i.LdReg? then ops == [Register(i.rt), Address([Register(i.base), Register(i.rm)])]
      else i.LdImm? && ops[0] == Register(i.rt) && IsAddress(ops[1], i.base, 14, i.imm)
    case MStp =>
      i.Stp? && |ops| == 3 && ops[..2] == [Register(i.rt), Register(i.rt2)] && IsAddress(ops[2], i.base, 11, i.imm)
    case MBeq =>
      i.Beq? && |ops| == 3 && ops[..2] == [Register(i.rs), Register(i.rt)]
      && IsBranchTarget(labels, ops[2], ins.pc, i.offset)
    case MJ =>
      i.J? && |ops| == 1 && IsText(labels, ops[0]) && i.index < Pow2(26) && labels[ops[0].name].offset == 4 * i.index
    case MSyscall => i == Instr.Syscall(0) && ops == []
    case MFlush => i.Flush? && ops == []
  }

  // ---- packed fields ----

  /** `|` adds a field below a multiple of a power of two. */
  lemma OrSum(x: nat, lo: nat, k: nat)
    requires x % Pow2(k) == 0 && lo < Pow2(k)
    ensures Or(x, lo) == x + lo
  {
    hide Or, Low, Shr, Shl;
    ShiftIsDivision(x, k);
    HighLow(x, k);
    OrDisjoint(Shr(x, k), lo, k);
  }

  lemma PackSum(op: nat, a: Reg, b: Reg, low: nat)
    requires op < 64 && low < 0x1_0000
    ensures Pack(op, a, b, low) == op * 0x400_0000 + a * 0x20_0000 + b * 0x1_0000 + low
  {
    hide Or, Shl, Pow2;
    Pow2Values();
    ShlIsProduct(op, 26);
    ShlIsProduct(a, 21);
    ShlIsProduct(b, 16);
    OrSum(op * 0x400_0000, a * 0x20_0000, 26);
    OrSum(op * 0x400_0000 + a * 0x20_0000, b * 0x1_0000, 21);
    OrSum(op * 0x400_0000 + a * 0x20_0000 + b * 0x1_0000, low, 16);
  }

  /** The fields of a packed word are what was packed. */
  lemma PackFields(op: nat, a: Reg, b: Reg, low: nat)
    requires op < 64 && low < 0x1_0000
    ensures var w := Pack(op, a, b, low);
      && w < 0x1_0000_0000 && w / 0x400_0000 == op && w % 0x1_0000 == low
      && Field5(w, 21) == a && Field5(w, 16) == b
  {
    hide Or, Shl, Pow2, ExtractBits, Pack;
    PackSum(op, a, b, low);
    var w := Pack(op, a, b, low);
    ExtractBitsMeaning(w, 21, 5);
    ExtractBitsMeaning(w, 16, 5);
    Pow2Values();
    PackQuotients(op, a, b, low);
  }

  lemma PackQuotients(op: nat, a: nat, b: nat, low: nat)
    requires op < 64 && a < 32 && b < 32 && low < 0x1_0000
    ensures var w := op * 0x400_0000 + a * 0x20_0000 + b * 0x1_0000 + low;
      w / 0x400_0000 == op && w / 0x20_0000 % 32 == a && w / 0x1_0000 % 32 == b && w % 0x1_0000 == low
  {
    var w := op * 0x400_0000 + a * 0x20_0000 + b * 0x1_0000 + low;
    DivModUnique(w, 0x400_0000, op, a * 0x20_0000 + b * 0x1_0000 + low);
    DivModUnique(w, 0x20_0000, op * 32 + a, b * 0x1_0000 + low);
    DivModUnique(op * 32 + a, 32, op, a);
    DivModUnique(w, 0x1_0000, op * 1024 + a * 32 + b, low);
    DivModUnique(op * 1024 + a * 32 + b, 32, op * 32 + a, b);
  }

  /** A field at the bottom of a word. */
  lemma BottomField(w: Word, width: nat)
    requires width <= 32
    ensures ExtractBits(w, 0, width) == w % Pow2(width)
  {
    hide ExtractBits;
    ExtractBitsMeaning(w, 0, width);
    DivideByOne(w);
  }

  lemma DivideByOne(w: Word)
    ensures w / Pow2(0) == w
  {
  }

  lemma RegisterFields(w: Word)
    ensures Field5(w, 11) == w % 0x1_0000 / 0x800
    ensures Field5(w, 0) == w % 32
  {
    hide ExtractBits, Pow2;
    ExtractBitsMeaning(w, 11, 5);
    BottomField(w, 5);
    Pow2Values();
    SplitHalf(w);
  }

  lemma SplitHalf(w: Word)
    ensures w / 0x800 % 32 == w % 0x1_0000 / 0x800
  {
    var q, r := w / 0x1_0000, w % 0x1_0000;
    DivModUnique(w, 0x800, q * 32 + r / 0x800, r % 0x800);
    DivModUnique(q * 32 + r / 0x800, 32, q, r / 0x800);
  }

  /** A truncated immediate in the low bits of a word is read back with its sign. */
  lemma SignedFieldIs(w: Word, o: Operand, width: nat)
    requires 0 < width < 32 && SignedImmediate(o, width).Good?
    requires ExtractBits(w, 0, width) == SignedImmediate(o, width).value
    ensures IsSigned(o, width, SignedField(w, width))
  {
    hide SignExtend, ExtractBits;
    SignExtendTruncated(o.value, width);
  }

  lemma SignedBound(o: Operand, width: nat)
    requires 0 < width && SignedImmediate(o, width).Good?
    ensures SignedImmediate(o, width).value < Pow2(width)
  {
    TruncatedField(o.value, Pow2(width));
  }

  // ---- one lemma per layout ----

  /** If the encoder accepts, the word decodes to what the instruction means. */
  predicate RoundTrips(labels: Labels, ins: AsmInstr) {
    Encode(labels, ins).Good? ==>
      Encode(labels, ins).value < 0x1_0000_0000 && Means(labels, ins, Decode(Encode(labels, ins).value))
  }

  /** Two registers and a signed immediate in the low bits. */
  lemma SignedLayout(op: nat, a: Reg, b: Reg, o: Operand, width: nat) returns (w: Word)
    requires op < 64 && 0 < width <= 16 && SignedImmediate(o, width).Good?
    ensures w == Pack(op, a, b, SignedImmediate(o, width).value)
    ensures w / 0x400_0000 == op && Field5(w, 21) == a && Field5(w, 16) == b
    ensures IsSigned(o, width, SignedField(w, width))
    ensures w % 0x1_0000 == SignedImmediate(o, width).value < Pow2(width)
  {
    hide Pack, Field5, SignedField, SignedImmediate, Pow2, ExtractBits;
    var low := SignedImmediate(o, width).value;
    SignedBound(o, width);
    Pow2Mono(width, 16);
    Pow2Values();
    PackFields(op, a, b, low);
    w := Pack(op, a, b, low);
    BottomField(w, width);
    LowRemainder(w, low, width);
    SignedFieldIs(w, o, width);
  }

  lemma LowRemainder(w: Word, low: nat, width: nat)
    requires width <= 16 && w % 0x1_0000 == low < Pow2(width)
    ensures w % Pow2(width) == low
  {
    hide Pow2;
    var p, q, r := Pow2(width), Pow2(16 - width), w / 0x1_0000;
    Pow2Add(16 - width, width);
    Pow2Values();
    assert w == r * (q * p) + low;
    assert r * (q * p) == (r * q) * p;
    DivModUnique(w, p, r * q, low);
  }

  /** The two bits above a fourteen-bit field. */
  lemma MinorAbove14(w: Word)
    requires w % 0x1_0000 < 0x4000
    ensures w / 0x4000 % 4 == 0
  {
    var q := w / 0x1_0000;
    DivModUnique(w, 0x4000, 4 * q, w % 0x1_0000);
    DivModUnique(4 * q, 4, q, 0);
  }

  lemma StRound(labels: Labels, ins: AsmInstr)
    requires ins.name.MSt?
    ensures RoundTrips(labels, ins)
  {
    hide Decode, Pack, Field5, SignedField, SignedImmediate, Pow2;
    var ops := ins.operands;
    if EncodeSt(ops).Good? {
      Pow2Values();
      var w := SignedLayout(0x20, ops[1].items[0].index, ops[0].index, ops[1].items[1], 14);
      MinorAbove14(w);
      DecodeFixed(w, ST);
    }
  }

  lemma LdImmRound(labels: Labels, ins: AsmInstr)
    requires ins.name.MLd? && |ins.operands| == 2
    requires ins.operands[1].Address? && |ins.operands[1].items| == 2 && ins.operands[1].items[1].Number?
    ensures RoundTrips(labels, ins)
  {
    hide Decode, Pack, Field5, SignedField, SignedImmediate, Pow2;
    var ops := ins.operands;
    if EncodeLd(ops).Good? {
      Pow2Values();
      var w := SignedLayout(0x33, ops[1].items[0].index, ops[0].index, ops[1].items[1], 14);
      MinorAbove14(w);
      DecodeFixed(w, LDIMM);
    }
  }

  lemma AddiRound(labels: Labels, ins: AsmInstr)
    requires ins.name.MAddi?
    ensures RoundTrips(labels, ins)
  {
    hide Decode, Pack, Field5, SignedField, SignedImmediate, Pow2;
    var ops := ins.operands;
    if EncodeAddi(ops).Good? {
      Pow2Values();
      ModOne();
      var w := SignedLayout(0x17, ops[1].index, ops[0].index, ops[2], 16);
      DecodeFixed(w, ADDI);
    }
  }

  /** An empty minor field is always right. */
  lemma ModOne()
    ensures forall x: int :: x % 1 == 0
  {
  }

  /** A branch offset is a signed immediate, given as a number or computed from a label. */
  function BranchImmediate(labels: Labels, ins: AsmInstr): Operand
    requires |ins.operands| == 3
  {
    var o := ins.operands[2];
    if IsText(labels, o) then Number((labels[o.name].offset - ins.pc) / 4) else o
  }

  lemma BeqRound(labels: Labels, ins: AsmInstr)
    requires ins.name.MBeq?
    ensures RoundTrips(labels, ins)
  {
    hide Decode, Pack, Field5, SignedField, Pow2;
    var ops := ins.operands;
    if EncodeBeq(labels, ops, ins.pc).Good? {
      Pow2Values();
      ModOne();
      var w := SignedLayout(0x10, ops[0].index, ops[1].index, BranchImmediate(labels, ins), 16);
      DecodeFixed(w, BEQ);
    }
  }

  lemma LiLayout(rt: Reg, low: nat)
    requires low < 0x1_0000
    ensures Or(Or(Shl(0x0B, 26), Shl(rt, 16)), low) == Pack(0x0B, 0, rt, low)
  {
    hide Or, Shl, Pow2;
    Pow2Values();
    ShlIsProduct(0x0B, 26);
    ShlIsProduct(0, 21);
    OrSum(0x0B * 0x400_0000, 0, 26);
  }

  lemma LiRound(labels: Labels, ins: AsmInstr)
    requires ins.name.MLi?
    ensures RoundTrips(labels, ins)
  {
    hide Decode, Pack, Field5, SignedField, SignedImmediate, Pow2, Or, Shl;
    var ops := ins.operands;
    if EncodeLi(ops).Good? {
      Pow2Values();
      var w := SignedLayout(0x0B, 0, ops[0].index, ops[1], 16);
      LiLayout(ops[0].index, SignedImmediate(ops[1], 16).value);
      TopRegisterField(w, 0x0B);
      DecodeFixed(w, LI);
    }
  }

  /** The register field at bit 21, as a quotient. */
  lemma TopRegisterField(w: Word, op: nat)
    requires w / 0x400_0000 == op
    ensures Field5(w, 21) == w / 0x20_0000 % 32
  {
    hide ExtractBits, Pow2;
    ExtractBitsMeaning(w, 21, 5);
    Pow2Values();
  }

  // ---- layouts with a third register field ----

  lemma ThirdField(op: nat, a: Reg, b: Reg, c: nat, low: nat)
    requires op < 64 && c < 32 && low < 0x800
    ensures Or(Pack(op, a, b, Shl(c, 11)), low) == Pack(op, a, b, c * 0x800 + low)
    ensures Pack(op, a, b, Shl(c, 11)) == Pack(op, a, b, c * 0x800)
  {
    hide Or, Shl, Pow2, Pack;
    Pow2Values();
    ShlIsProduct(c, 11);
    PackSum(op, a, b, c * 0x800);
    PackSum(op, a, b, c * 0x800 + low);
    MultipleOf2048(op, a, b, c);
    OrSum(Pack(op, a, b, c * 0x800), low, 11);
  }

  lemma MultipleOf2048(op: nat, a: nat, b: nat, c: nat)
    ensures (op * 0x400_0000 + a * 0x20_0000 + b * 0x1_0000 + c * 0x800) % 0x800 == 0
  {
  }

  lemma PackZeroIs(a: Reg, b: Reg, c: Reg, low: nat)
    requires low < 0x800
    ensures PackZero(a, b, c, low) == Pack(0, a, b, c * 0x800 + low)
  {
    hide Or;
    assert Or(0, Shl(a, 21)) == Shl(a, 21) by { OrZero(Shl(a, 21)); }
    assert Shl(0, 26) == 0 by { ShlIsProduct(0, 26); }
    hide Shl;
    ThirdField(0, a, b, c, low);
  }

  lemma OrZero(x: nat)
    ensures Or(0, x) == x
  {
  }

  lemma ThreeFields(op: nat, a: Reg, b: Reg, c: nat, low: nat) returns (w: Word)
    requires op < 64 && c < 32 && low < 0x800
    ensures w == Pack(op, a, b, c * 0x800 + low)
    ensures w / 0x400_0000 == op && Field5(w, 21) == a && Field5(w, 16) == b && Field5(w, 11) == c
    ensures w % 0x1_0000 == c * 0x800 + low && w % 0x800 == low
  {
    hide Pack, Field5;
    PackFields(op, a, b, c * 0x800 + low);
    w := Pack(op, a, b, c * 0x800 + low);
    RegisterFields(w);
    LowEleven(w, c, low);
  }

  lemma LowEleven(w: Word, c: nat, low: nat)
    requires w % 0x1_0000 == c * 0x800 + low && low < 0x800
    ensures w % 0x800 == low && w % 0x1_0000 / 0x800 == c
  {
  }

  lemma ThreeRound(labels: Labels, ins: AsmInstr)
    requires ins.name.MOr? || ins.name.MAdd? || ins.name.MBext?
    ensures RoundTrips(labels, ins)
  {
    hide Decode, Pack, PackZero, Field5, Pow2;
    var ops := ins.operands;
    if Encode(labels, ins).Good? {
      Pow2Values();
      var low := if ins.name.MOr? then 0x1A else if ins.name.MAdd? then 0x0C else 0x34;
      var a, b, c := ops[1].index, ops[2].index, ops[0].index;
      if ins.name.MBext? {
        a, b, c := c, a, b;
      }
      PackZeroIs(a, b, c, low);
      var w := ThreeFields(0, a, b, c, low);
      DivideByOne(w);
      DecodeFixed(w, if ins.name.MOr? then OR else if ins.name.MAdd? then ADD else BEXT);
    }
  }

  lemma ClzRound(labels: Labels, ins: AsmInstr)
    requires ins.name.MClz?
    ensures RoundTrips(labels, ins)
  {
    hide Decode, Pow2, Field5, Or, Shl;
    var ops := ins.operands;
    if EncodeClz(ops).Good? {
      Pow2Values();
      var rd, rs := ops[0].index, ops[1].index;
      ShlIsProduct(0, 26);
      OrZero(Shl(rd, 21));
      assert Or(Or(Shl(rd, 21), Shl(rs, 16)), 0x32) == Pack(0, rd, rs, 0x32);
      PackFields(0, rd, rs, 0x32);
      var w := Pack(0, rd, rs, 0x32);
      DivideByOne(w);
      DecodeFixed(w, CLZ);
    }
  }

  lemma ShiftRound(labels: Labels, ins: AsmInstr)
    requires ins.name.MSsat? || ins.name.MRori?
    ensures RoundTrips(labels, ins)
  {
    hide Decode, Pack, Field5, Pow2, Shl;
    var ops := ins.operands;
    if Encode(labels, ins).Good? {
      Pow2Values();
      var op := if ins.name.MSsat? then 0x08 else 0x1D;
      ThirdField(op, ops[0].index, ops[1].index, ops[2].value, 0);
      var w := ThreeFields(op, ops[0].index, ops[1].index, ops[2].value, 0);
      DivideByOne(w);
      DecodeFixed(w, if ins.name.MSsat? then SSAT else RORI);
    }
  }

  lemma StpRound(labels: Labels, ins: AsmInstr)
    requires ins.name.MStp?
    ensures RoundTrips(labels, ins)
  {
    hide Decode, Pack, Field5, SignedField, SignedImmediate, Pow2, Shl, Or, ExtractBits;
    var ops := ins.operands;
    if EncodeStp(ops).Good? {
      Pow2Values();
      ModOne();
      var base, o := ops[2].items[0].index, ops[2].items[1];
      var low := SignedImmediate(o, 11).value;
      SignedBound(o, 11);
      ThirdField(0x15, base, ops[0].index, ops[1].index, low);
      var w := ThreeFields(0x15, base, ops[0].index, ops[1].index, low);
      BottomField(w, 11);
      SignedFieldIs(w, o, 11);
      DecodeFixed(w, STP);
    }
  }

  lemma LdRegLayout(base: Reg, rt: Reg, rm: Reg)
    ensures Or(Pack(0x03, base, rt, Shl(0x03, 14)), rm) == Pack(0x03, base, rt, 0xC000 + rm)
  {
    hide Or, Shl, Pow2, Pack;
    Pow2Values();
    ShlIsProduct(0x03, 14);
    PackSum(0x03, base, rt, 0xC000);
    PackSum(0x03, base, rt, 0xC000 + rm);
    OrSum(Pack(0x03, base, rt, 0xC000), rm, 5);
  }

  lemma LdRegRound(labels: Labels, ins: AsmInstr)
    requires ins.name.MLd? && |ins.operands| == 2
    requires ins.operands[1].Address? && |ins.operands[1].items| == 2 && ins.operands[1].items[1].Register?
    ensures RoundTrips(labels, ins)
  {
    hide Decode, Pack, Field5, Pow2, Shl, Or;
    var ops := ins.operands;
    if EncodeLd(ops).Good? {
      Pow2Values();
      var rt, base, rm := ops[0].index, ops[1].items[0].index, ops[1].items[1].index;
      LdRegLayout(base, rt, rm);
      PackFields(0x03, base, rt, 0xC000 + rm);
      var w := Pack(0x03, base, rt, 0xC000 + rm);
      RegisterFields(w);
      LdRegLow(w, rm);
      DecodeFixed(w, LDREG);
      assert ops[1] == Address([Register(base), Register(rm)]);
    }
  }

  lemma LdRegLow(w: Word, rm: Reg)
    requires w % 0x1_0000 == 0xC000 + rm
    ensures w / 0x20 % 0x800 == 0x600 && w % 32 == rm
  {
  }

  lemma SyscallCode(w: Word)
    requires w == 0x1E
    ensures ExtractBits(w, 6, 20) == 0 && w / Pow2(0) == 0x1E
  {
    hide Pow2, ExtractBits, Low, Shr;
    Pow2Values();
    ExtractBitsMeaning(w, 6, 20);
  }

  lemma SyscallDecodes(w: Word)
    requires w == 0x1E
    ensures Decode(w) == Instr.Syscall(0)
  {
    hide Decode, Pow2, ExtractBits;
    Pow2Values();
    SyscallCode(w);
    DecodeFixed(w, SYSCALL);
  }

  lemma SyscallRound(labels: Labels, ins: AsmInstr)
    requires ins.name.MSyscall?
    ensures RoundTrips(labels, ins)
  {
    hide Decode;
    SyscallDecodes(0x1E);
  }

  lemma FlushRound(labels: Labels, ins: AsmInstr)
    requires ins.name.MFlush?
    ensures RoundTrips(labels, ins)
  {
    hide Decode, Pow2, Shl;
    Pow2Values();
    ModOne();
    ShlIsProduct(0x26, 26);
    DecodeFixed(0x9800_0000, FLUSH);
  }

  lemma JRound(labels: Labels, ins: AsmInstr)
    requires ins.name.MJ?
    ensures RoundTrips(labels, ins)
  {
    hide Decode, Pow2, Shl, Or, ExtractBits;
    var ops := ins.operands;
    if EncodeJ(labels, ops).Good? {
      Pow2Values();
      ModOne();
      var index := labels[ops[0].name].offset / 4;
      ShiftIsDivision(labels[ops[0].name].offset, 2);
      ShlIsProduct(0x3F, 26);
      OrSum(0x3F * 0x400_0000, index, 26);
      var w: Word := 0x3F * 0x400_0000 + index;
      BottomField(w, 26);
      DecodeFixed(w, Opcode.J);
    }
  }

  /**
    Encode then decode is the identity: every accepted instruction decodes to the same
    operation with the same operands in the same order and the same two's complement values.
  */
  lemma EncodeThenDecode(labels: Labels, ins: AsmInstr)
    ensures RoundTrips(labels, ins)
  {
    hide RoundTrips;
    match ins.name
    case MSt => StRound(labels, ins);
    case MAddi => AddiRound(labels, ins);
    case MLd => LdRound(labels, ins);
    case MJ => JRound(labels, ins);
    case MBeq => BeqRound(labels, ins);
    case MClz => ClzRound(labels, ins);
    case MSsat => ShiftRound(labels, ins);
    case MRori => ShiftRound(labels, ins);
    case MSyscall => SyscallRound(labels, ins);
    case MFlush => FlushRound(labels, ins);
    case MLi => LiRound(labels, ins);
    case MStp => StpRound(labels, ins);
    case _ => ThreeRound(labels, ins);
  }

  lemma LdRound(labels: Labels, ins: AsmInstr)
    requires ins.name.MLd?
    ensures RoundTrips(labels, ins)
  {
    var ops := ins.operands;
    if |ops| == 2 && ops[1].Address? && |ops[1].items| == 2 {
      if ops[1].items[1].Number? {
        LdImmRound(labels, ins);
      } else if ops[1].items[1].Register? {
        LdRegRound(labels, ins);
      }
    }
  }

  /** The encoder accepts every instruction that means something. */
  lemma MeaningIsAccepted(labels: Labels, ins: AsmInstr, i: Instr)
    requires Means(labels, ins, i)
    ensures Encode(labels, ins).Good?
  {
    hide Pow2, Or, Shl, Pack, PackZero;
    Pow2Values();
    if ins.name.MJ? {
      ShiftIsDivision(labels[ins.operands[0].name].offset, 2);
    }
  }

  /** An instruction means at most one thing. */
  lemma MeaningIsUnique(labels: Labels, ins: AsmInstr, i: Instr, j: Instr)
    requires Means(labels, ins, i) && Means(labels, ins, j)
    ensures i == j
  {
    hide FitsSigned, Pow2;
  }

  /** Acceptance and decoding together: the encoder accepts `ins` as a word for `i` exactly if `ins` means `i`. */
  lemma EncoderIsExact(labels: Labels, ins: AsmInstr, i: Instr)
    ensures Means(labels, ins, i)
       <==> Encode(labels, ins).Good? && Encode(labels, ins).value < 0x1_0000_0000
            && Decode(Encode(labels, ins).value) == i
  {
    hide Encode, Decode, Means;
    EncodeThenDecode(labels, ins);
    if Means(labels, ins, i) {
      MeaningIsAccepted(labels, ins, i);
      MeaningIsUnique(labels, ins, i, Decode(Encode(labels, ins).value));
    }
  }
}
