/** Which words the assembler can reproduce from their decoding. */
module Reencode {
  import opened Words
  import opened BitUtils
  import opened Instructions
  import opened Decoder
  import opened Encoder
  import opened EncoderProofs

  const TARGET := "target"

  /** Assembler text for a decoded instruction; a J goes to a label at its target. */
  function Unparse(i: Instr): (AsmInstr, Labels)
    requires !i.Invalid?
  {
    var none: Labels := map[];
    match i
    case Li(rt, imm) => (AsmInstr(MLi, [Register(rt), Number(ToSigned(imm))], 0), none)
    case Add(rd, rs, rt) => (AsmInstr(MAdd, [Register(rd), Register(rs), Register(rt)], 0), none)
    case Addi(rt, rs, imm) => (AsmInstr(MAddi, [Register(rt), Register(rs), Number(ToSigned(imm))], 0), none)
    case OrReg(rd, rs, rt) => (AsmInstr(MOr, [Register(rd), Register(rs), Register(rt)], 0), none)
    case LdReg(rt, base, rm) =>
      (AsmInstr(MLd, [Register(rt), Address([Register(base), Register(rm)])], 0), none)
    case LdImm(rt, base, imm) =>
      (AsmInstr(MLd, [Register(rt), Address([Register(base), Number(ToSigned(imm))])], 0), none)
    case St(rt, base, imm) =>
      (AsmInstr(MSt, [Register(rt), Address([Register(base), Number(ToSigned(imm))])], 0), none)
    case Stp(rt, rt2, base, imm) =>
      (AsmInstr(MStp, [Register(rt), Register(rt2), Address([Register(base), Number(ToSigned(imm))])], 0), none)
    case Beq(rs, rt, offset) =>
      (AsmInstr(MBeq, [Register(rs), Register(rt), Number(ToSigned(offset))], 0), none)
    case J(index) => (AsmInstr(MJ, [Symbol(TARGET)], 0), map[TARGET := LabelInfo(Text, 4 * index)])
    case Clz(rd, rs) => (AsmInstr(MClz, [Register(rd), Register(rs)], 0), none)
    case Ssat(rd, rs, width) => (AsmInstr(MSsat, [Register(rd), Register(rs), Number(width)], 0), none)
    case Rori(rd, rs, shift) => (AsmInstr(MRori, [Register(rd), Register(rs), Number(shift)], 0), none)
    case Bext(rd, rs, rt) => (AsmInstr(MBext, [Register(rd), Register(rs), Register(rt)], 0), none)
    case Syscall(_) => (AsmInstr(MSyscall, [], 0), none)
    case Flush => (AsmInstr(MFlush, [], 0), none)
  }

  /** Words whose ignored bits are zero, except a saturation to width zero. */
  predicate Canonical(w: Word) {
    match Decode(w)
    case Invalid => false
    case Syscall(code) => code == 0
    case Flush => w % 0x400_0000 == 0
    case Ssat(_, _, width) => width != 0
    case _ => true
  }

  // ---- a decoded instruction means itself ----

  lemma SignedOperand(w: Word, width: nat)
    requires 0 < width < 32
    ensures IsSigned(Number(ToSigned(SignedField(w, width))), width, SignedField(w, width))
  {
    hide SignExtend, Low;
    var field := ExtractBits(w, 0, width);
    ExtractBitsMeaning(w, 0, width);
    SignExtendMeaning(field, width);
    Pow2Mono(width, 31);
    Pow2Values();
  }

  lemma FieldSizes(w: Word)
    ensures ExtractBits(w, 0, 26) < Pow2(26)
  {
    ExtractBitsMeaning(w, 0, 26);
  }

  lemma OpcodeFound(w: Word) returns (opcode: Opcode)
    requires !Decode(w).Invalid?
    ensures HasFixed(opcode, w) && Decode(w) == Operands(opcode, w)
  {
    hide Decode, HasFixed, Operands;
    DecodeInvalid(w);
    opcode :| HasFixed(opcode, w);
    DecodeFixed(w, opcode);
  }

  lemma UnparseMeans(w: Word)
    requires Canonical(w)
    ensures var (ins, labels) := Unparse(Decode(w)); Means(labels, ins, Decode(w))
  {
    hide Decode, HasFixed, SignedField, ExtractBits, Pow2, FitsSigned;
    var opcode := OpcodeFound(w);
    SignedOperand(w, 11);
    SignedOperand(w, 14);
    SignedOperand(w, 16);
    FieldSizes(w);
    Pow2Values();
  }

  // ---- a canonical word is determined by its decoding ----

  lemma WordParts(w: Word)
    ensures w == w / 0x400_0000 * 0x400_0000 + Field5(w, 21) * 0x20_0000 + Field5(w, 16) * 0x1_0000 + w % 0x1_0000
  {
    hide ExtractBits, Pow2;
    ExtractBitsMeaning(w, 21, 5);
    ExtractBitsMeaning(w, 16, 5);
    Pow2Values();
    SplitWord(w);
  }

  lemma SplitWord(w: Word)
    ensures w == w / 0x400_0000 * 0x400_0000 + w / 0x20_0000 % 32 * 0x20_0000 + w / 0x1_0000 % 32 * 0x1_0000
                 + w % 0x1_0000
  {
    var q := w / 0x1_0000;
    assert q == q / 32 * 32 + q % 32;
    DivModUnique(w, 0x20_0000, q / 32, q % 32 * 0x1_0000 + w % 0x1_0000);
    var p := w / 0x20_0000;
    assert p == p / 32 * 32 + p % 32;
    DivModUnique(w, 0x400_0000, p / 32, p % 32 * 0x20_0000 + q % 32 * 0x1_0000 + w % 0x1_0000);
  }

  /** Equal sign-extended fields are equal fields. */
  lemma SignedInjective(v: Word, w: Word, width: nat)
    requires 0 < width < 32 && SignedField(v, width) == SignedField(w, width)
    ensures v % Pow2(width) == w % Pow2(width)
  {
    hide SignExtend, Low, ExtractBits;
    Pow2Mono(width, 31);
    Pow2Values();
    BottomField(v, width);
    BottomField(w, width);
    var a, b := v % Pow2(width), w % Pow2(width);
    LowOfSmall(a, width);
    LowOfSmall(b, width);
    SignExtendMeaning(a, width);
    SignExtendMeaning(b, width);
  }

  lemma SameWord(v: Word, w: Word)
    requires v / 0x400_0000 == w / 0x400_0000 && Field5(v, 21) == Field5(w, 21) && Field5(v, 16) == Field5(w, 16)
    requires v % 0x1_0000 == w % 0x1_0000
    ensures v == w
  {
    WordParts(v);
    WordParts(w);
  }

  /** Two fields make up the low half of a word. */
  lemma SameLow(v: Word, w: Word, p: nat, q: nat)
    requires p > 0 && q > 0 && p * q == 0x1_0000
    requires v % p == w % p && v / p % q == w / p % q
    ensures v % 0x1_0000 == w % 0x1_0000
  {
    LowSplit(v, p, q);
    LowSplit(w, p, q);
  }

  lemma LowSplit(w: Word, p: nat, q: nat)
    requires p > 0 && q > 0 && p * q == 0x1_0000
    ensures w % 0x1_0000 == w / p % q * p + w % p
  {
    var a, r := w / p, w % p;
    var b, s := a / q, a % q;
    assert w == a * p + r && a == b * q + s;
    assert (b * q + s) * p == b * (p * q) + s * p;
    MulBound(q - s, p);
    assert (q - s) * p == p * q - s * p;
    DivModUnique(w, 0x1_0000, b, s * p + r);
  }

  /** Two words of one opcode with the same operands. */
  predicate Twins(opcode: Opcode, v: Word, w: Word) {
    HasFixed(opcode, v) && HasFixed(opcode, w) && Operands(opcode, v) == Operands(opcode, w)
  }

  lemma TwinsSigned16(opcode: Opcode, v: Word, w: Word)
    requires Twins(opcode, v, w) && (opcode.ADDI? || opcode.BEQ? || opcode.LI?)
    ensures v == w
  {
    hide SignedField, Pow2, Field5;
    SignedInjective(v, w, 16);
    Pow2Values();
    TopRegisterField(v, v / 0x400_0000);
    TopRegisterField(w, w / 0x400_0000);
    SameWord(v, w);
  }

  lemma TwinsSigned14(opcode: Opcode, v: Word, w: Word)
    requires Twins(opcode, v, w) && (opcode.ST? || opcode.LDIMM?)
    ensures v == w
  {
    hide SignedField, Pow2, Field5;
    SignedInjective(v, w, 14);
    Pow2Values();
    SameLow(v, w, 0x4000, 4);
    SameWord(v, w);
  }

  /** The register field at bit 11, as a quotient. */
  lemma MiddleField(w: Word)
    ensures Field5(w, 11) == w / 0x800 % 32
  {
    hide ExtractBits, Pow2;
    ExtractBitsMeaning(w, 11, 5);
    Pow2Values();
  }

  lemma TwinsThree(opcode: Opcode, v: Word, w: Word)
    requires Twins(opcode, v, w)
    requires opcode.OR? || opcode.ADD? || opcode.BEXT? || opcode.SSAT? || opcode.RORI?
    ensures v == w
  {
    hide Pow2, Field5;
    Pow2Values();
    DivideByOne(v);
    DivideByOne(w);
    MiddleField(v);
    MiddleField(w);
    SameLow(v, w, 0x800, 32);
    SameWord(v, w);
  }

  lemma TwinsStp(v: Word, w: Word)
    requires Twins(STP, v, w)
    ensures v == w
  {
    hide Pow2, Field5, SignedField;
    SignedInjective(v, w, 11);
    Pow2Values();
    MiddleField(v);
    MiddleField(w);
    SameLow(v, w, 0x800, 32);
    SameWord(v, w);
  }

  lemma TwinsLdReg(v: Word, w: Word)
    requires Twins(LDREG, v, w)
    ensures v == w
  {
    hide Pow2, Field5;
    Pow2Values();
    RegisterFields(v);
    RegisterFields(w);
    SameLow(v, w, 0x20, 0x800);
    SameWord(v, w);
  }

  lemma TwinsClz(v: Word, w: Word)
    requires Twins(CLZ, v, w)
    ensures v == w
  {
    hide Pow2, Field5;
    Pow2Values();
    DivideByOne(v);
    DivideByOne(w);
    SameWord(v, w);
  }

  lemma TwinsJ(v: Word, w: Word)
    requires Twins(Opcode.J, v, w)
    ensures v == w
  {
    hide Pow2, ExtractBits;
    Pow2Values();
    BottomField(v, 26);
    BottomField(w, 26);
  }

  /** The ignored field of SYSCALL is the rest of the word. */
  lemma SyscallWord(w: Word)
    requires HasFixed(SYSCALL, w)
    ensures w == ExtractBits(w, 6, 20) * 0x40 + 0x1E
  {
    hide Pow2, ExtractBits, Low, Shr;
    Pow2Values();
    DivideByOne(w);
    ExtractBitsMeaning(w, 6, 20);
    SmallQuotient(w);
  }

  lemma SmallQuotient(w: Word)
    requires w / 0x400_0000 == 0
    ensures w / 0x40 % 0x10_0000 == w / 0x40
  {
    assert w / 0x40 < 0x10_0000;
  }

  lemma TwinsEqual(opcode: Opcode, v: Word, w: Word)
    requires Twins(opcode, v, w)
    requires opcode.FLUSH? ==> v % 0x400_0000 == w % 0x400_0000
    ensures v == w
  {
    hide Twins;
    match opcode
    case ST => TwinsSigned14(opcode, v, w);
    case LDIMM => TwinsSigned14(opcode, v, w);
    case ADDI => TwinsSigned16(opcode, v, w);
    case BEQ => TwinsSigned16(opcode, v, w);
    case LI => TwinsSigned16(opcode, v, w);
    case LDREG => TwinsLdReg(v, w);
    case STP => TwinsStp(v, w);
    case CLZ => TwinsClz(v, w);
    case J => TwinsJ(v, w);
    case SYSCALL => TwinsSyscall(v, w);
    case FLUSH => TwinsFlush(v, w);
    case _ => TwinsThree(opcode, v, w);
  }

  lemma TwinsSyscall(v: Word, w: Word)
    requires Twins(SYSCALL, v, w)
    ensures v == w
  {
    hide HasFixed, ExtractBits;
    SyscallWord(v);
    SyscallWord(w);
  }

  lemma TwinsFlush(v: Word, w: Word)
    requires Twins(FLUSH, v, w) && v % 0x400_0000 == w % 0x400_0000
    ensures v == w
  {
  }

  /** The opcode of a decoded word is that of its operands. */
  lemma SameOpcode(a: Opcode, b: Opcode, v: Word, w: Word)
    requires Operands(a, v) == Operands(b, w)
    ensures a == b
  {
    hide Field5, SignedField, ExtractBits;
  }

  /** Decoding is injective on all words but FLUSH and INVALID, which ignore bits. */
  lemma DecodeInjective(v: Word, w: Word)
    requires Decode(v) == Decode(w) && !Decode(v).Invalid?
    requires Decode(v).Flush? ==> v % 0x400_0000 == w % 0x400_0000
    ensures v == w
  {
    hide Decode, HasFixed;
    var a := OpcodeFound(v);
    var b := OpcodeFound(w);
    SameOpcode(a, b, v, w);
    OperandsOfFlush(a, v);
    hide Operands;
    TwinsEqual(a, v, w);
  }

  lemma OperandsOfFlush(opcode: Opcode, w: Word)
    ensures opcode.FLUSH? ==> Operands(opcode, w).Flush?
  {
  }

  lemma FlushEncoding()
    ensures Shl(0x26, 26) == 0x9800_0000
  {
    ShlIsProduct(0x26, 26);
    Pow2Values();
  }

  /** The assembler can produce a word exactly when it is canonical; then from the text of its decoding. */
  lemma ReencodeExactly(w: Word)
    ensures (exists labels: Labels, ins: AsmInstr :: Encode(labels, ins) == Good(w)) <==> Canonical(w)
    ensures Canonical(w) ==> var (ins, labels) := Unparse(Decode(w)); Encode(labels, ins) == Good(w)
  {
    hide Decode, Encode, Unparse, Canonical;
    if labels: Labels, ins: AsmInstr :| Encode(labels, ins) == Good(w) {
      EncodedIsCanonical(labels, ins, w);
    }
    if Canonical(w) {
      CanonicalIsEncoded(w);
      var (ins, labels) := Unparse(Decode(w));
      assert Encode(labels, ins) == Good(w);
    }
  }

  lemma CanonicalIsEncoded(w: Word)
    requires Canonical(w)
    ensures !Decode(w).Invalid?
    ensures var (ins, labels) := Unparse(Decode(w)); Encode(labels, ins) == Good(w)
  {
    hide Decode, Encode, Means;
    var (ins, labels) := Unparse(Decode(w));
    UnparseMeans(w);
    EncoderIsExact(labels, ins, Decode(w));
    FlushIsCanonical(labels, ins);
    DecodeInjective(Encode(labels, ins).value, w);
  }

  /** What the assembler produces has no ignored bit set, and saturates to no width zero. */
  lemma EncodedIsCanonical(labels: Labels, ins: AsmInstr, w: Word)
    requires Encode(labels, ins) == Good(w)
    ensures Canonical(w)
  {
    hide Decode, Encode, FitsSigned, Pow2;
    EncodeThenDecode(labels, ins);
    FlushIsCanonical(labels, ins);
  }

  lemma FlushIsCanonical(labels: Labels, ins: AsmInstr)
    requires Encode(labels, ins).Good?
    ensures ins.name.MFlush? ==> Encode(labels, ins).value % 0x400_0000 == 0
  {
    hide Shl;
    FlushEncoding();
  }
}
