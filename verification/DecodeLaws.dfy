/** The instruction formats in plain arithmetic, and decoding as a function of them. */
module DecodeLaws {
  import opened Words
  import opened BitUtils
  import opened Instructions
  import opened Decoder

  /** The lowest bits of a word as a signed number, modulo 2^32; `half` is the weight of the top one. */
  function LowSigned(w: Word, half: nat): Word
    requires 0 < half <= 0x8000_0000
  {
    var low := w % (2 * half);
    if low < half then low else low + 0x1_0000_0000 - 2 * half
  }

  /**
    The formats: six bits of major opcode, register fields of five bits at 21, 16 and 11,
    an immediate at the bottom, and fixed bits where no field is.
  */
  function Layout(w: Word): Instr {
    var a: Reg, b: Reg, c: Reg := w / 0x20_0000 % 32, w / 0x1_0000 % 32, w / 0x800 % 32;
    match w / 0x400_0000
    case 0x00 =>
      if w % 0x800 == 0x0C then Instr.Add(c, a, b)
      else if w % 0x800 == 0x1A then OrReg(c, a, b)
      else if w % 0x800 == 0x34 then Bext(a, b, c)
      else if w % 0x1_0000 == 0x32 then Clz(a, b)
      else if w % 0x40 == 0x1E then Syscall(w / 0x40 % 0x10_0000)
      else Invalid
    case 0x03 => if w / 0x20 % 0x800 == 0x600 then LdReg(b, a, w % 32) else Invalid
    case 0x08 => if w % 0x800 == 0 then Ssat(a, b, c) else Invalid
    case 0x0B => if a == 0 then Li(b, LowSigned(w, 0x8000)) else Invalid
    case 0x10 => Beq(a, b, LowSigned(w, 0x8000))
    case 0x15 => Stp(b, c, a, LowSigned(w, 0x400))
    case 0x17 => Addi(b, a, LowSigned(w, 0x8000))
    case 0x1D => if w % 0x800 == 0 then Rori(a, b, c) else Invalid
    case 0x20 => if w / 0x4000 % 4 == 0 then St(b, a, LowSigned(w, 0x2000)) else Invalid
    case 0x26 => Instr.Flush
    case 0x33 => if w / 0x4000 % 4 == 0 then LdImm(b, a, LowSigned(w, 0x2000)) else Invalid
    case 0x3F => Instr.J(w % 0x400_0000)
    case _ => Invalid
  }

  // ---- fields ----

  lemma RegisterField(w: Word, offset: nat)
    requires offset <= 27
    ensures Field5(w, offset) == w / Pow2(offset) % 32
  {
    hide ExtractBits, Pow2;
    ExtractBitsMeaning(w, offset, 5);
    Pow2Values();
  }

  lemma RegisterFieldValues(w: Word)
    ensures Field5(w, 21) == w / 0x20_0000 % 32 && Field5(w, 16) == w / 0x1_0000 % 32
    ensures Field5(w, 11) == w / 0x800 % 32 && Field5(w, 0) == w % 32
  {
    hide Field5, Pow2;
    RegisterField(w, 21);
    RegisterField(w, 16);
    RegisterField(w, 11);
    RegisterField(w, 0);
    Pow2Values();
    DivideByUnit(w);
  }

  lemma DivideByUnit(w: Word)
    ensures w / 1 == w && w % 1 == 0
  {
  }

  lemma SignedFieldIs(w: Word, width: nat)
    requires 0 < width < 32
    ensures Pow2(width - 1) <= 0x8000_0000 && SignedField(w, width) == LowSigned(w, Pow2(width - 1))
  {
    hide ExtractBits, SignExtend, Low, Pow2;
    var half := Pow2(width - 1);
    Pow2Mono(width - 1, 31);
    Pow2Values();
    assert Pow2(width) == 2 * half by { Doubled(width); }
    ExtractBitsMeaning(w, 0, width);
    DivideByUnit(w);
    var low := ExtractBits(w, 0, width);
    SignExtendMeaning(low, width);
    LowOfSmall(low, width);
  }

  lemma Doubled(width: nat)
    requires width > 0
    ensures Pow2(width) == 2 * Pow2(width - 1)
  {
  }

  lemma SignedFieldValues(w: Word)
    ensures SignedField(w, 16) == LowSigned(w, 0x8000)
    ensures SignedField(w, 14) == LowSigned(w, 0x2000)
    ensures SignedField(w, 11) == LowSigned(w, 0x400)
  {
    hide SignedField, LowSigned, Pow2;
    SignedFieldIs(w, 16);
    SignedFieldIs(w, 14);
    SignedFieldIs(w, 11);
    Halves();
  }

  lemma Halves()
    ensures Pow2(15) == 0x8000 && Pow2(13) == 0x2000 && Pow2(10) == 0x400
  {
    hide Pow2;
    Pow2Values();
    Doubled(16);
    Doubled(14);
    Doubled(11);
  }

  lemma OtherFieldValues(w: Word)
    ensures ExtractBits(w, 0, 26) == w % 0x400_0000
    ensures ExtractBits(w, 6, 20) == w / 0x40 % 0x10_0000
  {
    hide ExtractBits, Low, Shr, Pow2;
    ExtractBitsMeaning(w, 0, 26);
    ExtractBitsMeaning(w, 6, 20);
    Pow2Values();
    DivideByUnit(w);
  }

  // ---- formats ----

  /** The fixed fields of an entry, as divisions by constants. */
  predicate HasFormat(opcode: Opcode, w: Word) {
    match opcode
    case ST => w / 0x400_0000 == 0x20 && w / 0x4000 % 4 == 0
    case ADDI => w / 0x400_0000 == 0x17
    case OR => w / 0x400_0000 == 0 && w % 0x800 == 0x1A
    case LDREG => w / 0x400_0000 == 3 && w / 0x20 % 0x800 == 0x600
    case J => w / 0x400_0000 == 0x3F
    case BEQ => w / 0x400_0000 == 0x10
    case CLZ => w / 0x400_0000 == 0 && w % 0x1_0000 == 0x32
    case SSAT => w / 0x400_0000 == 8 && w % 0x800 == 0
    case LDIMM => w / 0x400_0000 == 0x33 && w / 0x4000 % 4 == 0
    case ADD => w / 0x400_0000 == 0 && w % 0x800 == 0x0C
    case SYSCALL => w / 0x400_0000 == 0 && w % 0x40 == 0x1E
    case BEXT => w / 0x400_0000 == 0 && w % 0x800 == 0x34
    case LI => w / 0x400_0000 == 0x0B && w / 0x20_0000 % 32 == 0
    case RORI => w / 0x400_0000 == 0x1D && w % 0x800 == 0
    case STP => w / 0x400_0000 == 0x15
    case FLUSH => w / 0x400_0000 == 0x26
  }

  lemma FixedIsFormat(opcode: Opcode, w: Word)
    ensures HasFixed(opcode, w) <==> HasFormat(opcode, w)
  {
    hide Pow2;
    Pow2Values();
    DivideByUnit(w);
  }

  lemma OperandsAreLayout(opcode: Opcode, w: Word)
    requires HasFormat(opcode, w)
    ensures Operands(opcode, w) == Layout(w)
  {
    hide Field5, SignedField, ExtractBits, LowSigned;
    RegisterFieldValues(w);
    SignedFieldValues(w);
    OtherFieldValues(w);
    if w / 0x400_0000 == 0 {
      MinorsDiffer(w);
    }
  }

  /** The low bits of two formats with major opcode 0 are never both right. */
  lemma MinorsDiffer(w: Word)
    ensures w % 0x800 % 0x40 == w % 0x40 && w % 0x1_0000 % 0x40 == w % 0x40 && w % 0x1_0000 % 0x800 == w % 0x800
  {
    ModMod(w, 0x20, 0x40);
    ModMod(w, 0x400, 0x40);
    ModMod(w, 0x20, 0x800);
  }

  lemma LayoutIsFormat(w: Word)
    requires !Layout(w).Invalid?
    ensures exists opcode :: HasFormat(opcode, w)
  {
    hide LowSigned, HasFormat;
    var opcode := FormatOf(w);
    assert HasFormat(opcode, w) by { FormatFits(w); }
  }

  /** The entry whose format a valid word has. */
  function FormatOf(w: Word): Opcode {
    match Layout(w)
    case Add(_, _, _) => ADD
    case OrReg(_, _, _) => OR
    case Bext(_, _, _) => BEXT
    case Clz(_, _) => CLZ
    case Syscall(_) => SYSCALL
    case LdReg(_, _, _) => LDREG
    case Ssat(_, _, _) => SSAT
    case Li(_, _) => LI
    case Beq(_, _, _) => BEQ
    case Stp(_, _, _, _) => STP
    case Addi(_, _, _) => ADDI
    case Rori(_, _, _) => RORI
    case St(_, _, _) => ST
    case LdImm(_, _, _) => LDIMM
    case J(_) => Opcode.J
    case _ => FLUSH
  }

  lemma FormatFits(w: Word)
    requires !Layout(w).Invalid?
    ensures HasFormat(FormatOf(w), w)
  {
    hide LowSigned;
  }

  /** Decoding is the layout, for every word. */
  lemma DecodeLaw(w: Word)
    ensures Decode(w) == Layout(w)
  {
    hide Decode, Layout, HasFixed, HasFormat, Operands;
    DecodeInvalid(w);
    if opcode: Opcode :| HasFixed(opcode, w) {
      FixedIsFormat(opcode, w);
      DecodeFixed(w, opcode);
      OperandsAreLayout(opcode, w);
    } else {
      if !Layout(w).Invalid? {
        LayoutIsFormat(w);
        var opcode: Opcode :| HasFormat(opcode, w);
        FixedIsFormat(opcode, w);
      }
    }
  }
}
