/** Instruction decoding: a first-match scan of a table of masks and references. */
module Decoder {
  import opened Words
  import opened BitUtils
  import opened Instructions

  datatype Opcode =
    | ST | ADDI | OR | LDREG | J | BEQ | CLZ | SSAT | LDIMM | ADD | SYSCALL | BEXT | LI | RORI | STP | FLUSH

  datatype DecodeInfo = DecodeInfo(opcode: Opcode, mask: Word, reference: Word)

  const DECODE_VECTOR: seq<DecodeInfo> := [
    DecodeInfo(ST, 0xFC00_C000, 0x8000_0000),
    DecodeInfo(ADDI, 0xFC00_0000, 0x5C00_0000),
    DecodeInfo(OR, 0xFC00_07FF, 0x0000_001A),
    DecodeInfo(LDREG, 0xFC00_FFE0, 0x0C00_C000),
    DecodeInfo(Opcode.J, 0xFC00_0000, 0xFC00_0000),
    DecodeInfo(BEQ, 0xFC00_0000, 0x4000_0000),
    DecodeInfo(CLZ, 0xFC00_FFFF, 0x0000_0032),
    DecodeInfo(SSAT, 0xFC00_07FF, 0x2000_0000),
    DecodeInfo(LDIMM, 0xFC00_C000, 0xCC00_0000),
    DecodeInfo(ADD, 0xFC00_07FF, 0x0000_000C),
    DecodeInfo(SYSCALL, 0xFC00_003F, 0x0000_001E),
    DecodeInfo(BEXT, 0xFC00_07FF, 0x0000_0034),
    DecodeInfo(LI, 0xFFE0_0000, 0x2C00_0000),
    DecodeInfo(RORI, 0xFC00_07FF, 0x7400_0000),
    DecodeInfo(STP, 0xFC00_0000, 0x5400_0000),
    DecodeInfo(FLUSH, 0xFC00_0000, 0x9800_0000)
  ]

  /** A five-bit field. */
  function Field5(word: Word, offset: nat): Reg
    requires offset <= 27
  {
    ExtractBitsMeaning(word, offset, 5);
    assert Pow2(5) == 32 by { Pow2Values(); }
    ExtractBits(word, offset, 5)
  }

  function SignedField(word: Word, width: nat): Word
    requires 0 < width < 32
  {
    SignExtend(ExtractBits(word, 0, width), width)
  }

  function Operands(opcode: Opcode, word: Word): Instr {
    match opcode
    case ST => Instr.St(Field5(word, 16), Field5(word, 21), SignedField(word, 14))
    case ADDI => Instr.Addi(Field5(word, 16), Field5(word, 21), SignedField(word, 16))
    case OR => Instr.OrReg(Field5(word, 11), Field5(word, 21), Field5(word, 16))
    case LDREG => Instr.LdReg(Field5(word, 16), Field5(word, 21), Field5(word, 0))
    case J => Instr.J(ExtractBits(word, 0, 26))
    case BEQ => Instr.Beq(Field5(word, 21), Field5(word, 16), SignedField(word, 16))
    case CLZ => Instr.Clz(Field5(word, 21), Field5(word, 16))
    case SSAT => Instr.Ssat(Field5(word, 21), Field5(word, 16), Field5(word, 11))
    case LDIMM => Instr.LdImm(Field5(word, 16), Field5(word, 21), SignedField(word, 14))
    case ADD => Instr.Add(Field5(word, 11), Field5(word, 21), Field5(word, 16))
    case SYSCALL => Instr.Syscall(ExtractBits(word, 6, 20))
    case BEXT => Instr.Bext(Field5(word, 21), Field5(word, 16), Field5(word, 11))
    case LI => Instr.Li(Field5(word, 16), SignedField(word, 16))
    case RORI => Instr.Rori(Field5(word, 21), Field5(word, 16), Field5(word, 11))
    case STP => Instr.Stp(Field5(word, 16), Field5(word, 11), Field5(word, 21), SignedField(word, 11))
    case FLUSH => Instr.Flush
  }

  predicate Matches(info: DecodeInfo, word: Word) {
    And(word, info.mask) == info.reference
  }

  /** The scan from table position `k` on. */
  function Scan(word: Word, k: nat): Instr
    requires k <= |DECODE_VECTOR|
    decreases |DECODE_VECTOR| - k
  {
    if k == |DECODE_VECTOR| then Instr.Invalid
    else if Matches(DECODE_VECTOR[k], word) then Operands(DECODE_VECTOR[k].opcode, word)
    else Scan(word, k + 1)
  }

  function Decode(word: Word): Instr {
    Scan(word, 0)
  }

  // ---- what the masks select ----

  /** The two fixed fields of an entry: the major opcode and a minor field. */
  datatype FixedBits = FixedBits(major: nat, offset: nat, width: nat, minor: nat)

  function Fixed(opcode: Opcode): FixedBits {
    match opcode
    case ST => FixedBits(0x20, 14, 2, 0)
    case ADDI => FixedBits(0x17, 0, 0, 0)
    case OR => FixedBits(0, 0, 11, 0x1A)
    case LDREG => FixedBits(3, 5, 11, 0x600)
    case J => FixedBits(0x3F, 0, 0, 0)
    case BEQ => FixedBits(0x10, 0, 0, 0)
    case CLZ => FixedBits(0, 0, 16, 0x32)
    case SSAT => FixedBits(8, 0, 11, 0)
    case LDIMM => FixedBits(0x33, 14, 2, 0)
    case ADD => FixedBits(0, 0, 11, 0x0C)
    case SYSCALL => FixedBits(0, 0, 6, 0x1E)
    case BEXT => FixedBits(0, 0, 11, 0x34)
    case LI => FixedBits(0x0B, 21, 5, 0)
    case RORI => FixedBits(0x1D, 0, 11, 0)
    case STP => FixedBits(0x15, 0, 0, 0)
    case FLUSH => FixedBits(0x26, 0, 0, 0)
  }

  /** An entry whose fixed fields have the required values. */
  predicate HasFixed(opcode: Opcode, word: Word) {
    var f := Fixed(opcode);
    word / 0x400_0000 == f.major && word / Pow2(f.offset) % Pow2(f.width) == f.minor
  }

  lemma {:induction false} MaskField(x: nat, offset: nat, width: nat)
    ensures And(x, Shl(Pow2(width) - 1, offset)) == Shl(Low(Shr(x, offset), width), offset)
  {
    hide And, Low, Shr;
    HighLow(x, offset);
    AndFields(Shr(x, offset), Low(x, offset), Pow2(width) - 1, 0, offset);
    AndOnes(Shr(x, offset), width);
    AndStep(Low(x, offset), 0);
  }

  /** A mask of the top six bits and one lower field keeps those two fields. */
  lemma MaskedWord(word: Word, offset: nat, width: nat)
    requires offset + width <= 26
    ensures And(word, Shl(63, 26) + Shl(Pow2(width) - 1, offset))
         == Shl(Shr(word, 26), 26) + Shl(Low(Shr(word, offset), width), offset)
  {
    hide And, Low, Shr, Shl, Pow2;
    FieldBelow(Pow2(width) - 1, offset, width);
    HighLow(word, 26);
    AndFields(Shr(word, 26), Low(word, 26), 63, Shl(Pow2(width) - 1, offset), 26);
    MajorMask(word);
    LowField(word, offset, width);
  }

  /** Two fields determine their sum, and their sum determines them. */
  lemma SameFields(a: nat, x: nat, b: nat, y: nat, offset: nat, width: nat)
    requires offset + width <= 26 && x < Pow2(width) && y < Pow2(width)
    ensures Shl(a, 26) + Shl(x, offset) == Shl(b, 26) + Shl(y, offset) <==> a == b && x == y
  {
    hide Shl, Pow2;
    FieldBelow(x, offset, width);
    FieldBelow(y, offset, width);
    SameParts(a, Shl(x, offset), b, Shl(y, offset), 26);
    SameParts(x, 0, y, 0, offset);
  }

  lemma SameParts(a: nat, x: nat, b: nat, y: nat, k: nat)
    requires x < Pow2(k) && y < Pow2(k)
    ensures Shl(a, k) + x == Shl(b, k) + y <==> a == b && x == y
  {
    hide Low, Shr, Shl, Pow2;
    Fields(a, x, k);
    Fields(b, y, k);
  }

  /** The masked word equals the reference exactly when the two fields have the required values. */
  lemma MaskSelects(word: Word, f: FixedBits)
    requires f.offset + f.width <= 26 && f.minor < Pow2(f.width)
    ensures And(word, Shl(63, 26) + Shl(Pow2(f.width) - 1, f.offset)) == Shl(f.major, 26) + Shl(f.minor, f.offset)
       <==> Shr(word, 26) == f.major && Low(Shr(word, f.offset), f.width) == f.minor
  {
    hide And, Low, Shr, Shl, Pow2;
    MaskedWord(word, f.offset, f.width);
    SameFields(Shr(word, 26), Low(Shr(word, f.offset), f.width), f.major, f.minor, f.offset, f.width);
  }

  lemma MajorMask(word: Word)
    ensures And(Shr(word, 26), 63) == Shr(word, 26) < 64
  {
    Pow2Values();
    ShiftIsDivision(word, 26);
    AndOnes(Shr(word, 26), 6);
    LowOfSmall(Shr(word, 26), 6);
  }

  /** A field at `offset` stays below the field above it. */
  lemma {:induction false} FieldBelow(x: nat, offset: nat, width: nat)
    requires offset + width <= 26 && x < Pow2(width)
    ensures Shl(x, offset) < Pow2(26)
  {
    ShlBound(x, width, offset);
    Pow2Mono(width + offset, 26);
  }

  lemma {:induction false} ShlBound(x: nat, n: nat, k: nat)
    requires x < Pow2(n)
    ensures Shl(x, k) < Pow2(n + k)
  {
    if k != 0 {
      ShlBound(x, n, k - 1);
    }
  }

  lemma LowField(word: nat, offset: nat, width: nat)
    requires offset + width <= 26
    ensures And(Low(word, 26), Shl(Pow2(width) - 1, offset)) == Shl(Low(Shr(word, offset), width), offset)
  {
    hide And, Low, Shr;
    MaskField(Low(word, 26), offset, width);
    ShrOfLow(word, offset, 26);
    LowLow(Shr(word, offset), width, 26 - offset);
  }

  lemma {:induction false} ShrOfLow(x: nat, k: nat, n: nat)
    requires k <= n
    ensures Shr(Low(x, n), k) == Low(Shr(x, k), n - k)
  {
    if k != 0 {
      ShrOfLow(x / 2, k - 1, n - 1);
    }
  }

  lemma {:induction false} LowLow(x: nat, k: nat, n: nat)
    requires k <= n
    ensures Low(Low(x, n), k) == Low(x, k)
  {
    if k != 0 {
      LowLow(x / 2, k - 1, n - 1);
    }
  }

  // ---- the table is unambiguous ----

  function Position(opcode: Opcode): (k: nat)
    ensures k < |DECODE_VECTOR| && DECODE_VECTOR[k].opcode == opcode
  {
    match opcode
    case ST => 0
    case ADDI => 1
    case OR => 2
    case LDREG => 3
    case J => 4
    case BEQ => 5
    case CLZ => 6
    case SSAT => 7
    case LDIMM => 8
    case ADD => 9
    case SYSCALL => 10
    case BEXT => 11
    case LI => 12
    case RORI => 13
    case STP => 14
    case FLUSH => 15
  }

  /** Masks and references spell out exactly the two fixed fields. */
  lemma TableLayout(opcode: Opcode)
    ensures var (f, info) := (Fixed(opcode), DECODE_VECTOR[Position(opcode)]);
      && f.offset + f.width <= 26
      && f.minor < Pow2(f.width)
      && info.mask == Shl(63, 26) + Shl(Pow2(f.width) - 1, f.offset)
      && info.reference == Shl(f.major, 26) + Shl(f.minor, f.offset)
  {
    hide Shl, Pow2;
    var f := Fixed(opcode);
    ShlIsProduct(63, 26);
    ShlIsProduct(Pow2(f.width) - 1, f.offset);
    ShlIsProduct(f.major, 26);
    ShlIsProduct(f.minor, f.offset);
    Pow2Values();
  }

  /** A table entry matches exactly the words with its major opcode and minor field. */
  lemma MatchesIsFixed(opcode: Opcode, word: Word)
    ensures Matches(DECODE_VECTOR[Position(opcode)], word) <==> HasFixed(opcode, word)
  {
    hide And, Low, Shr, Shl, Pow2, Fixed, Position, DECODE_VECTOR;
    var f := Fixed(opcode);
    TableLayout(opcode);
    MaskSelects(word, f);
    FieldsAreQuotients(word, f.offset, f.width);
  }

  lemma FieldsAreQuotients(word: Word, offset: nat, width: nat)
    ensures Shr(word, 26) == word / 0x400_0000
    ensures Low(Shr(word, offset), width) == word / Pow2(offset) % Pow2(width)
  {
    hide Low, Shr, Pow2;
    ShiftIsDivision(word, 26);
    ShiftIsDivision(word, offset);
    ShiftIsDivision(Shr(word, offset), width);
    Pow2Values();
  }

  /** With major opcode 0 the low six bits identify the entry. */
  lemma LowSixBits(opcode: Opcode, word: Word)
    requires HasFixed(opcode, word) && Fixed(opcode).major == 0
    ensures word % 0x40 == Fixed(opcode).minor % 0x40
  {
    hide Pow2;
    Pow2Values();
    var width := Fixed(opcode).width;
    assert word / 1 == word;
    assert word % Pow2(width) == Fixed(opcode).minor;
    Pow2Add(width - 6, 6);
    ModMod(word, Pow2(width - 6), 0x40);
  }

  lemma ModMod(x: nat, p: nat, q: nat)
    requires p > 0 && q > 0 && p * q > 0
    ensures x % (p * q) % q == x % q
  {
    var d, r := x / (p * q), x % (p * q);
    assert d * (p * q) == (d * p) * q;
    DivModUnique(x, q, d * p + r / q, r % q);
  }

  /** No word matches two entries, so the order of the table is irrelevant. */
  lemma Unambiguous(a: Opcode, b: Opcode, word: Word)
    requires Matches(DECODE_VECTOR[Position(a)], word)
    requires Matches(DECODE_VECTOR[Position(b)], word)
    ensures a == b
  {
    hide DECODE_VECTOR, Matches;
    MatchesIsFixed(a, word);
    MatchesIsFixed(b, word);
    if Fixed(a).major == 0 {
      LowSixBits(a, word);
      LowSixBits(b, word);
    }
  }

  lemma OpcodeOf(k: nat)
    requires k < |DECODE_VECTOR|
    ensures Position(DECODE_VECTOR[k].opcode) == k
  {
  }

  lemma {:induction false} ScanSkips(word: Word, opcode: Opcode, k: nat)
    requires k <= Position(opcode)
    requires Matches(DECODE_VECTOR[Position(opcode)], word)
    ensures Scan(word, k) == Operands(opcode, word)
    decreases Position(opcode) - k
  {
    hide DECODE_VECTOR, Matches, Operands;
    if k < Position(opcode) {
      var other := DECODE_VECTOR[k].opcode;
      OpcodeOf(k);
      if Matches(DECODE_VECTOR[k], word) {
        Unambiguous(other, opcode, word);
        assert false;
      }
      ScanSkips(word, opcode, k + 1);
    }
  }

  /** Decoding does not depend on table order: the fixed fields alone decide. */
  lemma DecodeFixed(word: Word, opcode: Opcode)
    requires HasFixed(opcode, word)
    ensures Decode(word) == Operands(opcode, word)
  {
    hide HasFixed, Matches, Operands;
    MatchesIsFixed(opcode, word);
    ScanSkips(word, opcode, 0);
  }

  /** An entry without a minor field is decided by the major opcode. */
  lemma MajorDecides(word: Word, opcode: Opcode)
    requires Fixed(opcode).offset == Fixed(opcode).width == Fixed(opcode).minor == 0
    ensures HasFixed(opcode, word) <==> word / 0x400_0000 == Fixed(opcode).major
  {
    hide Fixed;
    assert word / 1 % 1 == 0;
  }

  // ---- byte by byte ----

  /** One more byte below a number. */
  function Append(high: nat, b: Byte): nat {
    0x100 * high + b
  }

  lemma AndBytes(ah: nat, al: Byte, bh: nat, bl: Byte)
    ensures And(Append(ah, al), Append(bh, bl)) == Append(And(ah, bh), And(al, bl))
  {
    hide And, Shl, Pow2;
    Pow2Values();
    AndFields(ah, al, bh, bl, 8);
    ShlIsProduct(ah, 8);
    ShlIsProduct(bh, 8);
    ShlIsProduct(And(ah, bh), 8);
  }

  /** The four bytes determine the word. */
  lemma BytesUnique(a0: Byte, a1: Byte, a2: Byte, a3: Byte, b0: Byte, b1: Byte, b2: Byte, b3: Byte)
    ensures DecodeLittleEndianWord(a0, a1, a2, a3) == DecodeLittleEndianWord(b0, b1, b2, b3)
       <==> a0 == b0 && a1 == b1 && a2 == b2 && a3 == b3
  {
    var (a, b) := (0x100 * a3 + a2, 0x100 * b3 + b2);
    LastByte(0x100 * a + a1, a0, 0x100 * b + b1, b0);
    LastByte(a, a1, b, b1);
    LastByte(a3, a2, b3, b2);
  }

  lemma LastByte(ah: nat, al: Byte, bh: nat, bl: Byte)
    ensures 0x100 * ah + al == 0x100 * bh + bl <==> ah == bh && al == bl
  {
    DivModUnique(0x100 * ah + al, 0x100, ah, al);
    DivModUnique(0x100 * bh + bl, 0x100, bh, bl);
  }

  /** `&` of two words works on their bytes. */
  lemma AndOfBytes(a0: Byte, a1: Byte, a2: Byte, a3: Byte, b0: Byte, b1: Byte, b2: Byte, b3: Byte)
    ensures And(DecodeLittleEndianWord(a0, a1, a2, a3), DecodeLittleEndianWord(b0, b1, b2, b3))
         == DecodeLittleEndianWord(And(a0, b0), And(a1, b1), And(a2, b2), And(a3, b3))
  {
    hide And, Append, DecodeLittleEndianWord;
    NestedBytes(a0, a1, a2, a3);
    NestedBytes(b0, b1, b2, b3);
    NestedBytes(And(a0, b0), And(a1, b1), And(a2, b2), And(a3, b3));
    AndBytes(a3, a2, b3, b2);
    AndBytes(Append(a3, a2), a1, Append(b3, b2), b1);
    AndBytes(Append(Append(a3, a2), a1), a0, Append(Append(b3, b2), b1), b0);
  }

  lemma NestedBytes(b0: Byte, b1: Byte, b2: Byte, b3: Byte)
    ensures DecodeLittleEndianWord(b0, b1, b2, b3) == Append(Append(Append(b3, b2), b1), b0)
  {
  }

  /** Byte `j` of a word meets an entry. */
  predicate ByteMatches(info: DecodeInfo, j: nat, b: Byte)
    requires j < 4
  {
    And(b, LittleEndianByte(info.mask, j)) == LittleEndianByte(info.reference, j)
  }

  /** A word matches an entry exactly when each of its bytes does. */
  lemma MatchesBytewise(info: DecodeInfo, b0: Byte, b1: Byte, b2: Byte, b3: Byte)
    ensures Matches(info, DecodeLittleEndianWord(b0, b1, b2, b3))
       <==> ByteMatches(info, 0, b0) && ByteMatches(info, 1, b1) && ByteMatches(info, 2, b2) && ByteMatches(info, 3, b3)
  {
    hide And, LittleEndianByte, DecodeLittleEndianWord;
    var (m, r) := (info.mask, info.reference);
    var (m0, m1) := (LittleEndianByte(m, 0), LittleEndianByte(m, 1));
    var (m2, m3) := (LittleEndianByte(m, 2), LittleEndianByte(m, 3));
    LittleEndianRoundTrip(m);
    LittleEndianRoundTrip(r);
    AndOfBytes(b0, b1, b2, b3, m0, m1, m2, m3);
    BytesUnique(And(b0, m0), And(b1, m1), And(b2, m2), And(b3, m3), LittleEndianByte(r, 0), LittleEndianByte(r, 1),
                LittleEndianByte(r, 2), LittleEndianByte(r, 3));
  }

  /** The reference of an entry is a word that matches it. */
  lemma ReferenceMatches(opcode: Opcode)
    ensures var info := DECODE_VECTOR[Position(opcode)]; Matches(info, info.reference)
  {
    hide DECODE_VECTOR, Position, Fixed, And, Low, Shr, Shl, Pow2;
    var f, w := Fixed(opcode), DECODE_VECTOR[Position(opcode)].reference;
    TableLayout(opcode);
    FieldBelow(f.minor, f.offset, f.width);
    Fields(f.major, Shl(f.minor, f.offset), 26);
    Fields(f.minor, 0, f.offset);
    ShrOfLow(w, f.offset, 26);
    LowLow(Shr(w, f.offset), f.width, 26 - f.offset);
    LowOfSmall(f.minor, f.width);
    MaskSelects(w, f);
  }

  /** Writing the reference's byte makes any byte match. */
  lemma ReferenceByteMatches(opcode: Opcode, j: nat)
    requires j < 4
    ensures var info := DECODE_VECTOR[Position(opcode)]; ByteMatches(info, j, LittleEndianByte(info.reference, j))
  {
    hide DECODE_VECTOR, Position, Matches, ByteMatches, LittleEndianByte, DecodeLittleEndianWord;
    var info := DECODE_VECTOR[Position(opcode)];
    var r := info.reference;
    ReferenceMatches(opcode);
    LittleEndianRoundTrip(r);
    MatchesBytewise(info, LittleEndianByte(r, 0), LittleEndianByte(r, 1), LittleEndianByte(r, 2),
                    LittleEndianByte(r, 3));
  }

  lemma {:induction false} ScanMisses(word: Word, k: nat)
    requires k <= |DECODE_VECTOR|
    requires forall opcode :: !HasFixed(opcode, word)
    ensures Scan(word, k) == Instr.Invalid
    decreases |DECODE_VECTOR| - k
  {
    hide DECODE_VECTOR, Matches, Operands, HasFixed;
    if k < |DECODE_VECTOR| {
      OpcodeOf(k);
      MatchesIsFixed(DECODE_VECTOR[k].opcode, word);
      ScanMisses(word, k + 1);
    }
  }

  lemma OperandsAreValid(word: Word, opcode: Opcode)
    ensures !Operands(opcode, word).Invalid?
  {
  }

  /** A word decodes to INVALID exactly when no entry has its fixed fields. */
  lemma DecodeInvalid(word: Word)
    ensures Decode(word).Invalid? <==> forall opcode :: !HasFixed(opcode, word)
  {
    hide DECODE_VECTOR, Scan, Operands, HasFixed;
    if opcode :| HasFixed(opcode, word) {
      DecodeFixed(word, opcode);
      OperandsAreValid(word, opcode);
    } else {
      ScanMisses(word, 0);
    }
  }
}
