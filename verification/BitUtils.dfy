/** Field extraction, sign extension and the little-endian word codec. */
module BitUtils {
  import opened Words

  function MakeMask(width: nat): (mask: Word)
    requires width <= 32
    ensures mask == Pow2(width) - 1
  {
    Pow2Values();
    Pow2Mono(width, 32);
    if width == 32 then 0xFFFF_FFFF
    else
      Shl32One(width);
      Shl32(1, width) - 1
  }

  /** `uint32_t` shift to the left. */
  function Shl32(x: Word, k: nat): (r: Word)
    ensures Shl(x, k) < 0x1_0000_0000 ==> r == Shl(x, k)
  {
    Wrap(Shl(x, k))
  }

  lemma Shl32One(k: nat)
    requires k < 32
    ensures Shl32(1, k) == Pow2(k)
  {
    ShlIsProduct(1, k);
    Pow2Mono(k, 31);
    Pow2Values();
  }

  function ExtractBits(word: Word, offset: nat, width: nat): nat
    requires offset <= 32 && width <= 32 - offset
  {
    if offset == 32 then 0 else And(Shr(word, offset), MakeMask(width))
  }

  /** A field is a quotient reduced to its width. */
  lemma ExtractBitsMeaning(word: Word, offset: nat, width: nat)
    requires offset <= 32 && width <= 32 - offset
    ensures ExtractBits(word, offset, width) == Low(Shr(word, offset), width) == word / Pow2(offset) % Pow2(width)
  {
    hide And, Shr, Low;
    AndOnes(Shr(word, offset), width);
    ShiftIsDivision(word, offset);
    ShiftIsDivision(Shr(word, offset), width);
    if offset == 32 {
      LowOfSmall(0, 0);
    }
  }

  function SignExtend(value: Word, width: nat): Word
    requires 0 < width <= 32
  {
    var mask := MakeMask(width);
    var low := And(value, mask);
    if width == 32 then low
    else if And(low, Shl32(1, width - 1)) != 0 then Or32(low, Not32(mask))
    else low
  }

  /** Ones above a field of the given width. */
  lemma HighOnes(width: nat)
    requires width <= 32
    ensures Not32(MakeMask(width)) == Shl(Pow2(32 - width) - 1, width)
  {
    var p, q := Pow2(32 - width), Pow2(width);
    ShlIsProduct(p - 1, width);
    Pow2Add(32 - width, width);
    Pow2Values();
    assert (p - 1) * q == p * q - q;
  }

  /** Bit width-1 of a number below 2^width says whether it is in the upper half. */
  lemma SignBitIsHalf(low: nat, width: nat)
    requires 0 < width && low < Pow2(width)
    ensures Bit(low, width - 1) <==> Pow2(width - 1) <= low
    ensures And(low, Pow2(width - 1)) != 0 <==> Pow2(width - 1) <= low
  {
    hide And;
    AndBit(low, width - 1);
    TopBit(low, width - 1);
    LowOfSmall(low, width);
    if low < Pow2(width - 1) {
      LowOfSmall(low, width - 1);
    }
  }

  /** Sign extension keeps the two's complement value of the low bits. */
  lemma SignExtendMeaning(value: Word, width: nat)
    requires 0 < width <= 32
    ensures var low := Low(value, width);
      SignExtend(value, width) == if low < Pow2(width - 1) then low else low + 0x1_0000_0000 - Pow2(width)
  {
    hide And, Or, Low;
    var low := Low(value, width);
    AndOnes(value, width);
    SignBitIsHalf(low, width);
    if width == 32 {
      Pow2Values();
    } else {
      Shl32One(width - 1);
      HighOnes(width);
      OrDisjoint(Pow2(32 - width) - 1, low, width);
    }
  }

  /** A signed immediate survives truncation to its field and sign extension. */
  lemma SignExtendTruncated(immediate: int, width: nat)
    requires 0 < width < 32
    requires 0 - Pow2(width - 1) <= immediate < Pow2(width - 1)
    ensures 0 <= immediate % Pow2(width) < 0x1_0000_0000
    ensures SignExtend(immediate % Pow2(width), width) == Wrap(immediate)
  {
    hide SignExtend, Low;
    TruncatedField(immediate, Pow2(width));
    Pow2Mono(width, 31);
    Pow2Values();
    LowOfSmall(immediate % Pow2(width), width);
    SignExtendMeaning(immediate % Pow2(width), width);
  }

  lemma TruncatedField(immediate: int, p: nat)
    requires p > 0 && 0 - p <= immediate < p
    ensures immediate % p == if immediate >= 0 then immediate else immediate + p
  {
    var field := if immediate >= 0 then immediate else immediate + p;
    DivModUnique(immediate, p, if immediate >= 0 then 0 else -1, field);
  }

  function DecodeLittleEndianWord(b0: Byte, b1: Byte, b2: Byte, b3: Byte): Word {
    b0 + 0x100 * b1 + 0x1_0000 * b2 + 0x100_0000 * b3
  }

  /** Byte `k` of the memory image of a word. */
  function LittleEndianByte(value: Word, k: nat): Byte
    requires k < 4
  {
    if k == 0 then value % 0x100
    else if k == 1 then value / 0x100 % 0x100
    else if k == 2 then value / 0x1_0000 % 0x100
    else value / 0x100_0000
  }

  lemma LittleEndianRoundTrip(value: Word)
    ensures DecodeLittleEndianWord(LittleEndianByte(value, 0), LittleEndianByte(value, 1),
                                   LittleEndianByte(value, 2), LittleEndianByte(value, 3)) == value
  {
    assert value / 0x100 / 0x100 == value / 0x1_0000;
    assert value / 0x1_0000 / 0x100 == value / 0x100_0000;
  }
}
