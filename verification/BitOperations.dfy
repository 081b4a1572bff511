/**
  The bit operations of the executor: count leading zeros, signed saturation,
  rotation and bit compression.
*/
module BitOperations {
  import opened Words
  import opened BitUtils

  // ---- count leading zeros ----

  /** Leading zeros of a 32-bit word: one fewer for every halving that leaves a bit. */
  function LeadingZeros(value: nat): int {
    if value == 0 then 32 else LeadingZeros(value / 2) - 1
  }

  /** The count is the one that puts the highest set bit at position 31 - count. */
  lemma {:induction false} LeadingZerosMeaning(value: nat, count: nat)
    requires count <= 31 && Pow2(31 - count) <= value < Pow2(32 - count)
    ensures LeadingZeros(value) == count
  {
    if value / 2 != 0 {
      LeadingZerosMeaning(value / 2, count + 1);
    }
  }

  method CountLeadingZeros(value: Word) returns (count: Word)
    ensures count == LeadingZeros(value)
    ensures value == 0 ==> count == 32
    ensures value != 0 ==> count < 32 && Pow2(31 - count) <= value < Pow2(32 - count)
  {
    Pow2Values();
    count := 0;
    var mask: Word := 0x8000_0000;
    while mask != 0 && And(value, mask) == 0
      invariant count <= 32
      invariant mask == if count == 32 then 0 else Pow2(31 - count)
      invariant value < Pow2(32 - count)
      decreases 32 - count
    {
      SignBitIsHalf(value, 32 - count);
      mask := mask / 2;
      count := count + 1;
    }
    if count < 32 {
      SignBitIsHalf(value, 32 - count);
      LeadingZerosMeaning(value, count);
    }
  }

  lemma LeadingZerosBound(value: Word)
    ensures 0 <= LeadingZeros(value) <= 32
    ensures value != 0 ==> LeadingZeros(value) < 32
  {
    Pow2Values();
    LeadingZerosBelow(value, 32);
  }

  lemma {:induction false} LeadingZerosBelow(value: nat, bits: nat)
    requires bits <= 32 && value < Pow2(bits)
    ensures 32 - bits <= LeadingZeros(value) <= 32
    ensures value != 0 ==> LeadingZeros(value) < 32
  {
    if value != 0 {
      LeadingZerosBelow(value / 2, bits - 1);
    }
  }

  function Clz32(value: Word): Word {
    LeadingZerosBound(value);
    LeadingZeros(value)
  }

  // ---- signed saturation ----

  predicate ValidWidth(width: Word) {
    0 < width < 32
  }

  /** Saturation by unsigned comparison, as the interpreters compute it. */
  function SaturateSigned(value: Word, width: Word): Word
    requires ValidWidth(width)
  {
    var maximum := MakeMask(width - 1);
    var minimum := Not32(maximum);
    if And(value, Shl32(1, 31)) == 0 then
      if value > maximum then maximum else value
    else
      if value < minimum then minimum else value
  }

  function Clamp(x: int, low: int, high: int): int {
    if x < low then low else if x > high then high else x
  }

  /** Saturation is the clamp of the signed value to the signed range of `width` bits. */
  lemma SaturateIsClamp(value: Word, width: Word)
    requires ValidWidth(width)
    ensures ToSigned(SaturateSigned(value, width))
         == Clamp(ToSigned(value), 0 - Pow2(width - 1), Pow2(width - 1) - 1)
    ensures SaturateSigned(value, width)
         == Wrap(Clamp(ToSigned(value), 0 - Pow2(width - 1), Pow2(width - 1) - 1))
  {
    hide And;
    Pow2Values();
    Shl32One(31);
    SignBitIsHalf(value, 32);
    Pow2Mono(width - 1, 30);
  }

  // ---- rotation ----

  function RotateRight(value: Word, shift: nat): Word
    requires shift < 32
  {
    if shift == 0 then value else Or32(Shr(value, shift), Shl32(value, 32 - shift))
  }

  /** The low `shift` bits move to the top, the others move down. */
  lemma RotateMeaning(value: Word, shift: nat)
    requires shift < 32
    ensures RotateRight(value, shift) == Shl(Low(value, shift), 32 - shift) + Shr(value, shift)
  {
    hide Or, Shr, Low;
    var hi, lo, rest := Shr(value, shift), Low(value, shift), 32 - shift;
    HighLow(value, shift);
    if shift == 0 {
      RotateZero(value);
    } else {
      Pow2Values();
      ShrBound(value, shift, 32);
      RotateLeftPart(value, shift);
      OrDisjoint(lo, hi, rest);
    }
  }

  /** Shifting left by 32 - shift drops the high bits. */
  lemma RotateLeftPart(value: Word, shift: nat)
    requires 0 < shift < 32
    ensures Shl32(value, 32 - shift) == Shl(Low(value, shift), 32 - shift)
  {
    hide Shr, Low;
    var hi, lo, rest := Shr(value, shift), Low(value, shift), 32 - shift;
    HighLow(value, shift);
    ShlSum(Shl(hi, shift), lo, rest);
    ShlShl(hi, shift, rest);
    ShlIsProduct(hi, 32);
    LowShlBound(lo, shift, 32);
    Pow2Values();
  }

  lemma RotateZero(value: Word)
    ensures Shl(Low(value, 0), 32) + Shr(value, 0) == value
  {
    ShlIsProduct(0, 32);
  }

  lemma {:induction false} ShrBound(x: nat, k: nat, n: nat)
    requires k <= n && x < Pow2(n)
    ensures Shr(x, k) < Pow2(n - k)
  {
    if k != 0 {
      ShrBound(x / 2, k - 1, n - 1);
    }
  }

  lemma {:induction false} LowShlBound(lo: nat, k: nat, n: nat)
    requires k <= n && lo < Pow2(k)
    ensures Shl(lo, n - k) < Pow2(n)
    decreases n - k
  {
    if k < n {
      LowShlBound(2 * lo, k + 1, n);
      ShlShl(lo, 1, n - k - 1);
      assert Shl(lo, 1) == 2 * lo;
    }
  }

  lemma {:induction false} ShlSum(x: nat, y: nat, k: nat)
    ensures Shl(x + y, k) == Shl(x, k) + Shl(y, k)
  {
    if k != 0 {
      ShlSum(x, y, k - 1);
    }
  }

  // ---- bit compression ----

  function PopCount(mask: nat): nat {
    if mask == 0 then 0 else mask % 2 + PopCount(mask / 2)
  }

  /** The bits of `value` at the set positions of `mask`, gathered from the lowest up. */
  function Compress(value: nat, mask: nat): (r: nat)
    ensures r <= value
    decreases mask
  {
    if mask == 0 then 0
    else if mask % 2 == 1 then value % 2 + 2 * Compress(value / 2, mask / 2)
    else Compress(value / 2, mask / 2)
  }

  function Compress32(value: Word, mask: Word): Word {
    Compress(value, mask)
  }

  /** Position of set bit number `k` of `mask`, counted from the lowest. */
  function NthSet(mask: nat, k: nat): nat
    requires k < PopCount(mask)
  {
    if mask % 2 == 1 && k == 0 then 0
    else 1 + NthSet(mask / 2, if mask % 2 == 1 then k - 1 else k)
  }

  lemma {:induction false} NthSetIsSet(mask: nat, k: nat)
    requires k < PopCount(mask)
    ensures Bit(mask, NthSet(mask, k))
    ensures PopCount(Low(mask, NthSet(mask, k))) == k
  {
    if mask % 2 == 1 && k == 0 {
    } else {
      var j := if mask % 2 == 1 then k - 1 else k;
      NthSetIsSet(mask / 2, j);
      PopCountHalves(mask % 2, Low(mask / 2, NthSet(mask / 2, j)));
    }
  }

  lemma PopCountHalves(low: nat, high: nat)
    requires low <= 1
    ensures PopCount(low + 2 * high) == low + PopCount(high)
  {
    assert (low + 2 * high) / 2 == high && (low + 2 * high) % 2 == low;
  }

  /** Output bit `k` is the value bit at the k-th set mask position. */
  lemma {:induction false} CompressGathers(value: nat, mask: nat, k: nat)
    requires k < PopCount(mask)
    ensures Bit(Compress(value, mask), k) <==> Bit(value, NthSet(mask, k))
    decreases mask
  {
    var rest := Compress(value / 2, mask / 2);
    if mask % 2 == 1 && k == 0 {
      assert (value % 2 + 2 * rest) % 2 == value % 2;
    } else {
      var j := if mask % 2 == 1 then k - 1 else k;
      CompressGathers(value / 2, mask / 2, j);
      assert (value % 2 + 2 * rest) / 2 == rest;
    }
  }

  lemma {:induction false} CompressBound(value: nat, mask: nat)
    ensures Compress(value, mask) < Pow2(PopCount(mask))
    decreases mask
  {
    if mask != 0 {
      CompressBound(value / 2, mask / 2);
    }
  }

  /** One more mask position adds at most one output bit, above the others. */
  lemma {:induction false} CompressTop(value: nat, mask: nat, i: nat)
    ensures PopCount(Low(mask, i + 1)) == PopCount(Low(mask, i)) + (if Bit(mask, i) then 1 else 0)
    ensures Compress(value, Low(mask, i + 1))
         == Compress(value, Low(mask, i))
            + (if Bit(mask, i) && Bit(value, i) then Pow2(PopCount(Low(mask, i))) else 0)
    decreases i
  {
    hide PopCount, Compress;
    if i == 0 {
      CompressStep(value, mask % 2, 0);
      CompressNothing(value);
      CompressNothing(value / 2);
    } else {
      CompressTop(value / 2, mask / 2, i - 1);
      CompressStep(value, mask % 2, Low(mask / 2, i - 1));
      CompressStep(value, mask % 2, Low(mask / 2, i));
    }
  }

  lemma CompressNothing(value: nat)
    ensures PopCount(0) == 0 && Compress(value, 0) == 0
  {
  }

  lemma CompressStep(value: nat, b: nat, rest: nat)
    requires b <= 1
    ensures PopCount(b + 2 * rest) == b + PopCount(rest)
    ensures Compress(value, b + 2 * rest)
         == if b == 1 then value % 2 + 2 * Compress(value / 2, rest) else Compress(value / 2, rest)
  {
    PopCountHalves(b, rest);
    assert (b + 2 * rest) / 2 == rest && (b + 2 * rest) % 2 == b;
  }

  lemma MaskTest(mask: Word, i: nat)
    requires i < 32
    ensures And(mask, Shl32(1, i)) != 0 <==> Bit(mask, i)
  {
    Shl32One(i);
    AndBit(mask, i);
  }

  /** Or-ing one bit in above `result` adds it. */
  lemma PlaceBit(result: Word, value: Word, i: nat, o: nat)
    requires result < Pow2(o) && o < 32
    ensures And(Shr(value, i), 1) <= 1
    ensures Or32(result, Shl32(And(Shr(value, i), 1), o)) == result + (if Bit(value, i) then Pow2(o) else 0)
  {
    hide And, Or;
    var bit := Shr(value, i) % 2;
    AndOnes(Shr(value, i), 1);
    assert Pow2(1) == 2;
    Shl32One(o);
    ShlIsProduct(bit, o);
    OrDisjoint(bit, result, o);
  }

  method CompressBits(value: Word, mask: Word) returns (result: Word)
    ensures result == Compress(value, mask)
  {
    result := 0;
    var outputBit := 0;
    var inputBit := 0;
    while inputBit < 32
      invariant 0 <= inputBit <= 32
      invariant outputBit == PopCount(Low(mask, inputBit)) <= inputBit
      invariant result == Compress(value, Low(mask, inputBit)) < Pow2(outputBit)
    {
      CompressTop(value, mask, inputBit);
      MaskTest(mask, inputBit);
      if And(mask, Shl32(1, inputBit)) != 0 {
        var bit := And(Shr(value, inputBit), 1);
        PlaceBit(result, value, inputBit, outputBit);
        result := Or32(result, Shl32(bit, outputBit));
        outputBit := outputBit + 1;
      }
      inputBit := inputBit + 1;
    }
    Pow2Values();
    LowOfSmall(mask, 32);
  }
}
