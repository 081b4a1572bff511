/**
  Machine words as integers, and the shifts and bitwise operators of the sources
  as functions on naturals that go through a number bit by bit.
*/
module Words {
  type Word = x: int | 0 <= x < 0x1_0000_0000
  type Byte = x: int | 0 <= x < 256
  type Reg = x: int | 0 <= x < 32

  /** Conversion to `uint32_t`: reduction modulo 2^32. */
  function Wrap(x: int): Word {
    x % 0x1_0000_0000
  }

  function Add32(a: Word, b: Word): Word {
    Wrap(a + b)
  }

  /** Two's complement reading of a word. */
  function ToSigned(a: Word): int {
    if a < 0x8000_0000 then a else a - 0x1_0000_0000
  }

  function Pow2(n: nat): (p: nat)
    ensures p >= 1
  {
    if n == 0 then 1 else 2 * Pow2(n - 1)
  }

  /** `<<` without a width limit. */
  function Shl(x: nat, k: nat): nat {
    if k == 0 then x else 2 * Shl(x, k - 1)
  }

  /** `>>` on an unsigned number. */
  function Shr(x: nat, k: nat): (r: nat)
    ensures r <= x
  {
    if k == 0 then x else Shr(x / 2, k - 1)
  }

  /** The low `k` bits. */
  function Low(x: nat, k: nat): (r: nat)
    ensures r < Pow2(k)
  {
    if k == 0 then 0 else x % 2 + 2 * Low(x / 2, k - 1)
  }

  /** Bit `k` of `x`, bit 0 being the least significant. */
  predicate Bit(x: nat, k: nat) {
    Shr(x, k) % 2 == 1
  }

  /** The bitwise operator `&`. */
  function And(a: nat, b: nat): (r: nat)
    ensures r <= a && r <= b
  {
    if a == 0 || b == 0 then 0
    else (if a % 2 == 1 && b % 2 == 1 then 1 else 0) + 2 * And(a / 2, b / 2)
  }

  /** The bitwise operator `|`. */
  function Or(a: nat, b: nat): (r: nat)
    ensures a <= r && b <= r <= a + b
  {
    if a == 0 then b
    else if b == 0 then a
    else (if a % 2 == 1 || b % 2 == 1 then 1 else 0) + 2 * Or(a / 2, b / 2)
  }

  /** The bitwise operator `~` on `uint32_t`. */
  function Not32(a: Word): Word {
    0xFFFF_FFFF - a
  }

  function Or32(a: Word, b: Word): (r: Word)
    ensures r == Or(a, b)
  {
    Pow2Values();
    OrBound(a, b, 32);
    Or(a, b)
  }

  // ---- powers of two ----

  lemma MulTwice(h: int, p: int)
    ensures h * (2 * p) == 2 * (h * p)
  {
  }

  lemma {:induction false} Pow2Add(a: nat, b: nat)
    ensures Pow2(a + b) == Pow2(a) * Pow2(b)
  {
    if a != 0 {
      Pow2Add(a - 1, b);
      assert Pow2(a + b) == 2 * Pow2(a - 1 + b);
      MulTwice(Pow2(b), Pow2(a - 1));
    }
  }

  lemma Pow2Mono(a: nat, b: nat)
    requires a <= b
    ensures Pow2(a) <= Pow2(b)
    ensures a < b ==> 2 * Pow2(a) <= Pow2(b)
  {
    if a < b {
      Pow2Mono(a, b - 1);
    }
  }

  /** The powers that occur in instruction layouts. */
  lemma Pow2Values()
    ensures Pow2(0) == 1 && Pow2(2) == 4 && Pow2(4) == 0x10 && Pow2(5) == 0x20 && Pow2(6) == 0x40
    ensures Pow2(8) == 0x100 && Pow2(11) == 0x800 && Pow2(14) == 0x4000 && Pow2(16) == 0x1_0000
    ensures Pow2(20) == 0x10_0000 && Pow2(21) == 0x20_0000 && Pow2(26) == 0x400_0000
    ensures Pow2(28) == 0x1000_0000 && Pow2(30) == 0x4000_0000
    ensures Pow2(31) == 0x8000_0000 && Pow2(32) == 0x1_0000_0000
  {
    assert Pow2(2) == 4;
    Pow2Add(2, 2);
    Pow2Add(4, 1);
    Pow2Add(4, 2);
    Pow2Add(4, 4);
    Pow2Add(6, 5);
    Pow2Add(8, 6);
    Pow2Add(8, 8);
    Pow2Add(16, 4);
    Pow2Add(16, 5);
    Pow2Add(20, 6);
    Pow2Add(20, 8);
    Pow2Add(16, 14);
    Pow2Add(26, 5);
    Pow2Add(16, 16);
  }

  // ---- shifts as arithmetic ----

  lemma {:induction false} ShlIsProduct(x: nat, k: nat)
    ensures Shl(x, k) == x * Pow2(k)
  {
    if k != 0 {
      ShlIsProduct(x, k - 1);
      MulTwice(x, Pow2(k - 1));
    }
  }

  lemma {:induction false} ShlShl(x: nat, j: nat, k: nat)
    ensures Shl(Shl(x, j), k) == Shl(x, j + k)
  {
    if k != 0 {
      ShlShl(x, j, k - 1);
    }
  }

  /** A number is its high bits followed by its low bits. */
  lemma {:induction false} HighLow(x: nat, k: nat)
    ensures x == Shl(Shr(x, k), k) + Low(x, k)
  {
    if k != 0 {
      HighLow(x / 2, k - 1);
    }
  }

  /** The split into high and low bits is unique. */
  lemma {:induction false} Fields(hi: nat, lo: nat, k: nat)
    requires lo < Pow2(k)
    ensures Shr(Shl(hi, k) + lo, k) == hi
    ensures Low(Shl(hi, k) + lo, k) == lo
  {
    if k != 0 {
      Fields(hi, lo / 2, k - 1);
      assert (Shl(hi, k) + lo) / 2 == Shl(hi, k - 1) + lo / 2;
    }
  }

  lemma DivModUnique(x: int, d: int, q: int, r: int)
    requires 0 <= r < d
    requires x == q * d + r
    ensures x / d == q && x % d == r
  {
    var e := x / d - q;
    assert e * d == r - x % d;
    MulBound(e, d);
  }

  lemma MulBound(e: int, d: int)
    requires d >= 0
    ensures e >= 1 ==> e * d >= d
    ensures e <= -1 ==> e * d <= -d
  {
    assert e * d - d == (e - 1) * d;
    assert e * d + d == (e + 1) * d;
  }

  /** High and low bits as quotient and remainder. */
  lemma {:induction false} ShiftIsDivision(x: nat, k: nat)
    ensures Shr(x, k) == x / Pow2(k)
    ensures Low(x, k) == x % Pow2(k)
  {
    HighLow(x, k);
    ShlIsProduct(Shr(x, k), k);
    DivModUnique(x, Pow2(k), Shr(x, k), Low(x, k));
  }

  lemma {:induction false} LowOfSmall(x: nat, k: nat)
    requires x < Pow2(k)
    ensures Low(x, k) == x && Shr(x, k) == 0
  {
    if k != 0 {
      LowOfSmall(x / 2, k - 1);
    }
  }

  /** The top bit of the low k+1 bits. */
  lemma {:induction false} TopBit(x: nat, k: nat)
    ensures Low(x, k + 1) == Low(x, k) + (if Bit(x, k) then Pow2(k) else 0)
  {
    if k != 0 {
      TopBit(x / 2, k - 1);
    }
  }

  // ---- bitwise operators as arithmetic ----

  lemma AndStep(a: nat, b: nat)
    ensures And(a, b) == (if a % 2 == 1 && b % 2 == 1 then 1 else 0) + 2 * And(a / 2, b / 2)
  {
  }

  /** `&` of two numbers given by their lowest bits and their halves. */
  lemma AndHalves(p: nat, x: nat, q: nat, y: nat)
    requires p <= 1 && q <= 1
    ensures And(p + 2 * x, q + 2 * y) == (if p == 1 && q == 1 then 1 else 0) + 2 * And(x, y)
  {
    AndStep(p + 2 * x, q + 2 * y);
    assert (p + 2 * x) / 2 == x && (q + 2 * y) / 2 == y;
  }

  /** A mask of ones keeps the low bits. */
  lemma {:induction false} AndOnes(a: nat, n: nat)
    ensures And(a, Pow2(n) - 1) == Low(a, n)
  {
    hide And;
    if n != 0 {
      AndHalves(a % 2, a / 2, 1, Pow2(n - 1) - 1);
      AndOnes(a / 2, n - 1);
    }
  }

  /** `&` works on the high and on the low fields separately. */
  lemma {:induction false} AndFields(ah: nat, al: nat, bh: nat, bl: nat, k: nat)
    requires al < Pow2(k) && bl < Pow2(k)
    ensures And(Shl(ah, k) + al, Shl(bh, k) + bl) == Shl(And(ah, bh), k) + And(al, bl)
  {
    hide And;
    if k != 0 {
      var a, b := Shl(ah, k - 1) + al / 2, Shl(bh, k - 1) + bl / 2;
      AndFields(ah, al / 2, bh, bl / 2, k - 1);
      AndHalves(al % 2, a, bl % 2, b);
      AndHalves(al % 2, al / 2, bl % 2, bl / 2);
      assert al == al % 2 + 2 * (al / 2) && bl == bl % 2 + 2 * (bl / 2);
    }
  }

  /** A one-bit mask tests one bit. */
  lemma {:induction false} AndBit(a: nat, k: nat)
    ensures And(a, Pow2(k)) == if Bit(a, k) then Pow2(k) else 0
  {
    AndStep(a, Pow2(k));
    if k != 0 {
      AndBit(a / 2, k - 1);
    }
  }

  lemma OrStep(a: nat, b: nat)
    ensures Or(a, b) == (if a % 2 == 1 || b % 2 == 1 then 1 else 0) + 2 * Or(a / 2, b / 2)
  {
  }

  /** `|` of fields that do not overlap is their sum. */
  lemma {:induction false} OrDisjoint(hi: nat, lo: nat, k: nat)
    requires lo < Pow2(k)
    ensures Or(Shl(hi, k), lo) == Shl(hi, k) + lo
    ensures Or(lo, Shl(hi, k)) == Shl(hi, k) + lo
  {
    hide Or;
    if k != 0 {
      OrDisjoint(hi, lo / 2, k - 1);
      OrStep(Shl(hi, k), lo);
      OrStep(lo, Shl(hi, k));
    }
  }

  /** `|` bit by bit. */
  lemma {:induction false} OrBits(a: nat, b: nat, k: nat)
    ensures Bit(Or(a, b), k) <==> Bit(a, k) || Bit(b, k)
  {
    hide Or;
    OrStep(a, b);
    if k != 0 {
      OrBits(a / 2, b / 2, k - 1);
    }
  }

  /** A bit as a digit. */
  lemma BitMeaning(x: nat, k: nat)
    ensures Bit(x, k) <==> x / Pow2(k) % 2 == 1
  {
    ShiftIsDivision(x, k);
  }

  lemma {:induction false} OrBound(a: nat, b: nat, n: nat)
    requires a < Pow2(n) && b < Pow2(n)
    ensures Or(a, b) < Pow2(n)
  {
    if n != 0 {
      OrBound(a / 2, b / 2, n - 1);
      OrStep(a, b);
    }
  }
}
