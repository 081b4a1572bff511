/** What every instruction leaves, in integer arithmetic. */
module InstructionLaws {
  import opened Words
  import opened BitOperations
  import opened Instructions
  import opened GuestMemory
  import opened MachineState
  import opened CacheSpec
  import opened Executor
  import opened CacheInvariants
  import opened MemoryLaws
  import opened CacheLaws
  import opened AssemblerProofs

  /** The next instruction's address. */
  function NextPc(m: Machine): int {
    (m.pc + 4) % 0x1_0000_0000
  }

  /** `after` differs from `m` in the value of one register and in the PC. */
  predicate SetsRegister(m: Machine, after: Machine, r: Reg, value: int) {
    && after.regs[r] == value
    && (forall q: int :: 0 <= q < 32 && q != r ==> after.regs[q] == m.regs[q])
    && after.pc == NextPc(m)
    && after.mem == m.mem && after.status == m.status && after.exitCode == m.exitCode
    && after.host == m.host && after.cache == m.cache
  }

  /** The instruction completes and sets one register. */
  predicate Sets(s: Step, m: Machine, r: Reg, value: int) {
    s.Ok? && SetsRegister(m, s.m, r, value)
  }

  lemma LiLaw(m: Machine, rt: Reg, imm: Word)
    ensures Sets(Exec(m, Li(rt, imm)), m, rt, imm)
  {
  }

  lemma AddLaw(m: Machine, rd: Reg, rs: Reg, rt: Reg)
    ensures Sets(Exec(m, Add(rd, rs, rt)), m, rd, (m.regs[rs] as int + m.regs[rt]) % 0x1_0000_0000)
  {
  }

  lemma AddiLaw(m: Machine, rt: Reg, rs: Reg, imm: Word)
    ensures Sets(Exec(m, Addi(rt, rs, imm)), m, rt, (m.regs[rs] as int + imm) % 0x1_0000_0000)
  {
  }

  /** Digit `k` of the result is one exactly when a digit `k` of the operands is. */
  lemma OrLaw(m: Machine, rd: Reg, rs: Reg, rt: Reg)
    ensures var s := Exec(m, OrReg(rd, rs, rt));
      && Sets(s, m, rd, s.m.regs[rd])
      && forall k :: 0 <= k < 32 ==>
           (s.m.regs[rd] / Pow2(k) % 2 == 1 <==> m.regs[rs] / Pow2(k) % 2 == 1 || m.regs[rt] / Pow2(k) % 2 == 1)
  {
    hide Or32, Pow2, Bit;
    var a, b := m.regs[rs], m.regs[rt];
    forall k | 0 <= k < 32
      ensures Or32(a, b) / Pow2(k) % 2 == 1 <==> a / Pow2(k) % 2 == 1 || b / Pow2(k) % 2 == 1
    {
      OrBits(a, b, k);
      BitMeaning(a, k);
      BitMeaning(b, k);
      BitMeaning(Or32(a, b), k);
    }
  }

  /** The result counts the zeros above the highest set digit; it is 32 for zero. */
  lemma ClzLaw(m: Machine, rd: Reg, rs: Reg)
    ensures var (s, x) := (Exec(m, Clz(rd, rs)), m.regs[rs]);
      && Sets(s, m, rd, s.m.regs[rd])
      && if x == 0 then s.m.regs[rd] == 32
         else s.m.regs[rd] < 32 && Pow2(31 - s.m.regs[rd]) <= x < Pow2(32 - s.m.regs[rd])
  {
    hide Clz32, Pow2;
    ClzBrackets(m.regs[rs]);
  }

  lemma ClzBrackets(x: Word)
    ensures if x == 0 then Clz32(x) == 32 else Clz32(x) < 32 && Pow2(31 - Clz32(x)) <= x < Pow2(32 - Clz32(x))
  {
    hide Pow2;
    Pow2Values();
    if x != 0 {
      HighestDigit(x, 32);
    } else {
      assert LeadingZeros(0) == 32;
    }
  }

  lemma {:induction false} HighestDigit(x: nat, bits: nat)
    requires 0 < x < Pow2(bits) && bits <= 32
    ensures 0 <= LeadingZeros(x) < 32 && Pow2(31 - LeadingZeros(x)) <= x < Pow2(32 - LeadingZeros(x))
  {
    LeadingZerosBelow(x, bits);
    if x / 2 != 0 {
      HighestDigit(x / 2, bits - 1);
    } else {
      assert x == 1 && LeadingZeros(0) == 32;
    }
  }

  /** The signed value is clamped to the signed range of `width` bits; other widths than 1 to 31 raise. */
  lemma SsatLaw(m: Machine, rd: Reg, rs: Reg, width: Word)
    ensures var s := Exec(m, Ssat(rd, rs, width));
      if width == 0 || width > 31 then s == Raise(m, INVALID_INSTRUCTION)
      else
        var (x: int, p) := (m.regs[rs], Pow2(width - 1));
        var signed := if x < 0x8000_0000 then x else x - 0x1_0000_0000;
        Sets(s, m, rd, (if signed < 0 - p then 0 - p else if signed > p - 1 then p - 1 else signed) % 0x1_0000_0000)
  {
    hide SaturateSigned, Pow2;
    if ValidWidth(width) {
      SaturateIsClamp(m.regs[rs], width);
    }
  }

  /** The low `shift` digits move to the top, the others down. */
  lemma RoriLaw(m: Machine, rd: Reg, rs: Reg, shift: Shift)
    ensures var x: int := m.regs[rs];
      Sets(Exec(m, Rori(rd, rs, shift)), m, rd, x / Pow2(shift) + x % Pow2(shift) * Pow2(32 - shift))
  {
    hide RotateRight, Shl, Shr, Low, Pow2;
    var x := m.regs[rs];
    RotateMeaning(x, shift);
    ShiftIsDivision(x, shift);
    ShlIsProduct(Low(x, shift), 32 - shift);
  }

  /** The positions below `n` at which a number has the digit one. */
  ghost function Ones(x: nat, n: nat): set<nat> {
    set k: nat | k < n && x / Pow2(k) % 2 == 1
  }

  lemma {:induction false} OnesCounted(x: nat, n: nat)
    ensures |Ones(x, n)| == PopCount(Low(x, n))
  {
    hide PopCount, Low, Bit, Pow2;
    if n == 0 {
      assert Ones(x, 0) == {};
      LowNothing(x);
    } else {
      OnesCounted(x, n - 1);
      CompressTop(0, x, n - 1);
      BitMeaning(x, n - 1);
      if Bit(x, n - 1) {
        assert Ones(x, n) == Ones(x, n - 1) + {n - 1};
      } else {
        assert Ones(x, n) == Ones(x, n - 1);
      }
    }
  }

  lemma LowNothing(x: nat)
    ensures PopCount(Low(x, 0)) == 0
  {
  }

  /** Gathering from the lowest `n` mask digits leaves the earlier output digits alone. */
  lemma {:induction false} GatheredDigit(value: nat, mask: nat, n: nat, p: nat)
    requires p < n && Bit(mask, p)
    ensures PopCount(Low(mask, p)) < PopCount(Low(mask, n))
    ensures Compress(value, Low(mask, n)) < Pow2(PopCount(Low(mask, n)))
    ensures Bit(Compress(value, Low(mask, n)), PopCount(Low(mask, p))) <==> Bit(value, p)
    decreases n
  {
    hide PopCount, Low, Bit, Pow2, Compress;
    CompressBound(value, Low(mask, n));
    CompressBound(value, Low(mask, n - 1));
    CompressTop(value, mask, n - 1);
    var j := PopCount(Low(mask, n - 1));
    if p < n - 1 {
      GatheredDigit(value, mask, n - 1, p);
      if Bit(mask, n - 1) && Bit(value, n - 1) {
        DigitAbove(Compress(value, Low(mask, n - 1)), j, PopCount(Low(mask, p)));
      }
    } else {
      TopDigit(Compress(value, Low(mask, n - 1)), j, Bit(value, p));
    }
  }

  /** Adding a higher power of two keeps a digit. */
  lemma {:induction false} DigitAbove(x: nat, j: nat, k: nat)
    requires k < j
    ensures Bit(x + Pow2(j), k) == Bit(x, k)
  {
    if k != 0 {
      assert (x + Pow2(j)) / 2 == x / 2 + Pow2(j - 1);
      DigitAbove(x / 2, j - 1, k - 1);
    }
  }

  lemma {:induction false} TopDigit(x: nat, j: nat, b: bool)
    requires x < Pow2(j)
    ensures Bit(x + if b then Pow2(j) else 0, j) == b
  {
    if j != 0 {
      assert (x + Pow2(j)) / 2 == x / 2 + Pow2(j - 1);
      TopDigit(x / 2, j - 1, b);
    }
  }

  /**
    For every mask digit one, at position p, the output has at the position that counts
    the mask digits one below p the value's digit p; the output has no other digits.
  */
  lemma BextLaw(m: Machine, rd: Reg, rs: Reg, rt: Reg)
    ensures var (s, value, mask) := (Exec(m, Bext(rd, rs, rt)), m.regs[rs], m.regs[rt]);
      && Sets(s, m, rd, s.m.regs[rd])
      && s.m.regs[rd] < Pow2(|Ones(mask, 32)|)
      && forall p :: 0 <= p < 32 && mask / Pow2(p) % 2 == 1 ==>
           (s.m.regs[rd] / Pow2(|Ones(mask, p)|) % 2 == 1 <==> value / Pow2(p) % 2 == 1)
  {
    hide PopCount, Low, Shr, Pow2, Bit, Compress, Ones;
    var value, mask := m.regs[rs], m.regs[rt];
    Pow2Values();
    LowOfSmall(mask, 32);
    OnesCounted(mask, 32);
    CompressBound(value, mask);
    forall p | 0 <= p < 32 && mask / Pow2(p) % 2 == 1
      ensures Compress(value, mask) / Pow2(|Ones(mask, p)|) % 2 == 1 <==> value / Pow2(p) % 2 == 1
    {
      OnesCounted(mask, p);
      BitMeaning(mask, p);
      GatheredDigit(value, mask, 32, p);
      BitMeaning(value, p);
      BitMeaning(Compress(value, mask), PopCount(Low(mask, p)));
    }
  }

  // ---- memory ----

  /** Where a load reads. */
  function LoadAddress(m: Machine, i: Instr): int
    requires i.LdReg? || i.LdImm?
  {
    (m.regs[i.base] as int + if i.LdReg? then m.regs[i.rm] else i.imm) % 0x1_0000_0000
  }

  /** A load sets its register to the word, or raises and leaves everything as it was. */
  lemma LoadLaw(m: Machine, i: Instr)
    requires i.LdReg? || i.LdImm?
    ensures var (s, a) := (Exec(m, i), LoadAddress(m, i));
      match AccessError(m.mem, a)
      case Failed(code) => s == Raise(m, code)
      case Done(_) => Sets(s, m, i.rt, WordValue(m.mem.bytes, a))
  {
    hide Read32, WordValue;
    ReadLaw(m.mem, LoadAddress(m, i));
  }

  /** `after` differs from `m` in its memory at most. */
  predicate SameButMemory(m: Machine, after: Machine) {
    after == m.(mem := after.mem)
  }

  /** A store puts its register into memory, or raises and leaves everything as it was. */
  lemma StLaw(m: Machine, rt: Reg, base: Reg, imm: Word)
    ensures var (s, a: int) := (Exec(m, St(rt, base, imm)), (m.regs[base] as int + imm) % 0x1_0000_0000);
      match AccessError(m.mem, a)
      case Failed(code) => s == Raise(m, code)
      case Done(_) =>
        && s.Ok? && SameButMemory(m.(pc := s.m.pc), s.m) && s.m.pc == NextPc(m)
        && Stored(m.mem, a, m.regs[rt], s.m.mem)
  {
    hide Write32, Stored;
    WriteLaw(m.mem, Add32(m.regs[base], imm), m.regs[rt]);
  }

  /** A store pair puts two registers into two words; if the second fails, the first stays stored. */
  lemma StpLaw(m: Machine, rt: Reg, rt2: Reg, base: Reg, imm: Word) returns (half: Mem)
    ensures var (s, a: int) := (Exec(m, Stp(rt, rt2, base, imm)), (m.regs[base] as int + imm) % 0x1_0000_0000);
      var b: int := (a + 4) % 0x1_0000_0000;
      match AccessError(m.mem, a)
      case Failed(code) => s == Raise(m, code)
      case Done(_) =>
        && Stored(m.mem, a, m.regs[rt], half)
        && match AccessError(half, b)
           case Failed(code) => s == Raise(m.(mem := half), code)
           case Done(_) =>
             && s.Ok? && SameButMemory(m.(pc := s.m.pc), s.m) && s.m.pc == NextPc(m)
             && Stored(half, b, m.regs[rt2], s.m.mem)
  {
    hide Write32, Stored;
    var a := Add32(m.regs[base], imm);
    WriteLaw(m.mem, a, m.regs[rt]);
    half := Store(m, a, m.regs[rt]).m.mem;
    WriteLaw(half, Add32(a, 4), m.regs[rt2]);
  }

  // ---- control flow ----

  /** A branch over `offset` instructions, counted from its own address, if the registers are equal. */
  lemma BeqLaw(m: Machine, rs: Reg, rt: Reg, offset: Word)
    ensures Exec(m, Beq(rs, rt, offset))
         == Ok(m.(pc := (m.pc + if m.regs[rs] == m.regs[rt] then 4 * offset else 4) % 0x1_0000_0000))
  {
    WrapSum(m.pc, offset * 4);
  }

  /** A jump to an instruction of the 2^28 bytes it lies in. */
  lemma JLaw(m: Machine, index: Word)
    requires index < 0x400_0000
    ensures Exec(m, J(index)) == Ok(m.(pc := m.pc / 0x1000_0000 * 0x1000_0000 + 4 * index))
  {
    hide JumpTarget;
    JumpLands(m.pc, index);
  }

  lemma InvalidLaw(m: Machine)
    ensures Exec(m, Invalid) == Raise(m, INVALID_INSTRUCTION)
  {
  }

  /** FLUSH empties the dirty list and invalidates exactly the blocks that a dirty range meets. */
  lemma FlushLaw(m: Machine)
    requires MachineOk(m)
    ensures var s := Exec(m, Flush);
      && s.Ok? && s.m == m.(pc := NextPc(m), mem := m.mem.(dirty := []), cache := s.m.cache)
      && forall a: Word :: Invalidates(m.cache, s.m.cache, a, SparedBy(m.cache, a, m.mem.dirty))
  {
    hide InvalidateAll, Invalidates, SparedBy, WellShaped;
    var after := Exec(m, Flush).m.cache;
    forall a: Word
      ensures Invalidates(m.cache, after, a, SparedBy(m.cache, a, m.mem.dirty))
    {
      if a in m.cache.blocks {
        BlockInside(m, a);
      }
      InvalidateAllLaw(m.cache, m.mem.dirty, a);
    }
  }

  lemma BlockInside(m: Machine, a: Word)
    requires MachineOk(m) && a in m.cache.blocks
    ensures m.cache.blocks[a].start == a && a + 4 * |m.cache.blocks[a].instrs| < 0x1_0000_0000
  {
  }
}
