/** The assembler's instruction encoder. Shifts and `|` are those of unbounded integers. */
module Encoder {
  import opened Words

  datatype Operand =
    | Register(index: int)
    | Number(value: int)
    | Symbol(name: string)
    | Address(items: seq<Operand>)

  datatype Mnemonic =
    | MAdd | MAddi | MOr | MLd | MSt | MBeq | MJ | MClz | MSsat | MSyscall | MBext | MLi | MRori | MStp | MFlush

  datatype AsmInstr = AsmInstr(name: Mnemonic, operands: seq<Operand>, pc: nat)

  datatype Section = Text | Data

  datatype LabelInfo = LabelInfo(section: Section, offset: nat)

  type Labels = map<string, LabelInfo>

  datatype AsmError =
    | OperandCount | OperandType | RegisterRange | ImmediateRange | AddressShape
    | UnknownLabel | NotText | Misaligned
    | UnknownSection | SectionTwice | WrongSection | LabelTwice

  datatype Checked<+T> = Good(value: T) | Bad(error: AsmError) {
    predicate IsFailure() {
      Bad?
    }

    function PropagateFailure<U>(): Checked<U>
      requires Bad?
    {
      Bad(error)
    }

    function Extract(): T
      requires Good?
    {
      value
    }
  }

  datatype Requirement = Met | Unmet(error: AsmError) {
    predicate IsFailure() {
      Unmet?
    }

    function PropagateFailure<U>(): Checked<U>
      requires Unmet?
    {
      Bad(error)
    }
  }

  function Demand(condition: bool, error: AsmError): Requirement {
    if condition then Met else Unmet(error)
  }

  function RegisterIndex(o: Operand): Checked<Reg> {
    if !o.Register? then Bad(OperandType)
    else if !(0 <= o.index < 32) then Bad(RegisterRange)
    else Good(o.index)
  }

  predicate FitsSigned(x: int, width: nat)
    requires width > 0
  {
    0 - Pow2(width - 1) <= x <= Pow2(width - 1) - 1
  }

  /** The low `width` bits of an integer in range. */
  function SignedImmediate(o: Operand, width: nat): Checked<nat>
    requires width > 0
  {
    if !o.Number? then Bad(OperandType)
    else if !FitsSigned(o.value, width) then Bad(ImmediateRange)
    else Good(o.value % Pow2(width))
  }

  function UnsignedImmediate(o: Operand, width: nat, minimum: nat): Checked<nat> {
    if !o.Number? then Bad(OperandType)
    else if !(minimum <= o.value <= Pow2(width) - 1) then Bad(ImmediateRange)
    else Good(o.value)
  }

  function MemoryAddress(o: Operand, width: nat): Checked<(Reg, nat)>
    requires width > 0
  {
    if !o.Address? then Bad(OperandType)
    else
      :- Demand(|o.items| == 2, AddressShape);
      var base :- RegisterIndex(o.items[0]);
      var immediate :- SignedImmediate(o.items[1], width);
      Good((base, immediate))
  }

  function LabelAddress(labels: Labels, o: Operand): Checked<nat> {
    if !o.Symbol? then Bad(OperandType)
    else
      :- Demand(o.name in labels, UnknownLabel);
      :- Demand(labels[o.name].section == Text, NotText);
      Good(labels[o.name].offset)
  }

  function BranchOffset(labels: Labels, target: Operand, pc: nat): Checked<nat> {
    if target.Number? then SignedImmediate(target, 16)
    else
      var address :- LabelAddress(labels, target);
      var distance := address - pc;
      :- Demand(distance % 4 == 0, Misaligned);
      SignedImmediate(Number(distance / 4), 16)
  }

  /** `(op << 26) | (a << 21) | (b << 16) | low` */
  function Pack(op: nat, a: nat, b: nat, low: nat): nat {
    Or(Or(Or(Shl(op, 26), Shl(a, 21)), Shl(b, 16)), low)
  }

  /** `(a << 21) | (b << 16) | (c << 11) | low` */
  function PackZero(a: nat, b: nat, c: nat, low: nat): nat {
    Or(Or(Or(Shl(a, 21), Shl(b, 16)), Shl(c, 11)), low)
  }

  function EncodeSt(ops: seq<Operand>): Checked<nat> {
    if |ops| != 2 then Bad(OperandCount)
    else
      var rt :- RegisterIndex(ops[0]);
      var address :- MemoryAddress(ops[1], 14);
      Good(Pack(0x20, address.0, rt, address.1))
  }

  function EncodeAddi(ops: seq<Operand>): Checked<nat> {
    if |ops| != 3 then Bad(OperandCount)
    else
      var rt :- RegisterIndex(ops[0]);
      var rs :- RegisterIndex(ops[1]);
      var immediate :- SignedImmediate(ops[2], 16);
      Good(Pack(0x17, rs, rt, immediate))
  }

  /** OR and ADD, which differ in their lowest bits. */
  function EncodeThree(ops: seq<Operand>, low: nat): Checked<nat> {
    if |ops| != 3 then Bad(OperandCount)
    else
      var rd :- RegisterIndex(ops[0]);
      var rs :- RegisterIndex(ops[1]);
      var rt :- RegisterIndex(ops[2]);
      Good(PackZero(rs, rt, rd, low))
  }

  function EncodeLd(ops: seq<Operand>): Checked<nat> {
    if |ops| != 2 then Bad(OperandCount)
    else
      var rt :- RegisterIndex(ops[0]);
      var address := ops[1];
      :- Demand(address.Address?, OperandType);
      :- Demand(|address.items| == 2, AddressShape);
      var base :- RegisterIndex(address.items[0]);
      var offset := address.items[1];
      if offset.Number? then
        var immediate :- SignedImmediate(offset, 14);
        Good(Pack(0x33, base, rt, immediate))
      else if offset.Register? then
        var rm :- RegisterIndex(offset);
        Good(Or(Pack(0x03, base, rt, Shl(0x03, 14)), rm))
      else Bad(OperandType)
  }

  function EncodeJ(labels: Labels, ops: seq<Operand>): Checked<nat> {
    if |ops| != 1 then Bad(OperandCount)
    else
      var target :- LabelAddress(labels, ops[0]);
      :- Demand(target % 4 == 0, Misaligned);
      var index :- UnsignedImmediate(Number(Shr(target, 2)), 26, 0);
      Good(Or(Shl(0x3F, 26), index))
  }

  function EncodeBeq(labels: Labels, ops: seq<Operand>, pc: nat): Checked<nat> {
    if |ops| != 3 then Bad(OperandCount)
    else
      var rs :- RegisterIndex(ops[0]);
      var rt :- RegisterIndex(ops[1]);
      var offset :- BranchOffset(labels, ops[2], pc);
      Good(Pack(0x10, rs, rt, offset))
  }

  function EncodeClz(ops: seq<Operand>): Checked<nat> {
    if |ops| != 2 then Bad(OperandCount)
    else
      var rd :- RegisterIndex(ops[0]);
      var rs :- RegisterIndex(ops[1]);
      Good(Or(Or(Shl(rd, 21), Shl(rs, 16)), 0x32))
  }

  /** SSAT and RORI: two registers and a five-bit immediate. */
  function EncodeShift(ops: seq<Operand>, op: nat, minimum: nat): Checked<nat> {
    if |ops| != 3 then Bad(OperandCount)
    else
      var rd :- RegisterIndex(ops[0]);
      var rs :- RegisterIndex(ops[1]);
      var immediate :- UnsignedImmediate(ops[2], 5, minimum);
      Good(Pack(op, rd, rs, Shl(immediate, 11)))
  }

  function EncodeBext(ops: seq<Operand>): Checked<nat> {
    if |ops| != 3 then Bad(OperandCount)
    else
      var rd :- RegisterIndex(ops[0]);
      var rs :- RegisterIndex(ops[1]);
      var rt :- RegisterIndex(ops[2]);
      Good(PackZero(rd, rs, rt, 0x34))
  }

  function EncodeLi(ops: seq<Operand>): Checked<nat> {
    if |ops| != 2 then Bad(OperandCount)
    else
      var rt :- RegisterIndex(ops[0]);
      var immediate :- SignedImmediate(ops[1], 16);
      Good(Or(Or(Shl(0x0B, 26), Shl(rt, 16)), immediate))
  }

  function EncodeStp(ops: seq<Operand>): Checked<nat> {
    if |ops| != 3 then Bad(OperandCount)
    else
      var rt :- RegisterIndex(ops[0]);
      var rt2 :- RegisterIndex(ops[1]);
      var address :- MemoryAddress(ops[2], 11);
      Good(Or(Pack(0x15, address.0, rt, Shl(rt2, 11)), address.1))
  }

  function EncodePlain(ops: seq<Operand>, word: nat): Checked<nat> {
    if |ops| != 0 then Bad(OperandCount)
    else
      Good(word)
  }

  function Encode(labels: Labels, ins: AsmInstr): Checked<nat> {
    var ops := ins.operands;
    match ins.name
    case MSt => EncodeSt(ops)
    case MAddi => EncodeAddi(ops)
    case MOr => EncodeThree(ops, 0x1A)
    case MLd => EncodeLd(ops)
    case MJ => EncodeJ(labels, ops)
    case MBeq => EncodeBeq(labels, ops, ins.pc)
    case MClz => EncodeClz(ops)
    case MSsat => EncodeShift(ops, 0x08, 1)
    case MAdd => EncodeThree(ops, 0x0C)
    case MSyscall => EncodePlain(ops, 0x1E)
    case MFlush => EncodePlain(ops, Shl(0x26, 26))
    case MBext => EncodeBext(ops)
    case MLi => EncodeLi(ops)
    case MRori => EncodeShift(ops, 0x1D, 0)
    case MStp => EncodeStp(ops)
  }
}
