/**
  The nodes of the JIT's intermediate representation. A reference is the position
  of a node in the list it was appended to. Addresses of guest registers, the PC,
  the status byte and entry slots are constants, so loads and stores carry them.
*/
module Ir {
  import opened Words
  import opened Instructions

  type Ref = nat

  /** A native entry point; 0 is the null pointer. */
  type Handle = nat

  /** Interpreter routines that translated code calls with an instruction. */
  datatype Handler = HandleFlush | HandleSyscall | HandleSsat | HandleInvalid

  datatype Node =
    | Start
    | Param
    | ConstU8(byte: Byte)
    | ConstU32(word: Word)
    | ConstI32(int32: int)
    | ConstNull
    | LoadReg(reg: Reg)
    | LoadStatus
    | LoadSlot(address: Word)
    | AddU32(a: Ref, b: Ref)
    | OrU32(a: Ref, b: Ref)
    | Eq(a: Ref, b: Ref)
    | Ne(a: Ref, b: Ref)
    | ZextU32(a: Ref)
    | CtlzU32(a: Ref)
    | RorU32(a: Ref, b: Ref)
    | BitcastI32(a: Ref)
    | BitcastU32(a: Ref)
    | MaxI32(a: Ref, b: Ref)
    | MinI32(a: Ref, b: Ref)
    | CallCompress(a: Ref, b: Ref)
    | StoreReg(reg: Reg, a: Ref)
    | StorePc(a: Ref)
    | CallRead(a: Ref)
    | CallWrite(a: Ref, b: Ref)
    | CallHandler(handler: Handler, instr: Instr)
    | If(a: Ref)
    | IfTrue(a: Ref)
    | IfFalse(a: Ref)
    | End
    | Merge2(a: Ref, b: Ref)
    | Phi2(a: Ref, b: Ref)
    | Return(a: Ref)
}
