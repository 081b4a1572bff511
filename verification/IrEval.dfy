/** Evaluation of a list of IR nodes on a machine. */
module IrEval {
  import opened Words
  import opened BitOperations
  import opened Instructions
  import opened GuestMemory
  import opened Ir
  import opened MachineState
  import opened Executor

  datatype Value = U8(byte: Byte) | U32(word: Word) | I32(int32: int) | Bool(b: bool) | Addr(handle: Handle)

  /** Values computed so far, and which predecessor reached the last merge. */
  datatype Frame = Frame(m: Machine, env: map<Ref, Value>, second: bool)

  datatype Result = Returned(m: Machine, handle: Handle) | Stuck

  function StatusByte(s: Status): Byte {
    match s
    case RUNNING => 0
    case HALTED => 1
    case FAULTED => 2
  }

  predicate IsU32(env: map<Ref, Value>, r: Ref) {
    r in env && env[r].U32?
  }

  predicate IsI32(env: map<Ref, Value>, r: Ref) {
    r in env && env[r].I32?
  }

  predicate IsBool(env: map<Ref, Value>, r: Ref) {
    r in env && env[r].Bool?
  }

  datatype Option<+T> = None | Some(value: T)

  function Max(x: int, y: int): int {
    if x < y then y else x
  }

  function Min(x: int, y: int): int {
    if y < x then y else x
  }

  /**
    The value of a node without side effects. None is undefined behaviour: an
    operand that is missing or of another type, a slot that was never allocated,
    CTLZ of zero.
  */
  function PureValue(n: Node, f: Frame): Option<Value> {
    match n
    case LoadReg(reg) => Some(U32(f.m.regs[reg]))
    case LoadStatus => Some(U8(StatusByte(f.m.status)))
    case LoadSlot(address) =>
      if address in f.m.cache.entries then Some(Addr(f.m.cache.entries[address])) else None
    case _ => Computed(n, f.env, f.second)
  }

  /** The value of a node that does not look at the machine. */
  function Computed(n: Node, env: map<Ref, Value>, second: bool): Option<Value> {
    match n
    case ConstU8(byte) => Some(U8(byte))
    case ConstU32(word) => Some(U32(word))
    case ConstI32(x) => Some(I32(x))
    case ConstNull => Some(Addr(0))
    case AddU32(a, b) =>
      if IsU32(env, a) && IsU32(env, b) then Some(U32(Add32(env[a].word, env[b].word))) else None
    case OrU32(a, b) =>
      if IsU32(env, a) && IsU32(env, b) then Some(U32(Or32(env[a].word, env[b].word))) else None
    case Eq(a, b) => if a in env && b in env then Some(Bool(env[a] == env[b])) else None
    case Ne(a, b) => if a in env && b in env then Some(Bool(env[a] != env[b])) else None
    case ZextU32(a) => if IsBool(env, a) then Some(U32(if env[a].b then 1 else 0)) else None
    case CtlzU32(a) => if IsU32(env, a) && env[a].word != 0 then Some(U32(Clz32(env[a].word))) else None
    case RorU32(a, b) =>
      if IsU32(env, a) && IsU32(env, b) && env[b].word < 32 then Some(U32(Ror(env[a].word, env[b].word))) else None
    case BitcastI32(a) => if IsU32(env, a) then Some(I32(ToSigned(env[a].word))) else None
    case BitcastU32(a) => if IsI32(env, a) then Some(U32(Wrap(env[a].int32))) else None
    case MaxI32(a, b) =>
      if IsI32(env, a) && IsI32(env, b)
      then Some(I32(Max(env[a].int32, env[b].int32))) else None
    case MinI32(a, b) =>
      if IsI32(env, a) && IsI32(env, b)
      then Some(I32(Min(env[a].int32, env[b].int32))) else None
    case CallCompress(a, b) =>
      if IsU32(env, a) && IsU32(env, b) then Some(U32(Compress32(env[a].word, env[b].word))) else None
    case Phi2(a, b) =>
      var chosen := if second then b else a;
      if chosen in env then Some(env[chosen]) else None
    case _ => None
  }

  /** Rotation of a word: the low bits move to the top. */
  function Ror(value: Word, shift: Word): Word
    requires shift < 32
  {
    RotateMeaning(value, shift);
    Shl(Low(value, shift), 32 - shift) + Shr(value, shift)
  }

  /** A helper catches every error and leaves the context faulted. */
  function Caught(s: Step): Machine {
    match s
    case Ok(m) => m
    case Raise(m, _) => Fault(m)
  }

  function RunHandler(h: Handler, m: Machine, i: Instr): Step {
    match h
    case HandleFlush => Exec(m, Flush)
    case HandleSyscall => ExecSyscall(m)
    case HandleSsat => Exec(m, i)
    case HandleInvalid => Raise(m, INVALID_INSTRUCTION)
  }

  /** The effect of a node with side effects; None as above. */
  function EffectOf(n: Node, f: Frame): Option<Frame> {
    var (m, env) := (f.m, f.env);
    match n
    case StoreReg(reg, a) => if IsU32(env, a) then Some(f.(m := SetReg(m, reg, env[a].word))) else None
    case StorePc(a) => if IsU32(env, a) then Some(f.(m := m.(pc := env[a].word))) else None
    case CallWrite(a, b) =>
      if IsU32(env, a) && IsU32(env, b)
      then Some(f.(m := Caught(Store(m, env[a].word, env[b].word)))) else None
    case CallHandler(h, i) => Some(f.(m := Caught(RunHandler(h, m, i))))
    case Start => Some(f)
    case Param => Some(f)
    case Merge2(a, b) => Some(f)
    case IfTrue(a) => Some(f)
    case IfFalse(a) => Some(f)
    case _ => None
  }

  datatype Next = Goto(k: nat, f: Frame) | Leave(r: Result)

  /** First position from `k` on that holds `n`, or the end. */
  function Find(ns: seq<Node>, k: nat, n: Node): nat
    requires k <= |ns|
    ensures k <= Find(ns, k, n) <= |ns|
    decreases |ns| - k
  {
    if k == |ns| || ns[k] == n then k else Find(ns, k + 1, n)
  }

  /** First merge from `k` on that has position `from` as a predecessor, or the end. */
  function FindMerge(ns: seq<Node>, k: nat, from: Ref): nat
    requires k <= |ns|
    ensures k <= FindMerge(ns, k, from) <= |ns|
    ensures FindMerge(ns, k, from) < |ns| ==> ns[FindMerge(ns, k, from)].Merge2?
    decreases |ns| - k
  {
    if k == |ns| || (ns[k].Merge2? && (ns[k].a == from || ns[k].b == from)) then k
    else FindMerge(ns, k + 1, from)
  }

  function StepNode(ns: seq<Node>, k: nat, f: Frame): Next
    requires k < |ns|
  {
    match ns[k]
    case Return(a) =>
      if a in f.env && f.env[a].Addr? then Leave(Returned(f.m, f.env[a].handle)) else Leave(Stuck)
    case If(a) =>
      if IsBool(f.env, a) then Goto(Find(ns, k + 1, if f.env[a].b then IfTrue(k) else IfFalse(k)), f)
      else Leave(Stuck)
    case End =>
      var j := FindMerge(ns, k + 1, k);
      Goto(j, f.(second := j < |ns| && ns[j].a != k))
    case CallRead(a) =>
      if IsU32(f.env, a) then
        match Read32(f.m.mem, f.env[a].word)
        case Done(value) => Goto(k + 1, f.(env := f.env[k := U32(value)]))
        case Failed(_) => Goto(k + 1, f.(m := Fault(f.m), env := f.env[k := U32(0)]))
      else Leave(Stuck)
    case _ =>
      match PureValue(ns[k], f)
      case Some(v) => Goto(k + 1, f.(env := f.env[k := v]))
      case None =>
        match EffectOf(ns[k], f)
        case Some(g) => Goto(k + 1, g)
        case None => Leave(Stuck)
  }

  /** Evaluation from position `k`; control only moves forward. */
  function Eval(ns: seq<Node>, k: nat, f: Frame): Result
    decreases |ns| - k
  {
    if k >= |ns| then Stuck
    else
      match StepNode(ns, k, f)
      case Leave(r) => r
      case Goto(j, g) => if k < j then Eval(ns, j, g) else Stuck
  }
}
