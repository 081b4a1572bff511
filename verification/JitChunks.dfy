/** The code of each instruction does what the interpreter does, except for the PC. */
module JitChunks {
  import opened Words
  import opened BitOperations
  import opened Instructions
  import opened GuestMemory
  import opened Ir
  import opened MachineState
  import opened Executor
  import opened IrEval
  import opened JitSpec

  /** The nodes `c` stand in `ns` from position `k` on. */
  predicate At(ns: seq<Node>, k: nat, c: seq<Node>) {
    k + |c| <= |ns| && forall j :: k <= j < k + |c| ==> ns[j] == c[j - k]
  }

  lemma AtSplit(ns: seq<Node>, k: nat, a: seq<Node>, b: seq<Node>)
    requires At(ns, k, a + b)
    ensures At(ns, k, a) && At(ns, k + |a|, b)
  {
    forall j | k <= j < k + |a|
      ensures ns[j] == a[j - k]
    {
      assert (a + b)[j - k] == a[j - k];
    }
    forall j | k + |a| <= j < k + |a| + |b|
      ensures ns[j] == b[j - k - |a|]
    {
      assert (a + b)[j - k] == b[j - k - |a|];
    }
  }

  /** A node with a value: evaluation goes on with the value recorded. */
  lemma Pure(ns: seq<Node>, k: nat, f: Frame) returns (g: Frame)
    requires k < |ns| && PureValue(ns[k], f).Some?
    ensures g == f.(env := f.env[k := PureValue(ns[k], f).value])
    ensures Eval(ns, k, f) == Eval(ns, k + 1, g)
  {
    g := f.(env := f.env[k := PureValue(ns[k], f).value]);
    assert StepNode(ns, k, f) == Goto(k + 1, g);
  }

  /** A node with an effect on the machine. */
  lemma Effectful(ns: seq<Node>, k: nat, f: Frame) returns (g: Frame)
    requires k < |ns| && EffectOf(ns[k], f).Some?
    ensures EffectOf(ns[k], f) == Some(g)
    ensures Eval(ns, k, f) == Eval(ns, k + 1, g)
  {
    g := EffectOf(ns[k], f).value;
    assert StepNode(ns, k, f) == Goto(k + 1, g);
  }

  lemma {:induction false} FindIs(ns: seq<Node>, k: nat, j: nat, n: Node)
    requires k <= j < |ns| && ns[j] == n
    requires forall i :: k <= i < j ==> ns[i] != n
    ensures Find(ns, k, n) == j
    decreases j - k
  {
    if k < j {
      FindIs(ns, k + 1, j, n);
    }
  }

  lemma Branch(ns: seq<Node>, k: nat, f: Frame, j: nat)
    requires k < j < |ns| && ns[k].If? && IsBool(f.env, ns[k].a)
    requires var target := if f.env[ns[k].a].b then IfTrue(k) else IfFalse(k);
      ns[j] == target && forall i :: k < i < j ==> ns[i] != target
    ensures Eval(ns, k, f) == Eval(ns, j, f)
  {
    var target := if f.env[ns[k].a].b then IfTrue(k) else IfFalse(k);
    FindIs(ns, k + 1, j, target);
    assert StepNode(ns, k, f) == Goto(j, f);
  }

  lemma Returns(ns: seq<Node>, k: nat, f: Frame)
    requires k < |ns| && ns[k].Return? && ns[k].a in f.env && f.env[ns[k].a].Addr?
    ensures Eval(ns, k, f) == Returned(f.m, f.env[ns[k].a].handle)
  {
    assert StepNode(ns, k, f) == Leave(Returned(f.m, f.env[ns[k].a].handle));
  }

  /** The exit test compares the status byte with RUNNING. */
  lemma StatusTest(ns: seq<Node>, k: nat, f: Frame) returns (g: Frame)
    requires k + 3 <= |ns| && ns[k] == LoadStatus && ns[k + 1] == ConstU8(0) && ns[k + 2] == Ne(k, k + 1)
    ensures Eval(ns, k, f) == Eval(ns, k + 3, g) && g.m == f.m
    ensures Keeps(f, g, k) && k + 2 in g.env && g.env[k + 2] == Bool(f.m.status != RUNNING)
  {
    hide Eval, PureValue;
    g := StatusNode(ns, k, f);
    g := StatusNeNode(ns, k + 1, g);
  }

  lemma StatusNode(ns: seq<Node>, k: nat, f: Frame) returns (g: Frame)
    requires k < |ns| && ns[k] == LoadStatus
    ensures g == Bind(f, k, U8(StatusByte(f.m.status))) && Eval(ns, k, f) == Eval(ns, k + 1, g)
  {
    g := Pure(ns, k, f);
  }

  /** A zero byte, and the comparison of the byte before it with zero. */
  lemma StatusNeNode(ns: seq<Node>, k: nat, f: Frame) returns (g: Frame)
    requires 0 < k < |ns| - 1 && ns[k] == ConstU8(0) && ns[k + 1] == Ne(k - 1, k)
    requires k - 1 in f.env && f.env[k - 1].U8?
    ensures g == Bind(Bind(f, k, U8(0)), k + 1, Bool(f.env[k - 1].byte != 0)) && Eval(ns, k, f) == Eval(ns, k + 2, g)
  {
    hide Eval;
    g := Pure(ns, k, f);
    g := Pure(ns, k + 1, g);
  }

  /** The values of nodes before `k` are still there. */
  predicate Keeps(f: Frame, g: Frame, k: nat) {
    forall r :: r in f.env && r < k ==> r in g.env && g.env[r] == f.env[r]
  }

  lemma ExitLayout(ns: seq<Node>, k: nat)
    requires At(ns, k, EncodeExitIfStopped(k))
    ensures k + 8 <= |ns| && ns[k] == LoadStatus && ns[k + 1] == ConstU8(0) && ns[k + 2] == Ne(k, k + 1)
    ensures ns[k + 3] == If(k + 2) && ns[k + 4] == IfTrue(k + 3) && ns[k + 5] == ConstNull
    ensures ns[k + 6] == Return(k + 5) && ns[k + 7] == IfFalse(k + 3)
  {
  }

  /** The arm of a stopped machine. */
  lemma LeavesWithNull(ns: seq<Node>, k: nat, f: Frame)
    requires k + 3 <= |ns| && ns[k].IfTrue? && ns[k + 1] == ConstNull && ns[k + 2] == Return(k + 1)
    ensures Eval(ns, k, f) == Returned(f.m, 0)
  {
    hide Eval;
    var g := Effectful(ns, k, f);
    g := Pure(ns, k + 1, g);
    Returns(ns, k + 2, g);
  }

  /** After the exit test evaluation goes on when running, and yields a null entry when stopped. */
  lemma ExitIfStopped(ns: seq<Node>, k: nat, f: Frame) returns (g: Frame)
    requires At(ns, k, EncodeExitIfStopped(k))
    ensures g.m == f.m && Keeps(f, g, k)
    ensures f.m.status == RUNNING ==> Eval(ns, k, f) == Eval(ns, k + EXIT_LENGTH, g)
    ensures f.m.status != RUNNING ==> Eval(ns, k, f) == Returned(f.m, 0)
  {
    hide Eval, At, EncodeExitIfStopped, PureValue, Keeps;
    ExitLayout(ns, k);
    g := StatusTest(ns, k, f);
    if f.m.status == RUNNING {
      Branch(ns, k + 3, g, k + 7);
      g := Effectful(ns, k + 7, g);
    } else {
      Branch(ns, k + 3, g, k + 4);
      LeavesWithNull(ns, k + 4, g);
    }
  }

  // ---- single nodes ----

  function Bind(f: Frame, k: Ref, v: Value): Frame {
    f.(env := f.env[k := v])
  }

  lemma RegNode(ns: seq<Node>, k: nat, f: Frame, r: Reg) returns (g: Frame)
    requires k < |ns| && ns[k] == LoadReg(r)
    ensures g == Bind(f, k, U32(f.m.regs[r])) && Eval(ns, k, f) == Eval(ns, k + 1, g)
  {
    g := Pure(ns, k, f);
  }

  lemma WordNode(ns: seq<Node>, k: nat, f: Frame, w: Word) returns (g: Frame)
    requires k < |ns| && ns[k] == ConstU32(w)
    ensures g == Bind(f, k, U32(w)) && Eval(ns, k, f) == Eval(ns, k + 1, g)
  {
    g := Pure(ns, k, f);
  }

  lemma SumNode(ns: seq<Node>, k: nat, f: Frame, a: Ref, b: Ref) returns (g: Frame)
    requires k < |ns| && ns[k] == AddU32(a, b) && IsU32(f.env, a) && IsU32(f.env, b)
    ensures g == Bind(f, k, U32(Add32(f.env[a].word, f.env[b].word))) && Eval(ns, k, f) == Eval(ns, k + 1, g)
  {
    g := Pure(ns, k, f);
  }

  lemma OrNode(ns: seq<Node>, k: nat, f: Frame, a: Ref, b: Ref) returns (g: Frame)
    requires k < |ns| && ns[k] == OrU32(a, b) && IsU32(f.env, a) && IsU32(f.env, b)
    ensures g == Bind(f, k, U32(Or32(f.env[a].word, f.env[b].word))) && Eval(ns, k, f) == Eval(ns, k + 1, g)
  {
    g := Pure(ns, k, f);
  }

  lemma EqNode(ns: seq<Node>, k: nat, f: Frame, a: Ref, b: Ref) returns (g: Frame)
    requires k < |ns| && ns[k] == Eq(a, b) && IsU32(f.env, a) && IsU32(f.env, b)
    ensures g == Bind(f, k, Bool(f.env[a].word == f.env[b].word)) && Eval(ns, k, f) == Eval(ns, k + 1, g)
  {
    g := Pure(ns, k, f);
  }

  lemma ZextNode(ns: seq<Node>, k: nat, f: Frame, a: Ref) returns (g: Frame)
    requires k < |ns| && ns[k] == ZextU32(a) && IsBool(f.env, a)
    ensures g == Bind(f, k, U32(if f.env[a].b then 1 else 0)) && Eval(ns, k, f) == Eval(ns, k + 1, g)
  {
    g := Pure(ns, k, f);
  }

  lemma CtlzNode(ns: seq<Node>, k: nat, f: Frame, a: Ref) returns (g: Frame)
    requires k < |ns| && ns[k] == CtlzU32(a) && IsU32(f.env, a) && f.env[a].word != 0
    ensures g == Bind(f, k, U32(Clz32(f.env[a].word))) && Eval(ns, k, f) == Eval(ns, k + 1, g)
  {
    g := Pure(ns, k, f);
  }

  lemma RorNode(ns: seq<Node>, k: nat, f: Frame, a: Ref, b: Ref) returns (g: Frame)
    requires k < |ns| && ns[k] == RorU32(a, b) && IsU32(f.env, a) && IsU32(f.env, b) && f.env[b].word < 32
    ensures g == Bind(f, k, U32(Ror(f.env[a].word, f.env[b].word))) && Eval(ns, k, f) == Eval(ns, k + 1, g)
  {
    g := Pure(ns, k, f);
  }

  lemma SignedNode(ns: seq<Node>, k: nat, f: Frame, a: Ref) returns (g: Frame)
    requires k < |ns| && ns[k] == BitcastI32(a) && IsU32(f.env, a)
    ensures g == Bind(f, k, I32(ToSigned(f.env[a].word))) && Eval(ns, k, f) == Eval(ns, k + 1, g)
  {
    g := Pure(ns, k, f);
  }

  lemma UnsignedNode(ns: seq<Node>, k: nat, f: Frame, a: Ref) returns (g: Frame)
    requires k < |ns| && ns[k] == BitcastU32(a) && IsI32(f.env, a)
    ensures g == Bind(f, k, U32(Wrap(f.env[a].int32))) && Eval(ns, k, f) == Eval(ns, k + 1, g)
  {
    g := Pure(ns, k, f);
  }

  lemma IntNode(ns: seq<Node>, k: nat, f: Frame, x: int) returns (g: Frame)
    requires k < |ns| && ns[k] == ConstI32(x)
    ensures g == Bind(f, k, I32(x)) && Eval(ns, k, f) == Eval(ns, k + 1, g)
  {
    g := Pure(ns, k, f);
  }

  lemma MaxNode(ns: seq<Node>, k: nat, f: Frame, a: Ref, b: Ref) returns (g: Frame)
    requires k < |ns| && ns[k] == MaxI32(a, b) && IsI32(f.env, a) && IsI32(f.env, b)
    ensures g == Bind(f, k, I32(Max(f.env[a].int32, f.env[b].int32))) && Eval(ns, k, f) == Eval(ns, k + 1, g)
  {
    g := Pure(ns, k, f);
  }

  lemma MinNode(ns: seq<Node>, k: nat, f: Frame, a: Ref, b: Ref) returns (g: Frame)
    requires k < |ns| && ns[k] == MinI32(a, b) && IsI32(f.env, a) && IsI32(f.env, b)
    ensures g == Bind(f, k, I32(Min(f.env[a].int32, f.env[b].int32))) && Eval(ns, k, f) == Eval(ns, k + 1, g)
  {
    g := Pure(ns, k, f);
  }

  lemma CompressNode(ns: seq<Node>, k: nat, f: Frame, a: Ref, b: Ref) returns (g: Frame)
    requires k < |ns| && ns[k] == CallCompress(a, b) && IsU32(f.env, a) && IsU32(f.env, b)
    ensures g == Bind(f, k, U32(Compress32(f.env[a].word, f.env[b].word))) && Eval(ns, k, f) == Eval(ns, k + 1, g)
  {
    g := Pure(ns, k, f);
  }

  lemma SetNode(ns: seq<Node>, k: nat, f: Frame, r: Reg, a: Ref) returns (g: Frame)
    requires k < |ns| && ns[k] == StoreReg(r, a) && IsU32(f.env, a)
    ensures g == f.(m := SetReg(f.m, r, f.env[a].word)) && Eval(ns, k, f) == Eval(ns, k + 1, g)
  {
    g := Effectful(ns, k, f);
  }

  lemma PcNode(ns: seq<Node>, k: nat, f: Frame, a: Ref) returns (g: Frame)
    requires k < |ns| && ns[k] == StorePc(a) && IsU32(f.env, a)
    ensures g == f.(m := f.m.(pc := f.env[a].word)) && Eval(ns, k, f) == Eval(ns, k + 1, g)
  {
    g := Effectful(ns, k, f);
  }

  lemma WriteNode(ns: seq<Node>, k: nat, f: Frame, a: Ref, b: Ref) returns (g: Frame)
    requires k < |ns| && ns[k] == CallWrite(a, b) && IsU32(f.env, a) && IsU32(f.env, b)
    ensures g == f.(m := Caught(Store(f.m, f.env[a].word, f.env[b].word)))
    ensures Eval(ns, k, f) == Eval(ns, k + 1, g)
  {
    g := Effectful(ns, k, f);
  }

  lemma ReadNode(ns: seq<Node>, k: nat, f: Frame, a: Ref) returns (g: Frame)
    requires k < |ns| && ns[k] == CallRead(a) && IsU32(f.env, a)
    ensures Eval(ns, k, f) == Eval(ns, k + 1, g)
    ensures match Read32(f.m.mem, f.env[a].word)
      case Done(value) => g == Bind(f, k, U32(value))
      case Failed(_) => g == Bind(f.(m := Fault(f.m)), k, U32(0))
  {
    match Read32(f.m.mem, f.env[a].word)
    case Done(value) =>
      g := Bind(f, k, U32(value));
      assert StepNode(ns, k, f) == Goto(k + 1, g);
    case Failed(_) =>
      g := Bind(f.(m := Fault(f.m)), k, U32(0));
      assert StepNode(ns, k, f) == Goto(k + 1, g);
  }

  lemma HandlerNode(ns: seq<Node>, k: nat, f: Frame, h: Handler, i: Instr) returns (g: Frame)
    requires k < |ns| && ns[k] == CallHandler(h, i)
    ensures g == f.(m := Caught(RunHandler(h, f.m, i))) && Eval(ns, k, f) == Eval(ns, k + 1, g)
  {
    hide RunHandler;
    g := Effectful(ns, k, f);
  }

  /** The address of a memory instruction with an immediate. */
  lemma AddressNodes(ns: seq<Node>, k: nat, f: Frame, base: Reg, imm: Word) returns (g: Frame)
    requires k + 3 <= |ns| && ns[k] == LoadReg(base) && ns[k + 1] == ConstU32(imm) && ns[k + 2] == AddU32(k, k + 1)
    ensures Eval(ns, k, f) == Eval(ns, k + 3, g) && g.m == f.m
    ensures k + 2 in g.env && g.env[k + 2] == U32(Add32(f.m.regs[base], imm))
  {
    hide Eval, PureValue;
    g := RegNode(ns, k, f, base);
    g := WordNode(ns, k + 1, g, imm);
    g := SumNode(ns, k + 2, g, k, k + 1);
  }

  // ---- instructions ----

  lemma PcChunk(ns: seq<Node>, k: nat, f: Frame, value: Word) returns (g: Frame)
    requires At(ns, k, EncodePc(k, value))
    ensures Eval(ns, k, f) == Eval(ns, k + 2, g)
    ensures g.m == f.m.(pc := value)
  {
    hide Eval, PureValue;
    g := WordNode(ns, k, f, value);
    g := PcNode(ns, k + 1, g, k);
  }

  lemma LiChunk(ns: seq<Node>, k: nat, f: Frame, rt: Reg, imm: Word) returns (g: Frame)
    requires At(ns, k, EncodeLi(k, rt, imm))
    ensures Eval(ns, k, f) == Eval(ns, k + 2, g)
    ensures g.m == SetReg(f.m, rt, imm)
  {
    hide Eval, PureValue;
    g := WordNode(ns, k, f, imm);
    g := SetNode(ns, k + 1, g, rt, k);
  }

  lemma AddChunk(ns: seq<Node>, k: nat, f: Frame, rd: Reg, rs: Reg, rt: Reg) returns (g: Frame)
    requires At(ns, k, EncodeAdd(k, rd, rs, rt))
    ensures Eval(ns, k, f) == Eval(ns, k + 4, g)
    ensures g.m == SetReg(f.m, rd, Add32(f.m.regs[rs], f.m.regs[rt]))
  {
    hide Eval, PureValue;
    g := RegNode(ns, k, f, rs);
    g := RegNode(ns, k + 1, g, rt);
    g := SumNode(ns, k + 2, g, k, k + 1);
    g := SetNode(ns, k + 3, g, rd, k + 2);
  }

  /** The first half of CLZ: the value made non-zero, and the adjustment. */
  lemma ClzPrepare(ns: seq<Node>, k: nat, f: Frame, rd: Reg, rs: Reg) returns (g: Frame)
    requires At(ns, k, EncodeClz(k, rd, rs))
    ensures Eval(ns, k, f) == Eval(ns, k + 5, g) && g.m == f.m
    ensures var z := if f.m.regs[rs] == 0 then 1 else 0;
      && k + 3 in g.env && g.env[k + 3] == U32(z)
      && k + 4 in g.env && g.env[k + 4] == U32(Or32(f.m.regs[rs], z))
  {
    hide Eval, PureValue, Or32;
    g := RegNode(ns, k, f, rs);
    g := WordNode(ns, k + 1, g, 0);
    g := EqNode(ns, k + 2, g, k, k + 1);
    g := ZextNode(ns, k + 3, g, k + 2);
    g := OrNode(ns, k + 4, g, k, k + 3);
  }

  lemma ClzChunk(ns: seq<Node>, k: nat, f: Frame, rd: Reg, rs: Reg) returns (g: Frame)
    requires At(ns, k, EncodeClz(k, rd, rs))
    ensures Eval(ns, k, f) == Eval(ns, k + 8, g)
    ensures g.m == SetReg(f.m, rd, Clz32(f.m.regs[rs]))
  {
    hide Eval, PureValue, Or32, Clz32;
    ZeroAdjust(f.m.regs[rs]);
    g := ClzPrepare(ns, k, f, rd, rs);
    g := CtlzNode(ns, k + 5, g, k + 4);
    g := SumNode(ns, k + 6, g, k + 5, k + 3);
    g := SetNode(ns, k + 7, g, rd, k + 6);
  }

  /** Counting on `value | (value == 0)` and adding `value == 0` is right for every value. */
  lemma ZeroAdjust(value: Word)
    ensures var z := if value == 0 then 1 else 0;
      && Or32(value, z) != 0
      && Or32(value, z) == (if value == 0 then 1 else value)
      && Add32(Clz32(Or32(value, z)), z) == Clz32(value)
  {
    assert LeadingZeros(1) == 31;
  }

  lemma AddiChunk(ns: seq<Node>, k: nat, f: Frame, rt: Reg, rs: Reg, imm: Word) returns (g: Frame)
    requires At(ns, k, EncodeAddi(k, rt, rs, imm))
    ensures Eval(ns, k, f) == Eval(ns, k + 4, g)
    ensures g.m == SetReg(f.m, rt, Add32(f.m.regs[rs], imm))
  {
    hide Eval, PureValue;
    g := RegNode(ns, k, f, rs);
    g := WordNode(ns, k + 1, g, imm);
    g := SumNode(ns, k + 2, g, k, k + 1);
    g := SetNode(ns, k + 3, g, rt, k + 2);
  }

  lemma OrChunk(ns: seq<Node>, k: nat, f: Frame, rd: Reg, rs: Reg, rt: Reg) returns (g: Frame)
    requires At(ns, k, EncodeOr(k, rd, rs, rt))
    ensures Eval(ns, k, f) == Eval(ns, k + 4, g)
    ensures g.m == SetReg(f.m, rd, Or32(f.m.regs[rs], f.m.regs[rt]))
  {
    hide Eval, PureValue, Or32;
    g := RegNode(ns, k, f, rs);
    g := RegNode(ns, k + 1, g, rt);
    g := OrNode(ns, k + 2, g, k, k + 1);
    g := SetNode(ns, k + 3, g, rd, k + 2);
  }

  lemma BextChunk(ns: seq<Node>, k: nat, f: Frame, rd: Reg, rs: Reg, rt: Reg) returns (g: Frame)
    requires At(ns, k, EncodeBext(k, rd, rs, rt))
    ensures Eval(ns, k, f) == Eval(ns, k + 4, g)
    ensures g.m == SetReg(f.m, rd, Compress32(f.m.regs[rs], f.m.regs[rt]))
  {
    hide Eval, PureValue, Compress32;
    g := RegNode(ns, k, f, rs);
    g := RegNode(ns, k + 1, g, rt);
    g := CompressNode(ns, k + 2, g, k, k + 1);
    g := SetNode(ns, k + 3, g, rd, k + 2);
  }

  /** The rotate operator and the two shifts of the interpreter agree. */
  lemma RoriChunk(ns: seq<Node>, k: nat, f: Frame, rd: Reg, rs: Reg, shift: Shift) returns (g: Frame)
    requires At(ns, k, EncodeRori(k, rd, rs, shift))
    ensures Eval(ns, k, f) == Eval(ns, k + 4, g)
    ensures g.m == SetReg(f.m, rd, RotateRight(f.m.regs[rs], shift))
  {
    hide Eval, PureValue, RotateRight, Low, Shl, Shr;
    RotateMeaning(f.m.regs[rs], shift);
    g := RegNode(ns, k, f, rs);
    g := WordNode(ns, k + 1, g, shift);
    g := RorNode(ns, k + 2, g, k, k + 1);
    g := SetNode(ns, k + 3, g, rd, k + 2);
  }

  /** The signed value raised to the minimum. */
  lemma SsatPrepare(ns: seq<Node>, k: nat, f: Frame, i: Instr) returns (g: Frame)
    requires i.Ssat? && ValidWidth(i.width) && At(ns, k, EncodeSsat(k, i))
    ensures Eval(ns, k, f) == Eval(ns, k + 4, g) && g.m == f.m
    ensures var (x, low) := (ToSigned(f.m.regs[i.rs]), 0 - Pow2(i.width - 1));
      k + 3 in g.env && g.env[k + 3] == I32(Max(x, low))
  {
    hide Eval, PureValue, Pow2, Max, ToSigned;
    g := RegNode(ns, k, f, i.rs);
    g := SignedNode(ns, k + 1, g, k);
    g := IntNode(ns, k + 2, g, 0 - Pow2(i.width - 1));
    g := MaxNode(ns, k + 3, g, k + 1, k + 2);
  }

  /** MAX and MIN on signed words agree with the unsigned comparisons of the interpreter. */
  lemma SsatChunk(ns: seq<Node>, k: nat, f: Frame, i: Instr) returns (g: Frame)
    requires i.Ssat? && ValidWidth(i.width) && At(ns, k, EncodeSsat(k, i))
    ensures Eval(ns, k, f) == Eval(ns, k + 8, g)
    ensures g.m == SetReg(f.m, i.rd, SaturateSigned(f.m.regs[i.rs], i.width))
  {
    hide Eval, PureValue, Pow2, SaturateSigned, ToSigned, Max, Min, Clamp;
    SaturateIsClamp(f.m.regs[i.rs], i.width);
    ClampIsMinMax(ToSigned(f.m.regs[i.rs]), 0 - Pow2(i.width - 1), Pow2(i.width - 1) - 1);
    g := SsatPrepare(ns, k, f, i);
    g := IntNode(ns, k + 4, g, Pow2(i.width - 1) - 1);
    g := MinNode(ns, k + 5, g, k + 3, k + 4);
    g := UnsignedNode(ns, k + 6, g, k + 5);
    g := SetNode(ns, k + 7, g, i.rd, k + 6);
  }

  lemma ClampIsMinMax(x: int, low: int, high: int)
    requires low <= high
    ensures Clamp(x, low, high) == Min(Max(x, low), high)
  {
  }

  /** What code that may fault does: on to the next node, or out with a null entry. */
  predicate Continues(ns: seq<Node>, k: nat, f: Frame, j: nat, s: Step, g: Frame) {
    match s
    case Ok(m) => Eval(ns, k, f) == Eval(ns, j, g) && g.m == m
    case Raise(m, _) => Eval(ns, k, f) == Returned(Fault(m), 0)
  }

  /** The read call, the exit test and the register update of a load. */
  lemma LoadTail(ns: seq<Node>, k: nat, f: Frame, rt: Reg) returns (g: Frame)
    requires k > 0 && IsU32(f.env, k - 1) && f.m.status == RUNNING
    requires At(ns, k, [CallRead(k - 1)]) && At(ns, k + 1, EncodeExitIfStopped(k + 1))
    requires At(ns, k + 9, [StoreReg(rt, k)])
    ensures Continues(ns, k, f, k + 10, Load(f.m, rt, f.env[k - 1].word), g)
  {
    hide Eval, PureValue, EffectOf, Read32, EncodeExitIfStopped;
    g := ReadNode(ns, k, f, k - 1);
    g := ExitIfStopped(ns, k + 1, g);
    if Read32(f.m.mem, f.env[k - 1].word).Done? {
      g := SetNode(ns, k + 9, g, rt, k);
    }
  }

  lemma LdImmChunk(ns: seq<Node>, k: nat, f: Frame, rt: Reg, base: Reg, imm: Word) returns (g: Frame)
    requires At(ns, k, EncodeLdImm(k, rt, base, imm)) && f.m.status == RUNNING
    ensures Continues(ns, k, f, k + 13, Load(f.m, rt, Add32(f.m.regs[base], imm)), g)
  {
    hide Eval, PureValue, EffectOf, Load, EncodeExitIfStopped;
    var start := [LoadReg(base), ConstU32(imm), AddU32(k, k + 1), CallRead(k + 2)];
    AtSplit(ns, k, start + EncodeExitIfStopped(k + 4), [StoreReg(rt, k + 3)]);
    AtSplit(ns, k, start, EncodeExitIfStopped(k + 4));
    g := AddressNodes(ns, k, f, base, imm);
    g := LoadTail(ns, k + 3, g, rt);
  }

  lemma LdRegChunk(ns: seq<Node>, k: nat, f: Frame, rt: Reg, base: Reg, rm: Reg) returns (g: Frame)
    requires At(ns, k, EncodeLdReg(k, rt, base, rm)) && f.m.status == RUNNING
    ensures Continues(ns, k, f, k + 13, Load(f.m, rt, Add32(f.m.regs[base], f.m.regs[rm])), g)
  {
    hide Eval, PureValue, EffectOf, Load, EncodeExitIfStopped;
    var start := [LoadReg(base), LoadReg(rm), AddU32(k, k + 1), CallRead(k + 2)];
    AtSplit(ns, k, start + EncodeExitIfStopped(k + 4), [StoreReg(rt, k + 3)]);
    AtSplit(ns, k, start, EncodeExitIfStopped(k + 4));
    g := RegNode(ns, k, f, base);
    g := RegNode(ns, k + 1, g, rm);
    g := SumNode(ns, k + 2, g, k, k + 1);
    g := LoadTail(ns, k + 3, g, rt);
  }

  /** A write call followed by the exit test. */
  lemma WriteAndTest(ns: seq<Node>, k: nat, f: Frame, a: Ref, b: Ref) returns (g: Frame)
    requires a < k && b < k && IsU32(f.env, a) && IsU32(f.env, b) && f.m.status == RUNNING
    requires At(ns, k, [CallWrite(a, b)]) && At(ns, k + 1, EncodeExitIfStopped(k + 1))
    ensures Continues(ns, k, f, k + 9, Store(f.m, f.env[a].word, f.env[b].word), g)
    ensures Keeps(f, g, k)
  {
    hide Eval, PureValue, EffectOf, Write32, EncodeExitIfStopped;
    g := WriteNode(ns, k, f, a, b);
    g := ExitIfStopped(ns, k + 1, g);
  }

  lemma StChunk(ns: seq<Node>, k: nat, f: Frame, rt: Reg, base: Reg, imm: Word) returns (g: Frame)
    requires At(ns, k, EncodeSt(k, rt, base, imm)) && f.m.status == RUNNING
    ensures Continues(ns, k, f, k + 13, Store(f.m, Add32(f.m.regs[base], imm), f.m.regs[rt]), g)
  {
    hide Eval, PureValue, EffectOf, Store, EncodeExitIfStopped;
    var start := [LoadReg(base), ConstU32(imm), AddU32(k, k + 1), LoadReg(rt), CallWrite(k + 2, k + 3)];
    AtSplit(ns, k, start, EncodeExitIfStopped(k + 5));
    g := AddressNodes(ns, k, f, base, imm);
    g := RegNode(ns, k + 3, g, rt);
    g := WriteAndTest(ns, k + 4, g, k + 2, k + 3);
  }

  /** The addresses and values of a store pair. */
  lemma StpPrepare(ns: seq<Node>, k: nat, f: Frame, rt: Reg, rt2: Reg, base: Reg, imm: Word) returns (g: Frame)
    requires At(ns, k, [LoadReg(base), ConstU32(imm), AddU32(k, k + 1), ConstU32(4), AddU32(k + 2, k + 3),
                        LoadReg(rt), LoadReg(rt2)])
    ensures Eval(ns, k, f) == Eval(ns, k + 7, g) && g.m == f.m
    ensures var address := Add32(f.m.regs[base], imm);
      && k + 2 in g.env && g.env[k + 2] == U32(address)
      && k + 4 in g.env && g.env[k + 4] == U32(Add32(address, 4))
      && k + 5 in g.env && g.env[k + 5] == U32(f.m.regs[rt])
      && k + 6 in g.env && g.env[k + 6] == U32(f.m.regs[rt2])
  {
    hide Eval, PureValue, EffectOf;
    g := AddressNodes(ns, k, f, base, imm);
    g := WordNode(ns, k + 3, g, 4);
    g := SumNode(ns, k + 4, g, k + 2, k + 3);
    g := RegNode(ns, k + 5, g, rt);
    g := RegNode(ns, k + 6, g, rt2);
  }

  lemma StpLayout(ns: seq<Node>, k: nat, rt: Reg, rt2: Reg, base: Reg, imm: Word)
    requires At(ns, k, EncodeStp(k, rt, rt2, base, imm))
    ensures At(ns, k, [LoadReg(base), ConstU32(imm), AddU32(k, k + 1), ConstU32(4), AddU32(k + 2, k + 3),
                       LoadReg(rt), LoadReg(rt2)])
    ensures At(ns, k + 7, [CallWrite(k + 2, k + 5)]) && At(ns, k + 8, EncodeExitIfStopped(k + 8))
    ensures At(ns, k + 16, [CallWrite(k + 4, k + 6)]) && At(ns, k + 17, EncodeExitIfStopped(k + 17))
  {
    hide EncodeExitIfStopped;
    var start := [LoadReg(base), ConstU32(imm), AddU32(k, k + 1), ConstU32(4), AddU32(k + 2, k + 3),
      LoadReg(rt), LoadReg(rt2), CallWrite(k + 2, k + 5)];
    var e1, w2, e2 := EncodeExitIfStopped(k + 8), [CallWrite(k + 4, k + 6)], EncodeExitIfStopped(k + 17);
    AtSplit(ns, k, start + e1 + w2, e2);
    AtSplit(ns, k, start + e1, w2);
    AtSplit(ns, k, start, e1);
  }

  /** A store pair that fails half-way leaves the first word stored, as in the interpreter. */
  lemma StpChunk(ns: seq<Node>, k: nat, f: Frame, rt: Reg, rt2: Reg, base: Reg, imm: Word) returns (g: Frame)
    requires At(ns, k, EncodeStp(k, rt, rt2, base, imm)) && f.m.status == RUNNING
    ensures Continues(ns, k, f, k + 25,
                      StorePair(f.m, Add32(f.m.regs[base], imm), f.m.regs[rt], f.m.regs[rt2]), g)
  {
    hide Eval, PureValue, EffectOf, Write32, EncodeExitIfStopped, EncodeStp;
    StpLayout(ns, k, rt, rt2, base, imm);
    var address := Add32(f.m.regs[base], imm);
    g := StpPrepare(ns, k, f, rt, rt2, base, imm);
    g := WriteAndTest(ns, k + 7, g, k + 2, k + 5);
    if Store(f.m, address, f.m.regs[rt]).Ok? {
      g := WriteAndTest(ns, k + 16, g, k + 4, k + 6);
    }
  }

  /** A helper call with an instruction, then the exit test. */
  lemma CallChunk(ns: seq<Node>, k: nat, f: Frame, h: Handler, i: Instr) returns (g: Frame)
    requires At(ns, k, EncodeCall(k, h, i))
    ensures var after := Caught(RunHandler(h, f.m, i));
      if after.status == RUNNING then Eval(ns, k, f) == Eval(ns, k + 9, g) && g.m == after
      else Eval(ns, k, f) == Returned(after, 0)
  {
    hide Eval, PureValue, EffectOf, RunHandler, EncodeExitIfStopped;
    AtSplit(ns, k, [CallHandler(h, i)], EncodeExitIfStopped(k + 1));
    g := HandlerNode(ns, k, f, h, i);
    g := ExitIfStopped(ns, k + 1, g);
  }
}
