/** The switch and the threaded engine, and one step of the interpreter loop. */
module Interpreters {
  import opened Words
  import opened Instructions
  import opened GuestMemory
  import opened MachineState
  import opened CacheSpec
  import opened Executor

  /** The switch loop over the instructions of a block, from number `k` on. */
  function RunFrom(m: Machine, instrs: seq<Instr>, k: nat): Step
    requires k <= |instrs|
    decreases |instrs| - k
  {
    if k == |instrs| then Ok(m)
    else
      match Exec(m, instrs[k])
      case Raise(m1, code) => Raise(m1, code)
      case Ok(m1) => RunFrom(m1, instrs, k + 1)
  }

  /** The number of the instruction at which the loop from number `k` on raises, or the length. */
  function RaisedAt(m: Machine, instrs: seq<Instr>, k: nat): (r: nat)
    requires k <= |instrs|
    ensures k <= r <= |instrs|
    decreases |instrs| - k
  {
    if k == |instrs| then k
    else
      match Exec(m, instrs[k])
      case Raise(_, _) => k
      case Ok(m1) => RaisedAt(m1, instrs, k + 1)
  }

  /** Threaded code: each handler calls the next one; block terminators return. */
  function ThreadFrom(m: Machine, instrs: seq<Instr>, k: nat): Step
    requires k < |instrs|
    decreases |instrs| - k
  {
    if EndsBlock(instrs[k]) then Exec(m, instrs[k])
    else
      match Exec(m, instrs[k])
      case Raise(m1, code) => Raise(m1, code)
      case Ok(m1) => if k + 1 == |instrs| then Ok(m1) else ThreadFrom(m1, instrs, k + 1)
  }

  /** Block terminators stand in last place only. */
  predicate TerminatorsLast(instrs: seq<Instr>) {
    forall k :: 0 <= k < |instrs| - 1 ==> !EndsBlock(instrs[k])
  }

  lemma {:induction false} ThreadedIsSwitch(m: Machine, instrs: seq<Instr>, k: nat)
    requires k < |instrs| && TerminatorsLast(instrs)
    ensures ThreadFrom(m, instrs, k) == RunFrom(m, instrs, k)
    decreases |instrs| - k
  {
    hide Exec;
    match Exec(m, instrs[k])
    case Raise(_, _) =>
    case Ok(m1) =>
      if k + 1 < |instrs| {
        ThreadedIsSwitch(m1, instrs, k + 1);
      }
  }

  /** The number of the first terminator from number `k` on, or of the last instruction. */
  function FirstEnd(instrs: seq<Instr>, k: nat): (e: nat)
    requires k < |instrs|
    ensures k <= e < |instrs|
    decreases |instrs| - k
  {
    if EndsBlock(instrs[k]) || k + 1 == |instrs| then k else FirstEnd(instrs, k + 1)
  }

  /**
    On every block, threaded code does what the switch loop does up to the first
    terminator; the switch loop alone goes on with what follows.
  */
  lemma {:induction false} ThreadedStopsAtTerminator(m: Machine, instrs: seq<Instr>, k: nat)
    requires k < |instrs|
    ensures var t := ThreadFrom(m, instrs, k);
      RunFrom(m, instrs, k) == if t.Ok? then RunFrom(t.m, instrs, FirstEnd(instrs, k) + 1) else t
    decreases |instrs| - k
  {
    hide Exec;
    if !EndsBlock(instrs[k]) && k + 1 < |instrs| && Exec(m, instrs[k]).Ok? {
      ThreadedStopsAtTerminator(Exec(m, instrs[k]).m, instrs, k + 1);
    }
  }

  /** With a terminator in the middle the two engines can differ. */
  lemma ThreadedNeedsTerminatorsLast(m: Machine)
    ensures ThreadFrom(m, [J(0), Li(0, 1)], 0) != RunFrom(m, [J(0), Li(0, 1)], 0)
  {
    var instrs := [J(0), Li(0, 1)];
    var m1 := m.(pc := JumpTarget(m.pc, 0));
    assert RunFrom(m, instrs, 0) == RunFrom(m1, instrs, 1);
    assert RunFrom(m1, instrs, 1) == Ok(Advance(SetReg(m1, 0, 1)));
    assert Add32(m1.pc, 4) != m1.pc;
  }

  /**
    One step of the interpreter loop: the block ran, it raised an error (the
    context is faulted and the error is rethrown), or there was no block to run.
  */
  datatype Progress =
    | Ran(m: Machine)
    | Threw(m: Machine, code: ErrorCode)
    | FetchError(m: Machine, code: ErrorCode)

  function Settle(s: Step): Progress {
    match s
    case Ok(m) => Ran(m)
    case Raise(m, code) => Threw(Fault(m), code)
  }

  function SwitchStep(m: Machine): Progress {
    match GetBlock(m.cache, m.mem, m.pc)
    case Missing(cache, code) => FetchError(m.(cache := cache), code)
    case Found(cache) => Settle(RunFrom(m.(cache := cache), cache.blocks[m.pc].instrs, 0))
  }

  /** One step of the loop with the threaded engine. A block without instructions is never decoded. */
  function ThreadedStep(m: Machine): Progress {
    match GetBlock(m.cache, m.mem, m.pc)
    case Missing(cache, code) => FetchError(m.(cache := cache), code)
    case Found(cache) =>
      var instrs := cache.blocks[m.pc].instrs;
      if instrs == [] then Ran(m.(cache := cache)) else Settle(ThreadFrom(m.(cache := cache), instrs, 0))
  }
}
