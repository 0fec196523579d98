/** What validation buys the interpreter: the pc stays on instructions, the frame pointer is fixed,
    stores stay in bounds, and forward-only programs halt. */
module Safety {
  import opened Words
  import opened Memory
  import opened Ebpf
  import opened Interp

  /** The pc is one past the end or at an instruction, never at the second half of an lddw. */
  predicate PcOk(prog: seq<Inst>, pc: int) {
    0 <= pc <= |prog| && (pc < |prog| ==> !IsTail(prog, pc))
  }

  /** The instruction has no defined step to the slot after it: EXIT, JA, a shift by an immediate
      outside the width that C defines (the 32-bit left shift is computed in 64 bits), or a branch
      whose comparison always holds. */
  predicate NeverFalls(inst: Inst) {
    match inst.Op()
    case Exit => true
    case Ja => true
    case Alu(is64, kind, useReg) =>
      IsShift(kind) && !useReg && !(0 <= inst.imm < if is64 || kind == Lsh then 64 else 32)
    case Jcond(cond, useReg) =>
      if useReg then inst.dst == inst.src && (cond == Eq || cond == Ge || cond == Sge)
      else cond == Ge && inst.imm == 0
    case _ => false
  }

  /** The check that validate leaves out: the last instruction does not run off the end. */
  predicate Closed(prog: seq<Inst>) {
    forall i :: 0 <= i < |prog| && !IsTail(prog, i) && FallThrough(prog, i) == |prog| ==> NeverFalls(prog[i])
  }

  /** No branch goes back. */
  predicate ForwardOnly(prog: seq<Inst>) {
    forall i :: 0 <= i < |prog| && (prog[i].Op().Ja? || prog[i].Op().Jcond?) ==> prog[i].offset >= 0
  }

  /** The context buffer and the eBPF stack. */
  predicate InRegion(env: Env, a: int) { InContext(env, a) || OnStack(env, a) }

  predicate InContext(env: Env, a: int) { env.memBase <= a < env.memBase + env.memLen }
  predicate OnStack(env: Env, a: int) { env.stackBase <= a < env.stackBase + STACK_SIZE }

  ghost predicate ChangesWithin(m: Mem, m': Mem, env: Env, extra: set<int>) {
    m'.Keys == m.Keys && forall a :: a in m && m'[a] != m[a] ==> InRegion(env, a) || a in extra
  }

  lemma {:induction false} BoundsInRegion(env: Env, addr: u64, n: nat)
    requires InBounds(env, addr, n)
    ensures forall a :: addr <= a < addr + n ==> InRegion(env, a)
  {
  }

  /** An access is let through exactly if all its bytes lie in the context buffer, which is there, or
      all of them on the stack. */
  lemma {:induction false} BoundsExact(env: Env, addr: u64, n: nat)
    requires n > 0
    ensures InBounds(env, addr, n) <==>
      || (env.memBase != 0 && forall a :: addr <= a < addr + n ==> InContext(env, a))
      || (forall a :: addr <= a < addr + n ==> OnStack(env, a))
  {
    var last := addr + n - 1;
    if env.memBase != 0 && forall a :: addr <= a < addr + n ==> InContext(env, a) {
      assert InContext(env, addr) && InContext(env, last);
    } else if forall a :: addr <= a < addr + n ==> OnStack(env, a) {
      assert OnStack(env, addr) && OnStack(env, last);
    }
  }

  lemma {:induction false} NextSlotOk(prog: seq<Inst>, funcs: set<int>, i: nat)
    requires Validated(prog, funcs) && i < |prog| && !IsTail(prog, i)
    ensures PcOk(prog, if prog[i].Op().Lddw? then i + 2 else i + 1)
    ensures NextPc(i, if prog[i].Op().Lddw? then 1 else 0) == if prog[i].Op().Lddw? then i + 2 else i + 1
  {
    hide OpOf, Validated;
    ValidAt(prog, funcs, i);
    assert prog[i].Op().Lddw? ==> IsTail(prog, i + 1);
  }

  lemma {:induction false} JumpTargetOk(prog: seq<Inst>, funcs: set<int>, i: nat)
    requires Validated(prog, funcs) && i < |prog| && !IsTail(prog, i) && (prog[i].Op().Ja? || prog[i].Op().Jcond?)
    ensures NextPc(i, prog[i].offset) == i + 1 + prog[i].offset && NextPc(i, prog[i].offset) < |prog|
    ensures PcOk(prog, NextPc(i, prog[i].offset))
  {
    hide OpOf, IsTail;
    ValidAt(prog, funcs, i);
    hide Validated;
    ZeroOpcodeIsTail(prog, funcs, i + 1 + prog[i].offset);
  }

  /** Where a step can go: to the next slot, or to the target of a branch. */
  lemma {:induction false} StepPc(env: Env, prog: seq<Inst>, funcs: set<int>, s: State)
    requires Validated(prog, funcs) && PcOk(prog, s.pc) && Step(env, prog, s).Next?
    ensures var pc := Step(env, prog, s).s.pc;
      s.pc < |prog| && PcOk(prog, pc) && (ForwardOnly(prog) ==> pc > s.pc) &&
      (if NeverFalls(prog[s.pc]) then pc < |prog| else pc < |prog| || pc == FallThrough(prog, s.pc))
  {
    hide OpOf, Alu32, Alu64, EndianVal, Taken, InBounds, Mapped, Load, Store, RunHelper, IsTail, NextPc, Wide, Validated,
         ForwardOnly, NeverFalls;
    NextSlotOk(prog, funcs, s.pc);
    if NeverFalls(prog[s.pc]) { NeverFallsJumps(env, prog, s); }
    if prog[s.pc].Op().Ja? || prog[s.pc].Op().Jcond? {
      JumpTargetOk(prog, funcs, s.pc);
      if ForwardOnly(prog) { ForwardAt(prog, s.pc); }
    }
  }

  lemma {:induction false} ForwardAt(prog: seq<Inst>, i: nat)
    requires ForwardOnly(prog) && i < |prog| && (prog[i].Op().Ja? || prog[i].Op().Jcond?)
    ensures prog[i].offset >= 0
  {
    hide OpOf;
  }

  lemma {:induction false} NeverFallsJumps(env: Env, prog: seq<Inst>, s: State)
    requires 0 <= s.pc < |prog| && NeverFalls(prog[s.pc]) && Step(env, prog, s).Next?
    ensures (prog[s.pc].Op().Ja? || prog[s.pc].Op().Jcond?) && Step(env, prog, s).s.pc == NextPc(s.pc, prog[s.pc].offset)
  {
    hide OpOf, EndianVal, InBounds, Mapped, Load, Store, RunHelper, NextPc, Wide;
  }

  lemma {:induction false} NotFramePointer(prog: seq<Inst>, funcs: set<int>, i: nat)
    requires Validated(prog, funcs) && i < |prog| && !IsTail(prog, i)
    ensures prog[i].Op().St? || prog[i].Op().Stx? || prog[i].dst != 10
  {
    hide OpOf, IsTail;
    ValidAt(prog, funcs, i);
  }

  /** No instruction of a validated program writes r10. */
  lemma {:induction false} StepFramePointer(env: Env, prog: seq<Inst>, funcs: set<int>, s: State)
    requires Validated(prog, funcs) && PcOk(prog, s.pc) && Step(env, prog, s).Next?
    ensures Step(env, prog, s).s.regs[10] == s.regs[10]
  {
    hide OpOf, Alu32, Alu64, EndianVal, Taken, InBounds, Mapped, Load, Store, RunHelper, IsTail, NextPc, Wide, Validated;
    NotFramePointer(prog, funcs, s.pc);
  }

  /** The addresses the registered helpers may change. */
  ghost predicate HelpersWithin(env: Env, funcs: set<int>, extra: set<int>) {
    forall imm: int32, regs: Regs, m: Mem :: imm in funcs ==> ChangesWithin(m, RunHelper(env, imm, regs, m).mem, env, extra)
  }

  /** Stores change nothing outside the context buffer and the stack. */
  lemma {:induction false} StepMemory(env: Env, prog: seq<Inst>, funcs: set<int>, s: State, extra: set<int>)
    requires Validated(prog, funcs) && PcOk(prog, s.pc) && Step(env, prog, s).Next? && HelpersWithin(env, funcs, extra)
    ensures ChangesWithin(s.mem, Step(env, prog, s).s.mem, env, extra)
  {
    hide OpOf, Alu32, Alu64, EndianVal, Taken, InBounds, Load, RunHelper, NextPc, Wide, InRegion, IsTail, Validated;
    ValidAt(prog, funcs, s.pc);
    var inst := prog[s.pc];
    if inst.Op().St? || inst.Op().Stx? {
      var addr, n := U64(s.regs[inst.dst] + inst.offset), SizeBytes(inst.Op().size);
      if InBounds(env, addr, n) { BoundsInRegion(env, addr, n); }
    }
  }

  /** A step of a validated program keeps the pc on instructions and r10 fixed. */
  lemma {:induction false} StepSafe(env: Env, prog: seq<Inst>, funcs: set<int>, s: State)
    requires Validated(prog, funcs) && PcOk(prog, s.pc) && Step(env, prog, s).Next?
    ensures PcOk(prog, Step(env, prog, s).s.pc) && Step(env, prog, s).s.regs[10] == s.regs[10]
  {
    hide Step, IsTail, Validated;
    StepPc(env, prog, funcs, s);
    StepFramePointer(env, prog, funcs, s);
  }

  lemma {:induction false} StepStaysIn(env: Env, prog: seq<Inst>, funcs: set<int>, s: State)
    requires Validated(prog, funcs) && Closed(prog) && PcOk(prog, s.pc) && Step(env, prog, s).Next?
    ensures Step(env, prog, s).s.pc < |prog|
  {
    hide Step, OpOf, IsTail, Validated, NeverFalls, FallThrough;
    StepPc(env, prog, funcs, s);
  }

  /** Safety of whole runs: if the last instruction cannot run off the end, in every reachable state
      the pc is inside the program and not on an lddw tail, r10 is what it was, and memory changed
      only inside the context buffer, the stack and what helpers may touch. */
  lemma {:induction false} RunSafe(env: Env, prog: seq<Inst>, funcs: set<int>, s: State, n: nat, extra: set<int>)
    requires Validated(prog, funcs) && Closed(prog) && HelpersWithin(env, funcs, extra)
    requires 0 <= s.pc < |prog| && !IsTail(prog, s.pc) && Run(env, prog, s, n).Next?
    ensures var t := Run(env, prog, s, n).s;
      0 <= t.pc < |prog| && !IsTail(prog, t.pc) && t.regs[10] == s.regs[10] && ChangesWithin(s.mem, t.mem, env, extra)
    decreases n
  {
    hide Step, IsTail, Validated, Closed, HelpersWithin, InRegion;
    if n > 0 {
      StepSafe(env, prog, funcs, s);
      StepStaysIn(env, prog, funcs, s);
      StepMemory(env, prog, funcs, s, extra);
      RunSafe(env, prog, funcs, Step(env, prog, s).s, n - 1, extra);
    }
  }

  /** Without backward branches a run is over after at most as many steps as there are slots left. */
  lemma {:induction false} ForwardHalts(env: Env, prog: seq<Inst>, funcs: set<int>, s: State, n: nat)
    requires Validated(prog, funcs) && ForwardOnly(prog) && PcOk(prog, s.pc) && n > |prog| - s.pc
    ensures !Run(env, prog, s, n).Next?
    ensures Closed(prog) && s.pc < |prog| ==> !Run(env, prog, s, n - 1).Next?
    decreases n
  {
    hide Step, IsTail, Validated, Closed, ForwardOnly, NeverFalls, FallThrough;
    if Step(env, prog, s).Next? {
      StepPc(env, prog, funcs, s);
      if Closed(prog) { StepStaysIn(env, prog, funcs, s); }
      ForwardHalts(env, prog, funcs, Step(env, prog, s).s, n - 1);
    }
  }

  // ----- the check is exact -----

  /** Register contents for which the branch is not taken, as a destination and a source value. */
  function Untaken(cond: Cond, useReg: bool, same: bool, imm: int32): (v: (u64, u64)) {
    if useReg then (if cond == Ne || same then (0, 0) else (0, 1))
    else match cond
      case Eq => (if imm == 0 then 1 else 0, 0)
      case Ne => (U64(imm), 0)
      case Sgt => (0x8000_0000_0000_0000, 0)
      case Sge => (0x8000_0000_0000_0000, 0)
      case _ => (0, 0)
  }

  lemma {:induction false} AndZero(x: nat)
    ensures Bitwise(BitAnd, 0, x) == 0
  {
    if x != 0 { AndZero(x / 2); }
  }

  lemma {:induction false} UntakenFalls(cond: Cond, useReg: bool, same: bool, imm: int32)
    requires !(if useReg then same && (cond == Eq || cond == Ge || cond == Sge) else cond == Ge && imm == 0)
    ensures var v := Untaken(cond, useReg, same, imm);
      !Taken(cond, useReg, v.0, if same then v.0 else v.1, imm)
  {
    hide Bitwise;
    AndZero(0);
    AndZero(1);
    AndZero(U64(imm));
  }

  /** All registers 1, but for a branch the two it compares. */
  function FallRegs(inst: Inst): (r: Regs) {
    match inst.Op()
    case Jcond(cond, useReg) =>
      var v := Untaken(cond, useReg, inst.dst == inst.src, inst.imm);
      seq<u64>(16, k => if k == inst.dst then v.0 else v.1)
    case _ => seq<u64>(16, _ => 1)
  }

  /** The stack begins where a load or store goes. */
  function FallEnv(inst: Inst): Env {
    Env(0, 0, U64(1 + inst.offset), _ => 0, (imm, args, m) => HelperResult(0, m))
  }

  function FallMem(inst: Inst): Mem { Zeros(U64(1 + inst.offset), U64(1 + inst.offset) + 8) }

  /** Any other last instruction runs off the end from some state. */
  lemma {:induction false} Falls(prog: seq<Inst>, funcs: set<int>, i: nat)
    requires Validated(prog, funcs) && i < |prog| && !IsTail(prog, i) && FallThrough(prog, i) == |prog| && !NeverFalls(prog[i])
    ensures var s := State(i, FallRegs(prog[i]), FallMem(prog[i]));
      var r := Step(FallEnv(prog[i]), prog, s); r.Next? && r.s.pc == |prog|
  {
    hide OpOf, Validated, IsTail, NeverFalls, Step;
    ValidAt(prog, funcs, i);
    NextSlotOk(prog, funcs, i);
    match prog[i].Op()
    case Alu(_, _, _) => AluFalls(prog, funcs, i);
    case Ldx(_) => MemFalls(prog, i);
    case St(_) => MemFalls(prog, i);
    case Stx(_) => MemFalls(prog, i);
    case Jcond(_, _) => BranchFalls(prog, i);
    case _ => OtherFalls(prog, funcs, i);
  }

  lemma {:induction false} AluFalls(prog: seq<Inst>, funcs: set<int>, i: nat)
    requires i < |prog| && InstOk(prog, funcs, i) && prog[i].Op().Alu? && !NeverFalls(prog[i])
    ensures var r := Step(FallEnv(prog[i]), prog, State(i, FallRegs(prog[i]), FallMem(prog[i])));
      r.Next? && r.s.pc == NextPc(i, 0)
  {
    hide OpOf, NextPc, Bitwise, Pow2, Shl, Shr;
  }

  lemma {:induction false} MemFalls(prog: seq<Inst>, i: nat)
    requires i < |prog| && (prog[i].Op().Ldx? || prog[i].Op().St? || prog[i].Op().Stx?)
    ensures var r := Step(FallEnv(prog[i]), prog, State(i, FallRegs(prog[i]), FallMem(prog[i])));
      r.Next? && r.s.pc == NextPc(i, 0)
  {
    hide OpOf, NextPc, Load, Store;
  }

  lemma {:induction false} BranchFalls(prog: seq<Inst>, i: nat)
    requires i < |prog| && prog[i].Op().Jcond? && !NeverFalls(prog[i])
    ensures var r := Step(FallEnv(prog[i]), prog, State(i, FallRegs(prog[i]), FallMem(prog[i])));
      r.Next? && r.s.pc == NextPc(i, 0)
  {
    hide OpOf, NextPc, Taken, Untaken;
    var inst := prog[i];
    UntakenFalls(inst.Op().cond, inst.Op().useReg, inst.dst == inst.src, inst.imm);
  }

  lemma {:induction false} OtherFalls(prog: seq<Inst>, funcs: set<int>, i: nat)
    requires i < |prog| && InstOk(prog, funcs, i) && !NeverFalls(prog[i])
    requires prog[i].Op().Endian? || prog[i].Op().Lddw? || prog[i].Op().Call? || prog[i].Op().Exit? || prog[i].Op().Ja?
             || prog[i].Op().Unknown?
    ensures var r := Step(FallEnv(prog[i]), prog, State(i, FallRegs(prog[i]), FallMem(prog[i])));
      r.Next? && r.s.pc == NextPc(i, if prog[i].Op().Lddw? then 1 else 0)
  {
    hide OpOf, NextPc, RunHelper, Wide, EndianVal;
  }

  /** The condition is exact: an accepted program keeps the pc inside from every start inside if and
      only if its last instruction cannot run off the end. */
  lemma {:induction false} StaysInsideExactly(prog: seq<Inst>, funcs: set<int>)
    requires Validated(prog, funcs)
    ensures Closed(prog) <==>
      forall env: Env, s: State, n: nat :: 0 <= s.pc < |prog| && !IsTail(prog, s.pc) && Run(env, prog, s, n).Next? ==>
        0 <= Run(env, prog, s, n).s.pc < |prog|
  {
    hide Validated, Step, IsTail, NeverFalls, FallThrough;
    if Closed(prog) {
      forall env: Env, s: State, n: nat | 0 <= s.pc < |prog| && !IsTail(prog, s.pc) && Run(env, prog, s, n).Next?
        ensures 0 <= Run(env, prog, s, n).s.pc < |prog|
      {
        RunInside(env, prog, funcs, s, n);
      }
    } else {
      var i :| 0 <= i < |prog| && !IsTail(prog, i) && FallThrough(prog, i) == |prog| && !NeverFalls(prog[i]);
      Falls(prog, funcs, i);
      var env, s := FallEnv(prog[i]), State(i, FallRegs(prog[i]), FallMem(prog[i]));
      var t := Step(env, prog, s).s;
      assert Run(env, prog, t, 0) == Next(t);
      assert Run(env, prog, s, 1) == Next(t);
    }
  }

  lemma {:induction false} RunInside(env: Env, prog: seq<Inst>, funcs: set<int>, s: State, n: nat)
    requires Validated(prog, funcs) && Closed(prog)
    requires 0 <= s.pc < |prog| && !IsTail(prog, s.pc) && Run(env, prog, s, n).Next?
    ensures 0 <= Run(env, prog, s, n).s.pc < |prog| && !IsTail(prog, Run(env, prog, s, n).s.pc)
    decreases n
  {
    hide Step, IsTail, Validated, Closed;
    if n > 0 {
      StepSafe(env, prog, funcs, s);
      StepStaysIn(env, prog, funcs, s);
      RunInside(env, prog, funcs, Step(env, prog, s).s, n - 1);
    }
  }

  /** mov r0, 0 */
  const MOVE := Inst(0xb7, 0, 0, 0, 0)

  /** The check is needed: a program of one move is accepted, and after one step the pc is past its
      end, where the next fetch is undefined. */
  lemma {:induction false} FallsOff(env: Env, s: State)
    requires s.pc == 0
    ensures Validated([MOVE], {}) && !Closed([MOVE])
    ensures var r := Run(env, [MOVE], s, 1); r.Next? && r.s.pc == 1
    ensures Run(env, [MOVE], s, 2) == Undefined
  {
    hide Step;
    var t := State(1, s.regs[0 := 0], s.mem);
    assert !IsTail([MOVE], 0) && FallThrough([MOVE], 0) == 1 && !NeverFalls([MOVE][0]);
    MoveStep(env, s);
    PastEnd(env, t);
    assert Run(env, [MOVE], t, 0) == Next(t);
    assert Run(env, [MOVE], s, 1) == Next(t);
    assert Run(env, [MOVE], t, 1) == Undefined;
  }

  lemma {:induction false} MoveStep(env: Env, s: State)
    requires s.pc == 0
    ensures MOVE.Op() == Alu(true, Mov, false) && Step(env, [MOVE], s) == Next(State(1, s.regs[0 := 0], s.mem))
  {
  }

  lemma {:induction false} PastEnd(env: Env, s: State)
    requires s.pc == 1
    ensures Step(env, [MOVE], s) == Undefined
  {
  }
}
