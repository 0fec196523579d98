/** The compiler is correct: interpreter run in, machine run out. */
module Equivalence {
  import opened Words
  import opened Ebpf
  import opened X86
  import opened Machine
  import opened Jit
  import opened Simulation
  import opened SlotSim
  import opened Abi
  import opened Compile
  import opened Agreement
  import Interp
  import JitSem
  import Safety

  /** The state ubpf_exec starts in; registers other than r1 and r10 hold whatever they hold. */
  ghost predicate InitialState(env: Interp.Env, s: Interp.State) {
    s.pc == 0 && s.regs[1] == env.memBase && s.regs[10] == env.stackBase + STACK_SIZE
  }

  /** Called with the same context pointer and with its stack where the interpreter has its own,
      the compiled code returns the interpreter's result and leaves the same memory, for every
      finished interpreter run whose steps meet the agreement guard. */
  lemma {:induction false} CompiledMatchesInterpreter(
      rm: RegMap, link: Link, w: World, env: Interp.Env, prog: seq<Inst>, funcs: set<int>, s: Interp.State, n: nat, c0: Core)
      returns (k: nat, c: Core, ra: u64)
    requires ValidMap(rm) && Validated(prog, funcs) && Fits(rm, link, prog)
    requires CallsAllowed(rm, env, prog) && Linked(w, env, link, funcs) && EntryOk(w, s.mem, c0)
    requires InitialState(env, s) && env.memBase == c0.regs[RDI] && env.stackBase == Sp(c0) - 40 - STACK_SIZE
    requires Interp.Run(env, prog, s, n).Done? && AgreesAlong(env, prog, s, {1, 10}, n)
    ensures var r := Interp.Run(env, prog, s, n);
      Steps(w, Compiled(rm, link, prog), Cpu(0, c0), k) == Halted(c, ra) && Returned(w, r.mem, c0, r.value, c, ra)
  {
    hide Interp.Run, AgreesAlong, Steps, ValidMap, Validated, Fits, CallsAllowed, Linked, EntryOk, Compiled, Returned, Step;
    assert Safety.PcOk(prog, 0);
    RunRefines(env, prog, funcs, s, {1, 10}, n);
    k, c, ra := CompiledCodeRuns(rm, link, w, env, prog, funcs, s, n, c0);
  }
  /** As long as the interpreter runs and its steps meet the guard, the compiled code neither returns
      nor faults: it is at the code of the interpreter's next instruction, with the same memory and the
      same content in every register that is determined. */
  lemma {:induction false} CompiledKeepsUp(
      rm: RegMap, link: Link, w: World, env: Interp.Env, prog: seq<Inst>, funcs: set<int>, s: Interp.State, n: nat, c0: Core)
      returns (k: nat, fr: Frame, m: Cpu)
    requires ValidMap(rm) && Validated(prog, funcs) && Fits(rm, link, prog)
    requires CallsAllowed(rm, env, prog) && Linked(w, env, link, funcs) && EntryOk(w, s.mem, c0)
    requires InitialState(env, s) && env.memBase == c0.regs[RDI] && env.stackBase == Sp(c0) - 40 - STACK_SIZE
    requires Interp.Run(env, prog, s, n).Next? && AgreesAlong(env, prog, s, {1, 10}, n)
    ensures Steps(w, Compiled(rm, link, prog), Cpu(0, c0), k) == Running(m) && FrameWords(fr, c0)
    ensures var j := JitSem.Run(env, prog, s, {1, 10}, n);
      j.JNext? && AtPc(rm, link, w, fr, prog, Interp.Run(env, prog, s, n).s, j.known, m)
  {
    hide Interp.Run, JitSem.Run, AgreesAlong, Steps, ValidMap, Validated, Fits, CallsAllowed, Linked, EntryOk, Compiled,
         AtPc, Step, FrameWords;
    assert Safety.PcOk(prog, 0);
    RunRefines(env, prog, funcs, s, {1, 10}, n);
    k, fr, m := CompiledCodeFollows(rm, link, w, env, prog, funcs, s, n, c0);
  }

  /** Division by zero: when the interpreter, still inside the guard, is at a register division whose
      used divisor half is zero, it reports an error (whole register zero) or runs into undefined
      behaviour; the compiled code crashes. */
  lemma {:induction false} ZeroDivisorCrashes(
      rm: RegMap, link: Link, w: World, env: Interp.Env, prog: seq<Inst>, funcs: set<int>, s: Interp.State, n: nat, c0: Core)
      returns (k: nat)
    requires ValidMap(rm) && Validated(prog, funcs) && Fits(rm, link, prog)
    requires CallsAllowed(rm, env, prog) && Linked(w, env, link, funcs) && EntryOk(w, s.mem, c0)
    requires InitialState(env, s) && env.memBase == c0.regs[RDI] && env.stackBase == Sp(c0) - 40 - STACK_SIZE
    requires Interp.Run(env, prog, s, n).Next? && AgreesAlong(env, prog, s, {1, 10}, n)
    requires var t := Interp.Run(env, prog, s, n).s;
      var j := JitSem.Run(env, prog, s, {1, 10}, n);
      0 <= t.pc < |prog| && prog[t.pc].Op().Alu? && prog[t.pc].Op().useReg && prog[t.pc].imm == 0 &&
      DividesByZero(prog[t.pc], t.regs[prog[t.pc].src]) && (j.JNext? ==> prog[t.pc].src as int in j.known)
    ensures var t := Interp.Run(env, prog, s, n).s;
      Interp.Step(env, prog, t) == if t.regs[prog[t.pc].src] == 0 then Interp.Failed else Interp.Undefined
    ensures Steps(w, Compiled(rm, link, prog), Cpu(0, c0), k) == Crashed
  {
    hide Interp.Run, Interp.Step, JitSem.Run, AgreesAlong, Steps, ValidMap, Validated, Fits, CallsAllowed, Linked, EntryOk,
         Compiled, Step, OpOf;
    assert Safety.PcOk(prog, 0);
    RunRefines(env, prog, funcs, s, {1, 10}, n);
    ZeroDivisorStep(env, prog, Interp.Run(env, prog, s, n).s);
    k := CompiledCodeCrashes(rm, link, w, env, prog, funcs, s, n, c0);
  }

  /** A program that keeps the interpreter running for ever, within the guard, keeps the machine
      running for ever. */
  lemma {:induction false} CompiledRunsForever(
      rm: RegMap, link: Link, w: World, env: Interp.Env, prog: seq<Inst>, funcs: set<int>, s: Interp.State, c0: Core, k: nat)
    requires ValidMap(rm) && Validated(prog, funcs) && Fits(rm, link, prog)
    requires CallsAllowed(rm, env, prog) && Linked(w, env, link, funcs) && EntryOk(w, s.mem, c0)
    requires InitialState(env, s) && env.memBase == c0.regs[RDI] && env.stackBase == Sp(c0) - 40 - STACK_SIZE
    requires forall n: nat :: Interp.Run(env, prog, s, n).Next? && AgreesAlong(env, prog, s, {1, 10}, n)
    ensures Steps(w, Compiled(rm, link, prog), Cpu(0, c0), k).Running?
  {
    hide Interp.Run, AgreesAlong, Steps, ValidMap, Validated, Fits, CallsAllowed, Linked, EntryOk, Compiled, Step, JitSem.Run;
    assert Safety.PcOk(prog, 0);
    forall n: nat ensures JitSem.Run(env, prog, s, {1, 10}, n).JNext? {
      RunRefines(env, prog, funcs, s, {1, 10}, n);
    }
    CompiledCodeRunsForever(rm, link, w, env, prog, funcs, s, c0, k);
  }
}
