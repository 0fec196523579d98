/** The interpreter's loop and the compiled bytes, called the same way. */
module EndToEnd {
  import opened Words
  import opened Memory
  import opened Ebpf
  import opened X86
  import opened Machine
  import opened Jit
  import opened Simulation
  import opened SlotSim
  import opened Abi
  import opened Compile
  import opened Agreement
  import opened Equivalence
  import opened Executor
  import Interp

  /** ubpf_exec starts with the context pointer in r1 and the end of its stack in r10. */
  lemma {:induction false} StartsInitial(env: Interp.Env, regs: Interp.Regs, mem: Mem)
    requires env.stackBase + STACK_SIZE < 0x1_0000_0000_0000_0000
    ensures InitialState(env, Start(env, regs, mem)) && Start(env, regs, mem).mem == mem
    ensures forall q :: 0 <= q < 16 && q != 1 && q != 10 ==> Start(env, regs, mem).regs[q] == regs[q]
  {
    StartIs(env, regs, mem);
  }

  lemma {:induction false} StackFits(w: World, mem: Mem, c0: Core)
    requires EntryOk(w, mem, c0)
    ensures Sp(c0) - 40 < 0x1_0000_0000_0000_0000
  {
  }

  /** If ubpf_exec returns a value within its turns and the run meets the guard, the compiled bytes,
      called with the same context pointer and the same stack, return that value, leave the same memory
      and restore what a C function must. */
  method ExecThenCompiled(rm: RegMap, link: Link, ghost w: World, env: Interp.Env, prog: seq<Inst>, ghost funcs: set<int>,
                          regs: Interp.Regs, mem: Mem, turns: nat, ghost c0: Core)
      returns (r: Interp.Outcome, ghost k: nat, ghost c: Core, ghost ra: u64)
    requires ValidMap(rm) && Validated(prog, funcs) && Fits(rm, link, prog)
    requires CallsAllowed(rm, env, prog) && Linked(w, env, link, funcs) && EntryOk(w, mem, c0)
    requires env.memBase == c0.regs[RDI] && env.stackBase == Sp(c0) - 40 - STACK_SIZE
    requires AgreesAlong(env, prog, Start(env, regs, mem), {1, 10}, turns)
    ensures r.Done? ==>
      Steps(w, Compiled(rm, link, prog), Cpu(0, c0), k) == Halted(c, ra) && Returned(w, r.mem, c0, r.value, c, ra)
  {
    hide Interp.Run, AgreesAlong, Steps, ValidMap, Validated, Fits, CallsAllowed, Linked, EntryOk, Compiled, Returned, Step,
         Start, InitialState;
    StackFits(w, mem, c0);
    StartsInitial(env, regs, mem);
    r := UbpfExec(env, prog, regs, mem, turns);
    if r.Done? {
      k, c, ra := CompiledMatchesInterpreter(rm, link, w, env, prog, funcs, Start(env, regs, mem), turns, c0);
    } else {
      k, c, ra := 0, c0, 0;
    }
  }
}
