/** Whole runs: the compiled bytes, entered as a C function, return what the program computes. */
module Compile {
  import opened Words
  import opened Memory
  import opened Ebpf
  import opened X86
  import opened Machine
  import opened Encoding
  import opened Jit
  import opened Simulation
  import opened MulDivSim
  import opened SlotSim
  import opened CodeRun
  import opened Abi
  import Interp
  import JitSem

  /** The size of the code buffer of ubpf_compile. */
  const CODE_BUFFER := 65536

  ghost predicate Fits(rm: RegMap, link: Link, prog: seq<Inst>) { CodeSize(rm, link, prog) <= CODE_BUFFER }

  /** The machine is at the code of the next eBPF instruction, in a related state. */
  ghost predicate AtPc(rm: RegMap, link: Link, w: World, fr: Frame, prog: seq<Inst>,
                       s: Interp.State, known: set<int>, m: Cpu) {
    0 <= s.pc <= |prog| && (s.pc < |prog| ==> !IsTail(prog, s.pc)) &&
    m.rip == Loc(AllSlots(rm, link, prog), s.pc + 1) &&
    Related(rm, w, fr, known, s.regs, s.mem, m.core)
  }

  /** Displacements are exact: code offsets are far below 2^31. */
  lemma {:induction false} RelExact(rm: RegMap, link: Link, prog: seq<Inst>, k: nat)
    requires Fits(rm, link, prog) && k < |prog| + 3
    ensures var slots := AllSlots(rm, link, prog);
      RelOf(slots, |prog|, k) == TargetLoc(slots, |prog|, JumpTarget(slots[k])) - Loc(slots, k + 1)
  {
    hide SlotLen, AllSlots, Loc;
    var slots := AllSlots(rm, link, prog);
    var n := |prog|;
    var t := JumpTarget(slots[k]);
    LocMono(slots, k + 1, n + 3);
    LocMono(slots, n + 1, n + 3);
    LocMono(slots, n + 2, n + 3);
    if t < n { LocMono(slots, t + 1, n + 3); }
  }

  /** Where a slot's execution ends: its resolved target, or the start of the next slot. */
  lemma {:induction false} SlotEnds(rm: RegMap, link: Link, w: World, prog: seq<Inst>, i: nat, m: Cpu) returns (k: nat)
    requires ValidMap(rm) && Fits(rm, link, prog) && i < |prog| && !IsTail(prog, i)
    requires m.rip == Loc(AllSlots(rm, link, prog), i + 1)
    requires var r := RunBlock(w, SlotOf(rm, link, prog, i).body, m.core);
      r.Ok? && JumpReady(SlotOf(rm, link, prog, i).jump, r.c)
    ensures var slots := AllSlots(rm, link, prog);
      var slot := SlotOf(rm, link, prog, i);
      var c' := RunBlock(w, slot.body, m.core).c;
      Steps(w, Compiled(rm, link, prog), m, k)
      == Running(Cpu(if JumpTaken(slot.jump, c') then TargetLoc(slots, |prog|, JumpTarget(slot))
                     else Loc(slots, i + 2), c'))
      && k == |slot.body| + (if slot.jump.NoJump? then 0 else 1)
  {
    hide RunBlock, Step, SlotBytes, SlotOf, TargetLoc, AllSlots, JumpTaken, JumpReady, ValidMap, AllEncodable;
    var slots := AllSlots(rm, link, prog);
    var slot := SlotOf(rm, link, prog, i);
    SlotAtIndex(rm, link, prog, i);
    assert slots[i + 1] == slot;
    var rel := RelOf(slots, |prog|, i + 1);
    SlotPlaced(slots, |prog|, i + 1);
    SlotEncodable(rm, link, prog, i);
    k := SlotRuns(w, Compiled(rm, link, prog), slot, rel, m);
    RelExact(rm, link, prog, i + 1);
    SlotLenSame(slot, rel);
  }

  /** The second half of an lddw has no code of its own. */
  lemma {:induction false} TailIsEmpty(rm: RegMap, link: Link, prog: seq<Inst>, i: nat)
    requires i + 1 < |prog| && prog[i].Op().Lddw? && !IsTail(prog, i)
    ensures Loc(AllSlots(rm, link, prog), i + 3) == Loc(AllSlots(rm, link, prog), i + 2)
  {
    hide OpOf, AllSlots;
    SlotAtIndex(rm, link, prog, i + 1);
  }

  lemma {:induction false} NextNotTail(prog: seq<Inst>, funcs: set<int>, i: nat)
    requires Validated(prog, funcs) && i < |prog| && !IsTail(prog, i)
    ensures FallThrough(prog, i) <= |prog|
    ensures FallThrough(prog, i) < |prog| ==> !IsTail(prog, FallThrough(prog, i))
  {
    ValidAt(prog, funcs, i);
    hide OpOf, Validated;
  }

  /** One step of the program is some number of machine steps (none for LE, which falls through). */
  lemma {:induction false} MachineFollows(rm: RegMap, link: Link, w: World, env: Interp.Env, fr: Frame, prog: seq<Inst>, funcs: set<int>,
                       s: Interp.State, known: set<int>, m: Cpu) returns (k: nat, m': Cpu)
    requires ValidMap(rm) && Validated(prog, funcs) && Fits(rm, link, prog)
    requires CallsAllowed(rm, env, prog) && Linked(w, env, link, funcs)
    requires AtPc(rm, link, w, fr, prog, s, known, m)
    requires JitSem.Step(env, prog, s, known).JNext?
    ensures var n := JitSem.Step(env, prog, s, known);
      Steps(w, Compiled(rm, link, prog), m, k) == Running(m') && AtPc(rm, link, w, fr, prog, n.s, n.known, m')
      && (k > 0 || n.s.pc > s.pc)
  {
    hide OpOf, SlotOf, RunBlock, Related, ValidMap, Validated, CallsAllowed, Linked, Step, Loc, AllSlots, JumpTaken,
         JumpReady, IsTail, Fits, Compiled;
    StepInside(env, prog, s, known);
    var n := JitSem.Step(env, prog, s, known);
    hide JitSem.Step;
    var i := s.pc;
    SlotStep(rm, w, env, link, fr, prog, funcs, s, known, m.core);
    k := SlotEnds(rm, link, w, prog, i, m);
    m' := Steps(w, Compiled(rm, link, prog), m, k).m;
    NextNotTail(prog, funcs, i);
    var slot := SlotOf(rm, link, prog, i);
    NoJumpFalls(slot.jump, m'.core);
    if JumpTaken(slot.jump, m'.core) {
      ZeroOpcodeIsTail(prog, funcs, n.s.pc);
    } else if prog[i].Op().Lddw? {
      LddwHasTail(prog, funcs, i);
      TailIsEmpty(rm, link, prog, i);
    }
  }

  lemma {:induction false} NoJumpFalls(j: Jump, c: Core)
    ensures j.NoJump? ==> !JumpTaken(j, c)
  {
  }

  lemma {:induction false} StepInside(env: Interp.Env, prog: seq<Inst>, s: Interp.State, known: set<int>)
    requires JitSem.Step(env, prog, s, known) != JitSem.NoResult
    ensures 0 <= s.pc < |prog|
  {
    hide OpOf;
  }

  lemma {:induction false} LddwHasTail(prog: seq<Inst>, funcs: set<int>, i: nat)
    requires Validated(prog, funcs) && i < |prog| && !IsTail(prog, i) && prog[i].Op().Lddw?
    ensures i + 1 < |prog|
  {
    ValidAt(prog, funcs, i);
  }

  // ----- entering and leaving -----

  lemma {:induction false} EntryEncodable(rm: RegMap)
    ensures AllEncodable(Prologue(rm)) && AllEncodable(EpilogueBody(rm))
  {
  }

  /** From the first byte of the code to the first eBPF instruction. */
  lemma {:induction false} EntrySteps(rm: RegMap, link: Link, w: World, prog: seq<Inst>, mem: Mem, regs: Interp.Regs,
                                      c0: Core) returns (k: nat, fr: Frame, m: Cpu)
    requires ValidMap(rm) && EntryOk(w, mem, c0)
    requires regs[1] == c0.regs[RDI] && regs[10] == Sp(c0) - 40
    ensures Steps(w, Compiled(rm, link, prog), Cpu(0, c0), k) == Running(m)
    ensures FrameWords(fr, c0) && AtPc(rm, link, w, fr, prog, Interp.State(0, regs, mem), {1, 10}, m)
  {
    hide RunBlock, Step, Prologue, Encode, EntryOk, Related, FrameWords, ValidMap, EncodeAll;
    var c: Core;
    fr, c := Entered(rm, w, mem, regs, c0);
    var slots := AllSlots(rm, link, prog);
    FrameSlots(rm, link, prog);
    SlotPlaced(slots, |prog|, 0);
    EntryEncodable(rm);
    hide AllEncodable, AllSlots, Compiled;
    assert Loc(slots, 0) == 0;
    assert slots[0].jump == NoJump;
    k := SlotRuns(w, Compiled(rm, link, prog), slots[0], RelOf(slots, |prog|, 0), Cpu(0, c0));
    SlotLenSame(slots[0], RelOf(slots, |prog|, 0));
    m := Steps(w, Compiled(rm, link, prog), Cpu(0, c0), k).m;
    assert Loc(slots, 1) == SlotLen(slots[0]);
  }

  lemma {:induction false} EpiloguePlaced(rm: RegMap, link: Link, prog: seq<Inst>)
    ensures var code, at := Compiled(rm, link, prog), Loc(AllSlots(rm, link, prog), |prog| + 1);
      var b := EncodeAll(EpilogueBody(rm));
      CodeAt(code, at, b) && CodeAt(code, at + |b|, Encode(Ret))
  {
    hide Encode, EpilogueBody, AllSlots, Loc, RelOf, Resolved;
    var code, slots := Compiled(rm, link, prog), AllSlots(rm, link, prog);
    var body := EpilogueBody(rm);
    var at := Loc(slots, |prog| + 1);
    FrameSlots(rm, link, prog);
    SlotPlaced(slots, |prog|, |prog| + 1);
    EncodeAllAppend(body, [Ret]);
    var b := EncodeAll(body);
    assert EncodeAll([Ret]) == Encode(Ret);
    var all := SlotBytes(slots[|prog| + 1], RelOf(slots, |prog|, |prog| + 1));
    assert all == b + Encode(Ret);
    assert code[at..at + |all|] == all;
    assert code[at..at + |b|] == all[..|b|];
    assert code[at + |b|..at + |b| + |Encode(Ret)|] == all[|b|..];
  }

  /** At the exit location the code restores the caller's registers and returns. */
  lemma {:induction false} ExitSteps(rm: RegMap, link: Link, w: World, prog: seq<Inst>, fr: Frame, known: set<int>,
                                     regs: Interp.Regs, mem: Mem, c0: Core, m: Cpu)
      returns (k: nat, c: Core, ra: u64)
    requires ValidMap(rm) && FrameWords(fr, c0) && 0 in known && Sp(c0) + 8 < 0x1_0000_0000_0000_0000
    requires m.rip == Loc(AllSlots(rm, link, prog), |prog| + 1) && Related(rm, w, fr, known, regs, mem, m.core)
    ensures Steps(w, Compiled(rm, link, prog), m, k) == Halted(c, ra)
    ensures Returned(w, mem, c0, regs[0], c, ra)
  {
    hide RunBlock, Step, Encode, Related, FrameWords, ValidMap, EpilogueBody, StepDecoded, Returned, Prologue,
         AllEncodable, AllSlots, Compiled, Loc, EncodeAll, CodeAt;
    var code := Compiled(rm, link, prog);
    var body := EpilogueBody(rm);
    var b := EncodeAll(body);
    EpiloguePlaced(rm, link, prog);
    EntryEncodable(rm);
    var c2: Core;
    c2, c, ra := Leaves(rm, w, fr, known, regs, mem, c0, m.core, m.rip + |b| + |Encode(Ret)|);
    BlockSteps(w, code, body, m);
    var m' := Cpu(m.rip + |b|, c2);
    EncodeNonEmpty(Ret);
    FetchOne(w, code, Ret, m');
    StepsAdd(w, code, m, |body|, 1);
    k := |body| + 1;
  }

  // ----- division by zero -----

  /** A division or remainder whose used divisor half is zero. */
  predicate DividesByZero(inst: Inst, s: u64) {
    inst.Op().Alu? && (inst.Op().kind == Div || inst.Op().kind == Mod) && Trunc(inst.Op().is64, JitSem.Factor(s, inst.imm)) == 0
  }

  lemma {:induction false} MulDivModStraight(is64: bool, kind: AluKind, src: reg, dst: reg, imm: int32)
    ensures forall k :: 0 <= k < |MulDivMod(is64, kind, src, dst, imm)| ==> Straight(MulDivMod(is64, kind, src, dst, imm)[k])
  {
    var a, b := MulDivModIn(is64, kind, src, dst, imm), MulDivModOut(kind, dst);
    assert forall k :: 0 <= k < |a| ==> Straight(a[k]);
    assert forall k :: 0 <= k < |b| ==> Straight(b[k]);
  }

  lemma {:induction false} DivisionSlot(rm: RegMap, link: Link, prog: seq<Inst>, i: nat)
    requires i < |prog| && prog[i].Op().Alu? && IsMulDivMod(prog[i].Op().kind)
    ensures SlotOf(rm, link, prog, i)
         == Slot(MulDivMod(prog[i].Op().is64, prog[i].Op().kind, MapReg(rm, prog[i].src), MapReg(rm, prog[i].dst), prog[i].imm), NoJump)
  {
    hide OpOf, MulDivMod;
  }

  /** A slot whose body gets stuck crashes the machine. */
  lemma {:induction false} SlotCrashes(rm: RegMap, link: Link, w: World, prog: seq<Inst>, i: nat, m: Cpu) returns (k: nat)
    requires ValidMap(rm) && i < |prog| && !IsTail(prog, i) && SlotOf(rm, link, prog, i).jump.NoJump?
    requires m.rip == Loc(AllSlots(rm, link, prog), i + 1)
    requires var body := SlotOf(rm, link, prog, i).body;
      RunBlock(w, body, m.core).Stuck? && forall j :: 0 <= j < |body| ==> Straight(body[j])
    ensures Steps(w, Compiled(rm, link, prog), m, k) == Crashed
  {
    hide RunBlock, Step, SlotOf, AllSlots, ValidMap, AllEncodable, EncodeAll, Straight, IsTail, Resolved, Loc;
    var slot := SlotOf(rm, link, prog, i);
    SlotAtIndex(rm, link, prog, i);
    SlotPlaced(AllSlots(rm, link, prog), |prog|, i + 1);
    SlotEncodable(rm, link, prog, i);
    assert EncodeAll(slot.body) + [] == EncodeAll(slot.body);
    k := BlockCrashes(w, Compiled(rm, link, prog), slot.body, m);
  }

  /** At a division by zero the machine crashes. */
  lemma {:induction false} DivisionCrashes(rm: RegMap, link: Link, w: World, fr: Frame, prog: seq<Inst>, funcs: set<int>,
                                           s: Interp.State, known: set<int>, m: Cpu) returns (k: nat)
    requires ValidMap(rm) && Validated(prog, funcs) && AtPc(rm, link, w, fr, prog, s, known, m)
    requires s.pc < |prog| && prog[s.pc].src as int in known && DividesByZero(prog[s.pc], s.regs[prog[s.pc].src])
    ensures Steps(w, Compiled(rm, link, prog), m, k) == Crashed
  {
    hide RunBlock, Step, SlotOf, AllSlots, Compiled, OpOf, Loc, MulDivMod, IsTail, Validated, Straight, ValidMap, Related,
         JitSem.Factor, Trunc;
    var inst := prog[s.pc];
    ValidAt(prog, funcs, s.pc);
    DivisionStuck(rm, w, fr, known, s.regs, s.mem, inst, m.core);
    DivisionSlot(rm, link, prog, s.pc);
    MulDivModStraight(inst.Op().is64, inst.Op().kind, MapReg(rm, inst.src), MapReg(rm, inst.dst), inst.imm);
    k := SlotCrashes(rm, link, w, prog, s.pc, m);
  }

  lemma {:induction false} DivisionStuck(rm: RegMap, w: World, fr: Frame, known: set<int>, regs: Interp.Regs, mem: Mem,
                                         inst: Inst, c: Core)
    requires ValidMap(rm) && RegsOk(inst) && Related(rm, w, fr, known, regs, mem, c)
    requires inst.src as int in known && DividesByZero(inst, regs[inst.src])
    ensures RunBlock(w, MulDivMod(inst.Op().is64, inst.Op().kind, MapReg(rm, inst.src), MapReg(rm, inst.dst), inst.imm), c).Stuck?
  {
    hide RunBlock, OpOf, MulDivModIn, MulDivModOut, Trunc, JitSem.Factor;
    var dst, src, op := MapReg(rm, inst.dst), MapReg(rm, inst.src), inst.Op();
    assert Mappable(dst) && Mappable(src);
    assert Scratch(c);
    DivideByZeroFaults(w, op.is64, op.kind, src, dst, inst.imm, c);
    StuckAppend(w, MulDivModIn(op.is64, op.kind, src, dst, inst.imm), MulDivModOut(op.kind, dst), c);
  }

  // ----- whole runs -----

  /** EXIT: the last slot falls into the epilogue, any other jumps to it. */
  lemma {:induction false} ExitReached(rm: RegMap, link: Link, w: World, env: Interp.Env, fr: Frame, prog: seq<Inst>,
                                       s: Interp.State, known: set<int>, m: Cpu) returns (k: nat, m': Cpu)
    requires ValidMap(rm) && Fits(rm, link, prog) && AtPc(rm, link, w, fr, prog, s, known, m)
    requires JitSem.Step(env, prog, s, known).JDone?
    ensures Steps(w, Compiled(rm, link, prog), m, k) == Running(m')
    ensures m'.rip == Loc(AllSlots(rm, link, prog), |prog| + 1) && 0 in known
    ensures JitSem.Step(env, prog, s, known) == JitSem.JDone(s.regs[0], s.mem)
    ensures Related(rm, w, fr, known, s.regs, s.mem, m'.core)
  {
    hide OpOf, RunBlock, Related, ValidMap, Step, Loc, AllSlots, IsTail, Fits, Compiled;
    StepInside(env, prog, s, known);
    ExitFacts(rm, env, link, prog, s, known);
    hide JitSem.Step, SlotOf;
    RunNone(w, m.core);
    k := SlotEnds(rm, link, w, prog, s.pc, m);
    m' := Steps(w, Compiled(rm, link, prog), m, k).m;
  }

  lemma {:induction false} ExitFacts(rm: RegMap, env: Interp.Env, link: Link, prog: seq<Inst>, s: Interp.State, known: set<int>)
    requires 0 <= s.pc < |prog| && JitSem.Step(env, prog, s, known).JDone?
    ensures prog[s.pc].Op().Exit? && 0 in known
    ensures JitSem.Step(env, prog, s, known) == JitSem.JDone(s.regs[0], s.mem)
    ensures SlotOf(rm, link, prog, s.pc) == Slot([], if s.pc + 1 == |prog| then NoJump else Always(TARGET_EXIT))
  {
    hide OpOf, JitSem.AluVal, JitSem.EndianVal, AluBody, EndianBody, Interp.RunHelper, Interp.NextPc;
  }

  /** From any related state: if the program finishes in n steps, so does the machine. */
  lemma {:induction false} RunFollows(rm: RegMap, link: Link, w: World, env: Interp.Env, fr: Frame, prog: seq<Inst>,
                                      funcs: set<int>, s: Interp.State, known: set<int>, n: nat, c0: Core, m: Cpu)
      returns (k: nat, c: Core, ra: u64)
    requires ValidMap(rm) && Validated(prog, funcs) && Fits(rm, link, prog)
    requires CallsAllowed(rm, env, prog) && Linked(w, env, link, funcs)
    requires FrameWords(fr, c0) && Sp(c0) + 8 < 0x1_0000_0000_0000_0000
    requires AtPc(rm, link, w, fr, prog, s, known, m)
    requires JitSem.Run(env, prog, s, known, n).JDone?
    ensures var r := JitSem.Run(env, prog, s, known, n);
      Steps(w, Compiled(rm, link, prog), m, k) == Halted(c, ra) && Returned(w, r.mem, c0, r.value, c, ra)
    decreases n
  {
    hide JitSem.Step, ValidMap, Validated, Fits, CallsAllowed, Linked, FrameWords, AtPc, Step, Compiled, Returned,
         Related, AllSlots, Loc;
    var code := Compiled(rm, link, prog);
    if JitSem.Step(env, prog, s, known).JDone? {
      var j, m' := ExitReached(rm, link, w, env, fr, prog, s, known, m);
      k, c, ra := ExitSteps(rm, link, w, prog, fr, known, s.regs, s.mem, c0, m');
      StepsAdd(w, code, m, j, k);
      k := j + k;
    } else {
      var j, m' := MachineFollows(rm, link, w, env, fr, prog, funcs, s, known, m);
      var next := JitSem.Step(env, prog, s, known);
      k, c, ra := RunFollows(rm, link, w, env, fr, prog, funcs, next.s, next.known, n - 1, c0, m');
      StepsAdd(w, code, m, j, k);
      k := j + k;
    }
  }

  /** From any related state: while the program runs, the machine runs along with it. */
  lemma {:induction false} RunsAlong(rm: RegMap, link: Link, w: World, env: Interp.Env, fr: Frame, prog: seq<Inst>,
                                     funcs: set<int>, s: Interp.State, known: set<int>, n: nat, m: Cpu)
      returns (k: nat, m': Cpu)
    requires ValidMap(rm) && Validated(prog, funcs) && Fits(rm, link, prog)
    requires CallsAllowed(rm, env, prog) && Linked(w, env, link, funcs)
    requires AtPc(rm, link, w, fr, prog, s, known, m)
    requires JitSem.Run(env, prog, s, known, n).JNext?
    ensures var r := JitSem.Run(env, prog, s, known, n);
      Steps(w, Compiled(rm, link, prog), m, k) == Running(m') && AtPc(rm, link, w, fr, prog, r.s, r.known, m')
    decreases n
  {
    hide JitSem.Step, ValidMap, Validated, Fits, CallsAllowed, Linked, AtPc, Step, Compiled, Related, AllSlots, Loc;
    if n == 0 {
      k, m' := 0, m;
    } else {
      var j, m1 := MachineFollows(rm, link, w, env, fr, prog, funcs, s, known, m);
      var next := JitSem.Step(env, prog, s, known);
      k, m' := RunsAlong(rm, link, w, env, fr, prog, funcs, next.s, next.known, n - 1, m1);
      StepsAdd(w, Compiled(rm, link, prog), m, j, k);
      k := j + k;
    }
  }

  ghost predicate NeverEnds(env: Interp.Env, prog: seq<Inst>, s: Interp.State, known: set<int>) {
    forall n: nat :: JitSem.Run(env, prog, s, known, n).JNext?
  }

  lemma {:induction false} NextNeverEnds(env: Interp.Env, prog: seq<Inst>, s: Interp.State, known: set<int>)
    requires NeverEnds(env, prog, s, known)
    ensures var next := JitSem.Step(env, prog, s, known); next.JNext? && NeverEnds(env, prog, next.s, next.known)
  {
    hide JitSem.Step;
    assert JitSem.Run(env, prog, s, known, 1).JNext?;
    var next := JitSem.Step(env, prog, s, known);
    forall n: nat ensures JitSem.Run(env, prog, next.s, next.known, n).JNext? {
      assert JitSem.Run(env, prog, s, known, n + 1).JNext?;
    }
  }

  /** A program that never ends keeps the machine running: LE, the only instruction without code,
      moves on to the next slot, so the machine makes progress. */
  lemma {:induction false} RunsForever(rm: RegMap, link: Link, w: World, env: Interp.Env, fr: Frame, prog: seq<Inst>,
                                       funcs: set<int>, s: Interp.State, known: set<int>, m: Cpu, k: nat)
    requires ValidMap(rm) && Validated(prog, funcs) && Fits(rm, link, prog)
    requires CallsAllowed(rm, env, prog) && Linked(w, env, link, funcs)
    requires AtPc(rm, link, w, fr, prog, s, known, m) && NeverEnds(env, prog, s, known)
    ensures Steps(w, Compiled(rm, link, prog), m, k).Running?
    decreases k, |prog| - s.pc
  {
    hide JitSem.Step, ValidMap, Validated, Fits, CallsAllowed, Linked, Related, NeverEnds, Step, Compiled, Loc, AllSlots, IsTail;
    NextNeverEnds(env, prog, s, known);
    var next := JitSem.Step(env, prog, s, known);
    var j, m' := MachineFollows(rm, link, w, env, fr, prog, funcs, s, known, m);
    if j >= k {
      StepsPrefix(w, Compiled(rm, link, prog), m, j, k);
    } else {
      RunsForever(rm, link, w, env, fr, prog, funcs, next.s, next.known, m', k - j);
      StepsAdd(w, Compiled(rm, link, prog), m, j, k - j);
    }
  }

  /** The compiled bytes, called as a C function with the context pointer in RDI, return in RAX what
      the program computes, leave the program's memory as the program does, and preserve the
      callee-saved registers, the stack pointer and the return address. This holds for every
      validated program that fits the buffer, every injective register map that suits the calls the
      program makes and every finite run of JitSem. */
  lemma {:induction false} CompiledCodeRuns(rm: RegMap, link: Link, w: World, env: Interp.Env, prog: seq<Inst>,
                                            funcs: set<int>, s: Interp.State, n: nat, c0: Core)
      returns (k: nat, c: Core, ra: u64)
    requires ValidMap(rm) && Validated(prog, funcs) && Fits(rm, link, prog)
    requires CallsAllowed(rm, env, prog) && Linked(w, env, link, funcs) && EntryOk(w, s.mem, c0)
    requires s.pc == 0 && s.regs[1] == c0.regs[RDI] && s.regs[10] == Sp(c0) - 40
    requires JitSem.Run(env, prog, s, {1, 10}, n).JDone?
    ensures var r := JitSem.Run(env, prog, s, {1, 10}, n);
      Steps(w, Compiled(rm, link, prog), Cpu(0, c0), k) == Halted(c, ra) && Returned(w, r.mem, c0, r.value, c, ra)
  {
    hide JitSem.Run, Steps, ValidMap, Validated, Fits, CallsAllowed, Linked, FrameWords, AtPc, Compiled, Returned,
         EntryOk, Related, AllSlots, Loc, IsTail, Step, JitSem.Step;
    EntryBound(w, s.mem, c0);
    var j, fr, m := EntrySteps(rm, link, w, prog, s.mem, s.regs, c0);
    assert s == Interp.State(0, s.regs, s.mem);
    k, c, ra := RunFollows(rm, link, w, env, fr, prog, funcs, s, {1, 10}, n, c0, m);
    StepsAdd(w, Compiled(rm, link, prog), Cpu(0, c0), j, k);
    k := j + k;
  }

  /** Called as a C function, the compiled bytes keep up with the program: after its first n steps the
      machine is still running, at the code of the next instruction and in a related state. */
  lemma {:induction false} CompiledCodeFollows(rm: RegMap, link: Link, w: World, env: Interp.Env, prog: seq<Inst>,
                                               funcs: set<int>, s: Interp.State, n: nat, c0: Core)
      returns (k: nat, fr: Frame, m: Cpu)
    requires ValidMap(rm) && Validated(prog, funcs) && Fits(rm, link, prog)
    requires CallsAllowed(rm, env, prog) && Linked(w, env, link, funcs) && EntryOk(w, s.mem, c0)
    requires s.pc == 0 && s.regs[1] == c0.regs[RDI] && s.regs[10] == Sp(c0) - 40
    requires JitSem.Run(env, prog, s, {1, 10}, n).JNext?
    ensures var r := JitSem.Run(env, prog, s, {1, 10}, n);
      Steps(w, Compiled(rm, link, prog), Cpu(0, c0), k) == Running(m) && AtPc(rm, link, w, fr, prog, r.s, r.known, m)
      && FrameWords(fr, c0)
  {
    hide JitSem.Run, Steps, ValidMap, Validated, Fits, CallsAllowed, Linked, FrameWords, AtPc, Compiled, EntryOk,
         Related, AllSlots, Loc, IsTail, Step, JitSem.Step;
    var j, m0;
    j, fr, m0 := EntrySteps(rm, link, w, prog, s.mem, s.regs, c0);
    assert s == Interp.State(0, s.regs, s.mem);
    k, m := RunsAlong(rm, link, w, env, fr, prog, funcs, s, {1, 10}, n, m0);
    StepsAdd(w, Compiled(rm, link, prog), Cpu(0, c0), j, k);
    k := j + k;
  }

  /** If the program reaches a division by zero, the compiled bytes crash: the check in front of the
      division is commented out. */
  lemma {:induction false} CompiledCodeCrashes(rm: RegMap, link: Link, w: World, env: Interp.Env, prog: seq<Inst>,
                                               funcs: set<int>, s: Interp.State, n: nat, c0: Core) returns (k: nat)
    requires ValidMap(rm) && Validated(prog, funcs) && Fits(rm, link, prog)
    requires CallsAllowed(rm, env, prog) && Linked(w, env, link, funcs) && EntryOk(w, s.mem, c0)
    requires s.pc == 0 && s.regs[1] == c0.regs[RDI] && s.regs[10] == Sp(c0) - 40
    requires var r := JitSem.Run(env, prog, s, {1, 10}, n);
      r.JNext? && 0 <= r.s.pc < |prog| && prog[r.s.pc].src as int in r.known && DividesByZero(prog[r.s.pc], r.s.regs[prog[r.s.pc].src])
    ensures Steps(w, Compiled(rm, link, prog), Cpu(0, c0), k) == Crashed
  {
    hide JitSem.Run, Steps, ValidMap, Validated, Fits, CallsAllowed, Linked, FrameWords, AtPc, Compiled, EntryOk, Step,
         DividesByZero, Related, AllSlots, Loc, IsTail, JitSem.Step;
    var r := JitSem.Run(env, prog, s, {1, 10}, n);
    var j, fr, m := CompiledCodeFollows(rm, link, w, env, prog, funcs, s, n, c0);
    k := DivisionCrashes(rm, link, w, fr, prog, funcs, r.s, r.known, m);
    StepsAdd(w, Compiled(rm, link, prog), Cpu(0, c0), j, k);
    k := j + k;
  }

  /** If the program never ends, neither do the compiled bytes. */
  lemma {:induction false} CompiledCodeRunsForever(rm: RegMap, link: Link, w: World, env: Interp.Env, prog: seq<Inst>,
                                                   funcs: set<int>, s: Interp.State, c0: Core, k: nat)
    requires ValidMap(rm) && Validated(prog, funcs) && Fits(rm, link, prog)
    requires CallsAllowed(rm, env, prog) && Linked(w, env, link, funcs) && EntryOk(w, s.mem, c0)
    requires s.pc == 0 && s.regs[1] == c0.regs[RDI] && s.regs[10] == Sp(c0) - 40
    requires NeverEnds(env, prog, s, {1, 10})
    ensures Steps(w, Compiled(rm, link, prog), Cpu(0, c0), k).Running?
  {
    hide NeverEnds, Steps, ValidMap, Validated, Fits, CallsAllowed, Linked, FrameWords, AtPc, Compiled, EntryOk,
         Related, AllSlots, Loc, IsTail, Step, JitSem.Step;
    var j, fr, m0 := EntrySteps(rm, link, w, prog, s.mem, s.regs, c0);
    assert s == Interp.State(0, s.regs, s.mem);
    if k <= j {
      StepsPrefix(w, Compiled(rm, link, prog), Cpu(0, c0), j, k);
    } else {
      RunsForever(rm, link, w, env, fr, prog, funcs, s, {1, 10}, m0, k - j);
      StepsAdd(w, Compiled(rm, link, prog), Cpu(0, c0), j, k - j);
    }
  }

  lemma {:induction false} EntryBound(w: World, mem: Mem, c0: Core)
    requires EntryOk(w, mem, c0)
    ensures Sp(c0) + 8 < 0x1_0000_0000_0000_0000
  {
  }
}
