/** The body emitted for one eBPF slot does to the x86 state what JitSem does to the eBPF state. */
module Simulation {
  import opened Words
  import opened Ebpf
  import opened X86
  import opened Machine
  import opened Jit

  // ----- running a body -----

  ghost function RunBlock(w: World, xs: seq<Instr>, c: Core): MaybeCore
    decreases |xs|
  {
    if xs == [] then Ok(c)
    else match Exec(w, xs[0], c)
      case Stuck => Stuck
      case Ok(c') => RunBlock(w, xs[1..], c')
  }

  lemma {:induction false} RunBlockAppend(w: World, xs: seq<Instr>, ys: seq<Instr>, c: Core)
    requires RunBlock(w, xs, c).Ok?
    ensures RunBlock(w, xs + ys, c) == RunBlock(w, ys, RunBlock(w, xs, c).c)
    decreases |xs|
  {
    hide Exec;
    if xs == [] {
      assert xs + ys == ys;
    } else {
      RunBlockAppend(w, xs[1..], ys, Exec(w, xs[0], c).c);
      assert (xs + ys)[1..] == xs[1..] + ys;
    }
  }

  lemma {:induction false} StuckAppend(w: World, xs: seq<Instr>, ys: seq<Instr>, c: Core)
    requires RunBlock(w, xs, c).Stuck?
    ensures RunBlock(w, xs + ys, c).Stuck?
    decreases |xs|
  {
    hide Exec;
    assert (xs + ys)[1..] == xs[1..] + ys;
    if Exec(w, xs[0], c).Ok? { StuckAppend(w, xs[1..], ys, Exec(w, xs[0], c).c); }
  }

  lemma {:induction false} RunOne(w: World, x: Instr, c: Core)
    ensures RunBlock(w, [x], c) == Exec(w, x, c)
  {
    hide Exec;
  }

  /** One more instruction at the end of a body. */
  lemma {:induction false} RunSnoc(w: World, xs: seq<Instr>, x: Instr, c: Core)
    requires RunBlock(w, xs, c).Ok?
    ensures RunBlock(w, xs + [x], c) == Exec(w, x, RunBlock(w, xs, c).c)
  {
    hide Exec;
    RunBlockAppend(w, xs, [x], c);
    RunOne(w, x, RunBlock(w, xs, c).c);
  }

  // ----- what an ALU body leaves behind -----

  /** From c to c' register r received v; only RCX and the 16 bytes below the stack pointer may
      have changed besides. The stack pointer itself is balanced. */
  ghost predicate Wrote(c: Core, c': Core, r: reg, v: u64) {
    c'.regs[r] == v &&
    (forall q :: 0 <= q < 16 && q != r && q != RCX ==> c'.regs[q] == c.regs[q]) &&
    c'.mem.Keys == c.mem.Keys &&
    forall a :: a in c.mem && !(Sp(c) - 16 <= a < Sp(c)) ==> c'.mem[a] == c.mem[a]
  }

  /** x86 registers eBPF registers are mapped to: never RCX (scratch), RSP, R10, R11 or R12. */
  predicate Mappable(r: reg) { r != RCX && r != RSP && !(10 <= r <= 12) }

  predicate ValidMap(rm: RegMap) {
    (forall i :: 0 <= i < 11 ==> Mappable(rm[i])) &&
    forall i, j :: 0 <= i < j < 11 ==> rm[i] != rm[j]
  }

  lemma {:induction false} BodyMov(w: World, is64: bool, useReg: bool, src: reg, dst: reg, imm: int32, c: Core)
    ensures RunBlock(w, AluBody(is64, Mov, useReg, src, dst, imm), c).Ok?
    ensures Wrote(c, RunBlock(w, AluBody(is64, Mov, useReg, src, dst, imm), c).c, dst,
                  if useReg then c.regs[src] else Trunc(is64, U64(imm)))
  {
    var body := AluBody(is64, Mov, useReg, src, dst, imm);
    assert |body| == 1;
    RunOne(w, body[0], c);
    assert body == [body[0]];
    if !useReg && is64 {
      ExecLoadImm(w, dst, U64(imm), c);
    }
  }

  /** emit_load_imm puts exactly the requested value in the register. */
  lemma {:induction false} ExecLoadImm(w: World, dst: reg, v: u64, c: Core)
    ensures Exec(w, LoadImm(dst, v), c) == Ok(c.(regs := c.regs[dst := v]))
  {
  }

  lemma {:induction false} BodySimple(w: World, is64: bool, kind: AluKind, useReg: bool, src: reg, dst: reg, imm: int32, c: Core)
    requires kind in {Add, Sub, Or, And, Xor}
    ensures RunBlock(w, AluBody(is64, kind, useReg, src, dst, imm), c).Ok?
    ensures Wrote(c, RunBlock(w, AluBody(is64, kind, useReg, src, dst, imm), c).c, dst,
                  AluResult(is64, SimpleOp(kind), c.regs[dst], if useReg then c.regs[src] else U64(imm)))
  {
    hide AluResult;
    var body := AluBody(is64, kind, useReg, src, dst, imm);
    RunOne(w, body[0], c);
    assert body == [body[0]];
  }

  lemma {:induction false} BodyNeg(w: World, is64: bool, src: reg, dst: reg, imm: int32, c: Core)
    ensures RunBlock(w, AluBody(is64, Neg, false, src, dst, imm), c).Ok?
    ensures Wrote(c, RunBlock(w, AluBody(is64, Neg, false, src, dst, imm), c).c, dst,
                  Trunc(is64, 0 - Trunc(is64, c.regs[dst])))
  {
    RunOne(w, NegR(is64, dst), c);
  }

  lemma {:induction false} BodyShift(w: World, is64: bool, kind: AluKind, useReg: bool, src: reg, dst: reg, imm: int32, c: Core)
    requires IsShift(kind) && dst != RCX
    ensures RunBlock(w, AluBody(is64, kind, useReg, src, dst, imm), c).Ok?
    ensures Wrote(c, RunBlock(w, AluBody(is64, kind, useReg, src, dst, imm), c).c, dst,
                  ShiftResult(is64, ShiftOf(kind), c.regs[dst], if useReg then c.regs[src] % 0x100 else imm % 0x100))
  {
    hide ShiftResult, RunBlock;
    if useReg {
      RunOne(w, MovRR(src, RCX), c);
      RunSnoc(w, [MovRR(src, RCX)], ShiftRC(is64, ShiftOf(kind), dst), c);
      assert AluBody(is64, kind, useReg, src, dst, imm) == [MovRR(src, RCX)] + [ShiftRC(is64, ShiftOf(kind), dst)];
    } else {
      RunOne(w, ShiftRI(is64, ShiftOf(kind), dst, imm % 0x100), c);
    }
  }
}
