/** The muldivmod template: right for every aliasing of its operands with RAX and RDX. */
module MulDivSim {
  import opened Words
  import opened Memory
  import opened Ebpf
  import opened X86
  import opened Machine
  import opened Jit
  import opened Simulation
  import JitSem

  /** Room for the two pushes below the stack pointer. */
  ghost predicate Scratch(c: Core) { 16 <= Sp(c) && Mapped(c.mem, Sp(c) - 16, 16) }

  function Saves(dst: reg): seq<Instr> {
    (if dst != RAX then [Push(RAX)] else []) + (if dst != RDX then [Push(RDX)] else [])
  }

  function Pushed(dst: reg): nat { (if dst != RAX then 8 else 0) + (if dst != RDX then 8 else 0) }

  /** Only the scratch bytes below sp differ. */
  ghost predicate SameAbove(m: Mem, m': Mem, sp: int) {
    m'.Keys == m.Keys && forall a :: a in m && !(sp - 16 <= a < sp) ==> m'[a] == m[a]
  }

  /** After the pushes: RAX and RDX are on the stack unless dst is that register. */
  ghost predicate AfterSaves(c: Core, c1: Core, dst: reg) {
    c1.regs == c.regs[RSP := U64(Sp(c) - Pushed(dst))] && Sp(c1) == Sp(c) - Pushed(dst) &&
    SameAbove(c.mem, c1.mem, Sp(c)) &&
    Mapped(c1.mem, Sp(c) - 16, 16) &&
    (dst != RAX ==> Load(c1.mem, Sp(c) - 8, 8) == c.regs[RAX]) &&
    (dst != RDX ==> Load(c1.mem, Sp(c1), 8) == c.regs[RDX])
  }

  lemma {:induction false} PushEffect(c: Core, v: u64)
    requires 8 <= Sp(c) && Mapped(c.mem, Sp(c) - 8, 8)
    ensures var p := PushVal(c, v);
      p.Ok? && p.c.regs == c.regs[RSP := Sp(c) - 8] && p.c.mem.Keys == c.mem.Keys
      && Mapped(p.c.mem, Sp(c) - 8, 8) && Load(p.c.mem, Sp(c) - 8, 8) == v
      && (forall a :: a in c.mem && !(Sp(c) - 8 <= a < Sp(c)) ==> p.c.mem[a] == c.mem[a])
  {
    hide FromLE, ToLE, Pow2, Load;
    Pow2Facts();
    assert U64(Sp(c) - 8) == Sp(c) - 8;
    LoadOfStore(c.mem, Sp(c) - 8, v, 8);
  }

  lemma {:induction false} PopEffect(c: Core, r: reg)
    requires Mapped(c.mem, Sp(c), 8) && Sp(c) + 8 < 0x1_0000_0000_0000_0000
    ensures Load(c.mem, Sp(c), 8) < 0x1_0000_0000_0000_0000
    ensures PopTo(c, r) == Ok(c.(regs := c.regs[RSP := Sp(c) + 8][r := Load(c.mem, Sp(c), 8)]))
  {
    hide Load, Mapped, Pow2;
    Pow2Facts();
    LoadBound(c.mem, Sp(c), 8);
  }

  lemma {:induction false} SavesEffect(w: World, dst: reg, c: Core)
    requires Scratch(c)
    ensures RunBlock(w, Saves(dst), c).Ok? && AfterSaves(c, RunBlock(w, Saves(dst), c).c, dst)
  {
    hide Load, PushVal;
    if dst == RAX {
      RunOne(w, Push(RDX), c);
      PushEffect(c, c.regs[RDX]);
    } else if dst == RDX {
      RunOne(w, Push(RAX), c);
      PushEffect(c, c.regs[RAX]);
    } else {
      PushEffect(c, c.regs[RAX]);
      var p := PushVal(c, c.regs[RAX]).c;
      PushEffect(p, p.regs[RDX]);
      var q := PushVal(p, p.regs[RDX]).c;
      LoadSame(p.mem, q.mem, Sp(c) - 8, 8);
      RunOne(w, Push(RAX), c);
      RunSnoc(w, [Push(RAX)], Push(RDX), c);
      assert Saves(dst) == [Push(RAX)] + [Push(RDX)];
    }
  }

  function Compute(is64: bool, kind: AluKind, src: reg, dst: reg, imm: int32): seq<Instr> {
    [if imm != 0 then LoadImm(RCX, U64(imm)) else MovRR(src, RCX), MovRR(dst, RAX)]
    + (if kind == Mul then [] else [AluRR(false, XXor, RDX, RDX)])
    + [if kind == Mul then MulR(is64, RCX) else DivR(is64, RCX)]
  }

  /** The value the template leaves in dst. */
  function Product(is64: bool, kind: AluKind, d: u64, e: u64): u64
    requires kind == Div || kind == Mod ==> Trunc(is64, e) != 0
  {
    if kind == Div then DivU(Trunc(is64, d), Trunc(is64, e))
    else if kind == Mod then ModU(Trunc(is64, d), Trunc(is64, e))
    else Trunc(is64, Trunc(is64, d) * Trunc(is64, e))
  }

  lemma {:induction false} OperandsEffect(w: World, src: reg, dst: reg, imm: int32, c: Core)
    requires dst != RCX && src != RCX
    ensures RunBlock(w, [if imm != 0 then LoadImm(RCX, U64(imm)) else MovRR(src, RCX), MovRR(dst, RAX)], c)
         == Ok(c.(regs := c.regs[RCX := JitSem.Factor(c.regs[src], imm)][RAX := c.regs[dst]]))
  {
    var x := if imm != 0 then LoadImm(RCX, U64(imm)) else MovRR(src, RCX);
    ExecLoadImm(w, RCX, U64(imm), c);
    RunOne(w, x, c);
    RunSnoc(w, [x], MovRR(dst, RAX), c);
    assert [x] + [MovRR(dst, RAX)] == [x, MovRR(dst, RAX)];
  }

  lemma {:induction false} MulEffect(is64: bool, c: Core)
    ensures var c' := DoMul(c, is64, RCX);
      c'.mem == c.mem && c'.regs[RAX] == Trunc(is64, Trunc(is64, c.regs[RAX]) * Trunc(is64, c.regs[RCX]))
      && forall q :: 0 <= q < 16 && q != RAX && q != RDX ==> c'.regs[q] == c.regs[q]
  {
  }

  lemma {:induction false} ZeroXor(c: Core)
    ensures AluExec(c, false, XXor, RDX, c.regs[RDX]) == c.(regs := c.regs[RDX := 0], flags := NoFlags)
  {
    XorSelf(Trunc(false, c.regs[RDX]));
  }

  lemma {:induction false} DivEffect(is64: bool, c: Core)
    requires c.regs[RDX] == 0 && Trunc(is64, c.regs[RCX]) != 0
    ensures var e := Trunc(is64, c.regs[RCX]);
      DoDiv(c, is64, RCX) == Ok(c.(regs := c.regs[RAX := DivU(Trunc(is64, c.regs[RAX]), e)]
                                                 [RDX := ModU(Trunc(is64, c.regs[RAX]), e)], flags := NoFlags))
  {
    hide Quot, Rem;
    var lo, e := Trunc(is64, c.regs[RAX]), Trunc(is64, c.regs[RCX]);
    DivBound(lo, e);
    assert Trunc(is64, c.regs[RDX]) == 0;
    assert Trunc(is64, DivU(lo, e)) == DivU(lo, e) && Trunc(is64, ModU(lo, e)) == ModU(lo, e);
  }

  ghost predicate AfterCompute(is64: bool, kind: AluKind, c: Core, c': Core, d: u64, e: u64)
    requires kind == Div || kind == Mod ==> Trunc(is64, e) != 0
  {
    c'.mem == c.mem &&
    c'.regs[if kind == Mod then RDX else RAX] == Product(is64, kind, d, e) &&
    forall q :: 0 <= q < 16 && q != RAX && q != RDX && q != RCX ==> c'.regs[q] == c.regs[q]
  }

  lemma {:induction false} ComputeEffect(w: World, is64: bool, kind: AluKind, src: reg, dst: reg, imm: int32, c: Core)
    requires dst != RCX && src != RCX && IsMulDivMod(kind)
    requires kind != Mul ==> Trunc(is64, JitSem.Factor(c.regs[src], imm)) != 0
    ensures var r := RunBlock(w, Compute(is64, kind, src, dst, imm), c);
      r.Ok? && AfterCompute(is64, kind, c, r.c, c.regs[dst], JitSem.Factor(c.regs[src], imm))
  {
    hide JitSem.Factor, LoadImm, Trunc, RunBlock, AfterCompute, Compute;
    if kind == Mul {
      MulComputed(w, is64, src, dst, imm, c);
    } else {
      DivComputed(w, is64, kind, src, dst, imm, c);
    }
  }

  lemma {:induction false} MulComputed(w: World, is64: bool, src: reg, dst: reg, imm: int32, c: Core)
    requires dst != RCX && src != RCX
    ensures var r := RunBlock(w, Compute(is64, Mul, src, dst, imm), c);
      r.Ok? && AfterCompute(is64, Mul, c, r.c, c.regs[dst], JitSem.Factor(c.regs[src], imm))
  {
    hide LoadImm, Trunc, DoMul, DoDiv, RunBlock;
    var pre := [if imm != 0 then LoadImm(RCX, U64(imm)) else MovRR(src, RCX), MovRR(dst, RAX)];
    var c1 := c.(regs := c.regs[RCX := JitSem.Factor(c.regs[src], imm)][RAX := c.regs[dst]]);
    OperandsEffect(w, src, dst, imm, c);
    RunSnoc(w, pre, MulR(is64, RCX), c);
    MulEffect(is64, c1);
    assert Compute(is64, Mul, src, dst, imm) == pre + [MulR(is64, RCX)];
  }

  lemma {:induction false} DivComputed(w: World, is64: bool, kind: AluKind, src: reg, dst: reg, imm: int32, c: Core)
    requires dst != RCX && src != RCX && (kind == Div || kind == Mod)
    requires Trunc(is64, JitSem.Factor(c.regs[src], imm)) != 0
    ensures var r := RunBlock(w, Compute(is64, kind, src, dst, imm), c);
      r.Ok? && AfterCompute(is64, kind, c, r.c, c.regs[dst], JitSem.Factor(c.regs[src], imm))
  {
    hide LoadImm, Trunc, DoMul, DoDiv, RunBlock;
    var pre := [if imm != 0 then LoadImm(RCX, U64(imm)) else MovRR(src, RCX), MovRR(dst, RAX)];
    var c1 := c.(regs := c.regs[RCX := JitSem.Factor(c.regs[src], imm)][RAX := c.regs[dst]]);
    OperandsEffect(w, src, dst, imm, c);
    var xor := AluRR(false, XXor, RDX, RDX);
    RunSnoc(w, pre, xor, c);
    ZeroXor(c1);
    var c2 := c1.(regs := c1.regs[RDX := 0], flags := NoFlags);
    RunSnoc(w, pre + [xor], DivR(is64, RCX), c);
    DivEffect(is64, c2);
    assert Compute(is64, kind, src, dst, imm) == pre + [xor] + [DivR(is64, RCX)];
  }

  // ----- result and restore -----

  lemma {:induction false} OutRdx(w: World, kind: AluKind, dst: reg, c: Core)
    requires IsMulDivMod(kind) && dst != RDX && dst != RSP
    requires Mapped(c.mem, Sp(c), 8) && Sp(c) + 8 < 0x1_0000_0000_0000_0000
    ensures Load(c.mem, Sp(c), 8) < 0x1_0000_0000_0000_0000
    ensures RunBlock(w, (if kind == Mod then [MovRR(RDX, dst)] else []) + [Pop(RDX)], c)
         == Ok(c.(regs := (if kind == Mod then c.regs[dst := c.regs[RDX]] else c.regs)
                          [RSP := Sp(c) + 8][RDX := Load(c.mem, Sp(c), 8)]))
  {
    hide Load, PopTo;
    PopEffect(c, RDX);
    if kind == Mod {
      var c1 := c.(regs := c.regs[dst := c.regs[RDX]]);
      RunOne(w, MovRR(RDX, dst), c);
      PopEffect(c1, RDX);
      RunSnoc(w, [MovRR(RDX, dst)], Pop(RDX), c);
    } else {
      assert [] + [Pop(RDX)] == [Pop(RDX)];
      RunOne(w, Pop(RDX), c);
    }
  }

  lemma {:induction false} OutRax(w: World, kind: AluKind, dst: reg, c: Core)
    requires IsMulDivMod(kind) && dst != RAX && dst != RSP
    requires Mapped(c.mem, Sp(c), 8) && Sp(c) + 8 < 0x1_0000_0000_0000_0000
    ensures Load(c.mem, Sp(c), 8) < 0x1_0000_0000_0000_0000
    ensures RunBlock(w, (if kind != Mod then [MovRR(RAX, dst)] else []) + [Pop(RAX)], c)
         == Ok(c.(regs := (if kind != Mod then c.regs[dst := c.regs[RAX]] else c.regs)
                          [RSP := Sp(c) + 8][RAX := Load(c.mem, Sp(c), 8)]))
  {
    hide Load, PopTo;
    PopEffect(c, RAX);
    if kind != Mod {
      var c1 := c.(regs := c.regs[dst := c.regs[RAX]]);
      RunOne(w, MovRR(RAX, dst), c);
      PopEffect(c1, RAX);
      RunSnoc(w, [MovRR(RAX, dst)], Pop(RAX), c);
    } else {
      assert [] + [Pop(RAX)] == [Pop(RAX)];
      RunOne(w, Pop(RAX), c);
    }
  }

  /** The second half moves the result to dst and restores what was pushed. */
  lemma {:induction false} OutEffect(w: World, kind: AluKind, dst: reg, c0: Core, c1: Core, c2: Core, v: u64)
    requires IsMulDivMod(kind) && dst != RSP && dst != RCX
    requires Scratch(c0) && AfterSaves(c0, c1, dst)
    requires c2.mem == c1.mem && c2.regs[if kind == Mod then RDX else RAX] == v
    requires forall q :: 0 <= q < 16 && q != RAX && q != RDX && q != RCX ==> c2.regs[q] == c1.regs[q]
    ensures var r := RunBlock(w, MulDivModOut(kind, dst), c2); r.Ok? && Wrote(c0, r.c, dst, v)
  {
    hide Load, RunBlock;
    var out1 := if dst != RDX then (if kind == Mod then [MovRR(RDX, dst)] else []) + [Pop(RDX)] else [];
    var out2 := if dst != RAX then (if kind != Mod then [MovRR(RAX, dst)] else []) + [Pop(RAX)] else [];
    assert MulDivModOut(kind, dst) == out1 + out2;
    if dst == RDX {
      assert out1 + out2 == out2;
      OutRax(w, kind, dst, c2);
    } else if dst == RAX {
      assert out1 + out2 == out1;
      OutRdx(w, kind, dst, c2);
    } else {
      OutRdx(w, kind, dst, c2);
      var c3 := RunBlock(w, out1, c2).c;
      RunBlockAppend(w, out1, out2, c2);
      OutRax(w, kind, dst, c3);
    }
  }

  /** For every aliasing of dst and src with RAX and RDX and both widths: dst receives the product,
      quotient or remainder, every other mapped register and the stack pointer are unchanged, RCX
      is the only register clobbered and only the scratch bytes below the stack change. */
  lemma {:induction false} MulDivModEffect(w: World, is64: bool, kind: AluKind, src: reg, dst: reg, imm: int32, c: Core)
    requires IsMulDivMod(kind) && Mappable(src) && Mappable(dst) && Scratch(c)
    requires kind != Mul ==> Trunc(is64, JitSem.Factor(c.regs[src], imm)) != 0
    ensures var r := RunBlock(w, MulDivMod(is64, kind, src, dst, imm), c);
      r.Ok? && Wrote(c, r.c, dst, Product(is64, kind, c.regs[dst], JitSem.Factor(c.regs[src], imm)))
  {
    hide RunBlock, Load, JitSem.Factor, Product, Trunc, Wrote;
    SavesEffect(w, dst, c);
    var c1 := RunBlock(w, Saves(dst), c).c;
    assert c1.regs[src] == c.regs[src] && c1.regs[dst] == c.regs[dst];
    ComputeEffect(w, is64, kind, src, dst, imm, c1);
    var compute := Compute(is64, kind, src, dst, imm);
    var c2 := RunBlock(w, compute, c1).c;
    RunBlockAppend(w, Saves(dst), compute, c);
    OutEffect(w, kind, dst, c, c1, c2, Product(is64, kind, c.regs[dst], JitSem.Factor(c.regs[src], imm)));
    RunBlockAppend(w, Saves(dst) + compute, MulDivModOut(kind, dst), c);
    hide LoadImm;
    assert MulDivModIn(is64, kind, src, dst, imm) == Saves(dst) + compute;
  }

  lemma {:induction false} ComputeFaults(w: World, is64: bool, kind: AluKind, src: reg, dst: reg, imm: int32, c: Core)
    requires dst != RCX && src != RCX && (kind == Div || kind == Mod)
    requires Trunc(is64, JitSem.Factor(c.regs[src], imm)) == 0
    ensures RunBlock(w, Compute(is64, kind, src, dst, imm), c).Stuck?
  {
    var e := JitSem.Factor(c.regs[src], imm);
    var pre := [if imm != 0 then LoadImm(RCX, U64(imm)) else MovRR(src, RCX), MovRR(dst, RAX)];
    OperandsEffect(w, src, dst, imm, c);
    var c1 := c.(regs := c.regs[RCX := e][RAX := c.regs[dst]]);
    hide JitSem.Factor, LoadImm, RunBlock;
    var xor := AluRR(false, XXor, RDX, RDX);
    RunSnoc(w, pre, xor, c);
    ZeroXor(c1);
    var c2 := c1.(regs := c1.regs[RDX := 0], flags := NoFlags);
    RunSnoc(w, pre + [xor], DivR(is64, RCX), c);
    assert DoDiv(c2, is64, RCX).Stuck?;
    assert Compute(is64, kind, src, dst, imm) == pre + [xor] + [DivR(is64, RCX)];
  }

  /** A zero divisor (in the half that is used) makes the machine fault. */
  lemma {:induction false} DivideByZeroFaults(w: World, is64: bool, kind: AluKind, src: reg, dst: reg, imm: int32, c: Core)
    requires (kind == Div || kind == Mod) && Mappable(src) && Mappable(dst) && Scratch(c)
    requires Trunc(is64, JitSem.Factor(c.regs[src], imm)) == 0
    ensures RunBlock(w, MulDivModIn(is64, kind, src, dst, imm), c).Stuck?
  {
    hide RunBlock, Load, JitSem.Factor, Trunc, LoadImm;
    SavesEffect(w, dst, c);
    var c1 := RunBlock(w, Saves(dst), c).c;
    assert c1.regs[src] == c.regs[src] && c1.regs[dst] == c.regs[dst];
    ComputeFaults(w, is64, kind, src, dst, imm, c1);
    RunBlockAppend(w, Saves(dst), Compute(is64, kind, src, dst, imm), c);
    assert MulDivModIn(is64, kind, src, dst, imm) == Saves(dst) + Compute(is64, kind, src, dst, imm);
  }
}
