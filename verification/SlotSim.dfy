/** One eBPF slot: if JitSem takes a step, the emitted body takes related states to related states
    and its final jump is taken exactly when JitSem jumps. */
module SlotSim {
  import opened Words
  import opened Memory
  import opened Ebpf
  import opened X86
  import opened Machine
  import opened Jit
  import opened Simulation
  import opened MulDivSim
  import Interp
  import JitSem

  /** The constant part of an activation: the stack pointer while the program runs, the R12 value
      (never touched) and the 48 bytes above the eBPF stack: R15, R14, R13, RBX, RBP, return address. */
  datatype Frame = Frame(sp: int, r12: u64, saved: seq<byte>)

  function TopOf(fr: Frame): int { fr.sp + STACK_SIZE }

  ghost predicate FrameOk(fr: Frame, w: World) {
    |fr.saved| == 48 && 16 <= fr.sp && fr.sp % 16 == 0 && TopOf(fr) + 48 < 0x1_0000_0000_0000_0000 &&
    (forall a :: fr.sp - 16 <= a < fr.sp ==> a !in w.visible) &&
    (forall a :: TopOf(fr) <= a < TopOf(fr) + 48 ==> a !in w.visible)
  }

  ghost predicate FrameHeld(fr: Frame, c: Core) {
    Sp(c) == fr.sp && c.regs[12] == fr.r12 && |fr.saved| == 48 &&
    Mapped(c.mem, fr.sp - 16, 16) &&
    forall a :: TopOf(fr) <= a < TopOf(fr) + 48 ==> a in c.mem && c.mem[a] == fr.saved[a - TopOf(fr)]
  }

  /** eBPF registers in `known` sit in their mapped x86 register. */
  ghost predicate RegsHeld(rm: RegMap, known: set<int>, regs: Interp.Regs, c: Core) {
    10 in known &&
    forall r :: r in known ==> 0 <= r <= 10 && c.regs[rm[r]] == regs[r]
  }

  ghost predicate MemHeld(w: World, mem: Mem, c: Core) {
    mem.Keys == w.visible && forall a :: a in w.visible ==> a in c.mem && c.mem[a] == mem[a]
  }

  ghost predicate Related(rm: RegMap, w: World, fr: Frame, known: set<int>, regs: Interp.Regs, mem: Mem, c: Core) {
    FrameOk(fr, w) && FrameHeld(fr, c) && RegsHeld(rm, known, regs, c) && MemHeld(w, mem, c)
  }

  lemma {:induction false} RelatedAfterWrite(rm: RegMap, w: World, fr: Frame, known: set<int>, regs: Interp.Regs, mem: Mem,
                          c: Core, c': Core, d: nat, v: u64)
    requires ValidMap(rm) && Related(rm, w, fr, known, regs, mem, c)
    requires d <= 9 && Wrote(c, c', rm[d], v)
    ensures Related(rm, w, fr, known + {d}, regs[d := v], mem, c')
  {
    assert Mappable(rm[d]);
    forall r | r in known + {d}
      ensures c'.regs[rm[r]] == regs[d := v][r]
    {
      assert Mappable(rm[r]);
      if r < d { assert rm[r] != rm[d]; } else if d < r { assert rm[d] != rm[r]; }
    }
  }

  /** Flags do not take part in the relation. */
  lemma {:induction false} RelatedFlags(rm: RegMap, w: World, fr: Frame, known: set<int>, regs: Interp.Regs, mem: Mem, c: Core, f: Flags)
    requires Related(rm, w, fr, known, regs, mem, c)
    ensures Related(rm, w, fr, known, regs, mem, c.(flags := f))
  {
  }

  // ----- ALU -----

  lemma {:induction false} AluSim(rm: RegMap, w: World, fr: Frame, known: set<int>, regs: Interp.Regs, mem: Mem, c: Core,
               is64: bool, kind: AluKind, useReg: bool, d: nat, s: nat, imm: int32)
    requires ValidMap(rm) && Related(rm, w, fr, known, regs, mem, c)
    requires d <= 9 && s <= 10 && (kind == Neg ==> !useReg)
    requires kind != Mov ==> d in known
    requires useReg && !IsMulDivMod(kind) ==> s in known
    requires IsMulDivMod(kind) && imm == 0 ==> s in known
    requires JitSem.AluVal(is64, kind, useReg, regs[d], regs[s], imm).Val?
    ensures var body := AluBody(is64, kind, useReg, rm[s], rm[d], imm);
      RunBlock(w, body, c).Ok? &&
      Related(rm, w, fr, known + {d}, regs[d := JitSem.AluVal(is64, kind, useReg, regs[d], regs[s], imm).v], mem,
              RunBlock(w, body, c).c)
  {
    hide JitSem.AluVal, RunBlock, AluBody, Wrote;
    assert Mappable(rm[d]) && Mappable(rm[s]);
    assert Scratch(c);
    var body := AluBody(is64, kind, useReg, rm[s], rm[d], imm);
    var v := JitSem.AluVal(is64, kind, useReg, regs[d], regs[s], imm).v;
    AluWrites(w, c, is64, kind, useReg, rm[d], rm[s], regs[d], regs[s], imm);
    RelatedAfterWrite(rm, w, fr, known, regs, mem, c, RunBlock(w, body, c).c, d, v);
  }

  lemma {:induction false} AluWrites(w: World, c: Core, is64: bool, kind: AluKind, useReg: bool, dst: reg, src: reg,
                                     d: u64, s: u64, imm: int32)
    requires Mappable(dst) && Mappable(src) && Scratch(c) && (kind == Neg ==> !useReg)
    requires kind != Mov ==> c.regs[dst] == d
    requires (useReg && !IsMulDivMod(kind)) || (IsMulDivMod(kind) && imm == 0) ==> c.regs[src] == s
    requires JitSem.AluVal(is64, kind, useReg, d, s, imm).Val?
    ensures var body := AluBody(is64, kind, useReg, src, dst, imm);
      RunBlock(w, body, c).Ok? &&
      Wrote(c, RunBlock(w, body, c).c, dst, JitSem.AluVal(is64, kind, useReg, d, s, imm).v)
  {
    hide RunBlock, Wrote, AluResult, ShiftResult, Trunc, Product, MulDivMod, Scratch, DivU, ModU;
    if IsMulDivMod(kind) {
      assert JitSem.Factor(c.regs[src], imm) == JitSem.Factor(s, imm);
      ProductIsAluVal(is64, kind, useReg, d, s, imm);
      MulDivModEffect(w, is64, kind, src, dst, imm, c);
    } else if IsShift(kind) {
      BodyShift(w, is64, kind, useReg, src, dst, imm, c);
    } else if kind == Neg {
      BodyNeg(w, is64, src, dst, imm, c);
    } else if kind == Mov {
      BodyMov(w, is64, useReg, src, dst, imm, c);
    } else {
      BodySimple(w, is64, kind, useReg, src, dst, imm, c);
    }
  }

  lemma {:induction false} ProductIsAluVal(is64: bool, kind: AluKind, useReg: bool, d: u64, s: u64, imm: int32)
    requires IsMulDivMod(kind) && JitSem.AluVal(is64, kind, useReg, d, s, imm).Val?
    ensures kind != Mul ==> Trunc(is64, JitSem.Factor(s, imm)) != 0
    ensures Product(is64, kind, d, JitSem.Factor(s, imm)) == JitSem.AluVal(is64, kind, useReg, d, s, imm).v
  {
    hide DivU, ModU;
  }

  // ----- byte order -----

  lemma {:induction false} EndianSim(rm: RegMap, w: World, fr: Frame, known: set<int>, regs: Interp.Regs, mem: Mem, c: Core,
                  big: bool, imm: int32, d: nat)
    requires ValidMap(rm) && Related(rm, w, fr, known, regs, mem, c)
    requires d <= 9 && (big ==> d in known) && (imm == 16 || imm == 32 || imm == 64)
    ensures var body := EndianBody(big, imm, rm[d]);
      RunBlock(w, body, c).Ok? &&
      Related(rm, w, fr, known, regs[d := JitSem.EndianVal(big, imm, regs[d])], mem, RunBlock(w, body, c).c)
  {
    var body := EndianBody(big, imm, rm[d]);
    if !big {
      assert regs[d := regs[d]] == regs;
    } else {
      assert Mappable(rm[d]);
      var v := JitSem.EndianVal(big, imm, regs[d]);
      SwapWrites(w, imm, rm[d], c);
      assert known + {d} == known;
      hide RunBlock, Related, Wrote, EndianBody, JitSem.EndianVal;
      RelatedAfterWrite(rm, w, fr, known, regs, mem, c, RunBlock(w, body, c).c, d, v);
    }
  }

  lemma {:induction false} SwapWrites(w: World, imm: int32, dst: reg, c: Core)
    requires imm == 16 || imm == 32 || imm == 64
    ensures var r := RunBlock(w, EndianBody(true, imm, dst), c);
      r.Ok? && Wrote(c, r.c, dst, JitSem.EndianVal(true, imm, c.regs[dst]))
  {
    hide Rol16Result, AluResult, SwapLE;
    if imm == 16 {
      var rol, and := Rol16(dst, 8), AluRI(false, XAnd, dst, 0xffff);
      RunOne(w, rol, c);
      RunSnoc(w, [rol], and, c);
      assert EndianBody(true, imm, dst) == [rol] + [and];
    } else {
      RunOne(w, Bswap(imm == 64, dst), c);
      assert Trunc(imm == 64, c.regs[dst]) == if imm == 64 then c.regs[dst] else U32(c.regs[dst]);
    }
  }

  // ----- memory -----

  /** A visible address range holds the same bytes on both sides. */
  lemma {:induction false} VisibleLoad(w: World, mem: Mem, c: Core, a: int, n: nat)
    requires MemHeld(w, mem, c) && Mapped(mem, a, n)
    ensures Mapped(c.mem, a, n) && Load(c.mem, a, n) == Load(mem, a, n)
  {
    LoadSame(mem, c.mem, a, n);
  }

  lemma {:induction false} LoadSim(rm: RegMap, w: World, fr: Frame, known: set<int>, regs: Interp.Regs, mem: Mem, c: Core,
                size: Size, d: nat, s: nat, off: int16)
    requires ValidMap(rm) && Related(rm, w, fr, known, regs, mem, c)
    requires d <= 9 && s <= 10 && s in known
    requires Mapped(mem, U64(regs[s] + off), SizeBytes(size))
    ensures var body := [LoadM(WidthOf(size), rm[s], off, rm[d])];
      RunBlock(w, body, c).Ok? &&
      Related(rm, w, fr, known + {d}, regs[d := U64(Load(mem, U64(regs[s] + off), SizeBytes(size)))], mem,
              RunBlock(w, body, c).c)
  {
    var i := LoadM(WidthOf(size), rm[s], off, rm[d]);
    var v := U64(Load(mem, U64(regs[s] + off), SizeBytes(size)));
    assert WidthBytes(WidthOf(size)) == SizeBytes(size);
    VisibleLoad(w, mem, c, U64(regs[s] + off), SizeBytes(size));
    assert Exec(w, i, c) == Ok(c.(regs := c.regs[rm[d] := v]));
    RunOne(w, i, c);
    RelatedAfterWrite(rm, w, fr, known, regs, mem, c, c.(regs := c.regs[rm[d] := v]), d, v);
  }

  /** Storing the same bytes at a visible address keeps the relation. */
  lemma {:induction false} StoreRelated(rm: RegMap, w: World, fr: Frame, known: set<int>, regs: Interp.Regs, mem: Mem, c: Core,
                     a: int, bs: seq<byte>)
    requires Related(rm, w, fr, known, regs, mem, c) && Mapped(mem, a, |bs|)
    ensures Related(rm, w, fr, known, regs, StoreBytes(mem, a, bs), c.(mem := StoreBytes(c.mem, a, bs)))
  {
    var c' := c.(mem := StoreBytes(c.mem, a, bs));
    forall x | TopOf(fr) <= x < TopOf(fr) + 48
      ensures x in c'.mem && c'.mem[x] == fr.saved[x - TopOf(fr)]
    {
      assert x !in w.visible;
      assert a <= x < a + |bs| ==> x in mem;
    }
    assert RegsHeld(rm, known, regs, c');
    assert MemHeld(w, StoreBytes(mem, a, bs), c');
  }

  lemma {:induction false} StoreRegSim(rm: RegMap, w: World, fr: Frame, known: set<int>, regs: Interp.Regs, mem: Mem, c: Core,
                    size: Size, d: nat, s: nat, off: int16)
    requires ValidMap(rm) && Related(rm, w, fr, known, regs, mem, c)
    requires d <= 10 && s <= 10 && s in known && d in known
    requires Mapped(mem, U64(regs[d] + off), SizeBytes(size))
    ensures var body := [StoreM(WidthOf(size), rm[s], rm[d], off)];
      RunBlock(w, body, c).Ok? &&
      Related(rm, w, fr, known, regs, Store(mem, U64(regs[d] + off), regs[s], SizeBytes(size)), RunBlock(w, body, c).c)
  {
    var i := StoreM(WidthOf(size), rm[s], rm[d], off);
    var a, n := U64(regs[d] + off), SizeBytes(size);
    assert WidthBytes(WidthOf(size)) == n;
    VisibleLoad(w, mem, c, a, n);
    assert Exec(w, i, c) == Ok(c.(mem := Store(c.mem, a, regs[s], n)));
    RunOne(w, i, c);
    StoreRelated(rm, w, fr, known, regs, mem, c, a, ToLE(regs[s], n));
  }

  lemma {:induction false} StoredImmBytes(size: Size, imm: int32)
    ensures ToLE(U64(StoredImm(size, imm)), SizeBytes(size)) == ToLE(U64(imm), SizeBytes(size))
  {
    hide ToLE, U64;
    if size == Size8 {
      LowOfU64(imm);
      LowOfU64(imm % 0x100);
      OneByte(U64(imm % 0x100));
      OneByte(U64(imm));
    } else if size == Size16 {
      LowOfU64(imm);
      LowOfU64(imm % 0x1_0000);
      TwoBytes(U64(imm % 0x1_0000));
      TwoBytes(U64(imm));
    }
  }

  lemma {:induction false} LowOfU64(x: int32)
    ensures U64(x) % 0x100 == x % 0x100
    ensures U64(x) % 0x1_0000 == x % 0x1_0000
  {
    assert U64(x) == if x < 0 then 0x1_0000_0000_0000_0000 + x else x;
  }

  lemma {:induction false} OneByte(x: nat)
    ensures ToLE(x, 1) == [x % 0x100]
  {
  }

  lemma {:induction false} Low16(x: nat)
    ensures x % 0x100 == (x % 0x1_0000) % 0x100
    ensures (x / 0x100) % 0x100 == (x % 0x1_0000) / 0x100
  {
    var h := x / 0x1_0000;
    assert x == 0x1_0000 * h + x % 0x1_0000;
    assert x / 0x100 == 0x100 * h + (x % 0x1_0000) / 0x100;
  }

  lemma {:induction false} TwoBytes(x: nat)
    ensures ToLE(x, 2) == [(x % 0x1_0000) % 0x100, (x % 0x1_0000) / 0x100]
  {
    Low16(x);
    assert ToLE(x / 0x100, 1) == [(x / 0x100) % 0x100];
  }

  lemma {:induction false} StoreImmSim(rm: RegMap, w: World, fr: Frame, known: set<int>, regs: Interp.Regs, mem: Mem, c: Core,
                    size: Size, d: nat, off: int16, imm: int32)
    requires ValidMap(rm) && Related(rm, w, fr, known, regs, mem, c)
    requires d <= 10 && d in known
    requires Mapped(mem, U64(regs[d] + off), SizeBytes(size))
    ensures var body := [StoreI(WidthOf(size), rm[d], off, StoredImm(size, imm))];
      RunBlock(w, body, c).Ok? &&
      Related(rm, w, fr, known, regs, Store(mem, U64(regs[d] + off), U64(imm), SizeBytes(size)), RunBlock(w, body, c).c)
  {
    hide ToLE, FromLE, StoredImm, RunBlock, ValidMap, FrameOk;
    var i := StoreI(WidthOf(size), rm[d], off, StoredImm(size, imm));
    var a, n := U64(regs[d] + off), SizeBytes(size);
    assert WidthBytes(WidthOf(size)) == n;
    VisibleLoad(w, mem, c, a, n);
    StoredImmBytes(size, imm);
    assert Exec(w, i, c) == Ok(c.(mem := Store(c.mem, a, U64(imm), n)));
    RunOne(w, i, c);
    StoreRelated(rm, w, fr, known, regs, mem, c, a, ToLE(U64(imm), n));
  }

  lemma {:induction false} WideSim(rm: RegMap, w: World, fr: Frame, known: set<int>, regs: Interp.Regs, mem: Mem, c: Core, d: nat, v: u64)
    requires ValidMap(rm) && Related(rm, w, fr, known, regs, mem, c) && d <= 9
    ensures RunBlock(w, [LoadImm(rm[d], v)], c).Ok?
    ensures Related(rm, w, fr, known + {d}, regs[d := v], mem, RunBlock(w, [LoadImm(rm[d], v)], c).c)
  {
    ExecLoadImm(w, rm[d], v, c);
    RunOne(w, LoadImm(rm[d], v), c);
    RelatedAfterWrite(rm, w, fr, known, regs, mem, c, c.(regs := c.regs[rm[d] := v]), d, v);
  }

  // ----- comparisons -----

  /** The flags of cmp decide the six conditions, signed ones included. */
  lemma {:induction false} CmpDecides(cond: Cond, d: u64, s: u64)
    requires cond != Set
    ensures var f := CmpFlags(true, d, s);
      Holds(CcFor(cond), f) == (match cond
        case Eq => d == s
        case Gt => d > s
        case Ge => d >= s
        case Ne => d != s
        case Sgt => S64(d) > S64(s)
        case _ => S64(d) >= S64(s))
  {
  }

  lemma {:induction false} TestDecides(d: u64, s: u64)
    ensures Holds(CcNE, TestFlags(true, d, s)) == (Bitwise(BitAnd, d, s) != 0)
  {
    hide Bitwise, Pow2;
    Pow2Facts();
    BitwiseBound(BitAnd, d, s, 64);
  }

  lemma {:induction false} CompareSim(rm: RegMap, w: World, fr: Frame, known: set<int>, regs: Interp.Regs, mem: Mem, c: Core,
                   cond: Cond, useReg: bool, d: nat, s: nat, imm: int32)
    requires ValidMap(rm) && Related(rm, w, fr, known, regs, mem, c)
    requires d <= 9 && s <= 10 && d in known && (useReg ==> s in known)
    ensures var r := RunBlock(w, [TestFor(cond, useReg, rm[s], rm[d], imm)], c);
      r.Ok? && Related(rm, w, fr, known, regs, mem, r.c) && r.c.flags.Flags? &&
      Holds(CcFor(cond), r.c.flags) == JitSem.Taken(cond, useReg, regs[d], regs[s], imm)
  {
    var i := TestFor(cond, useReg, rm[s], rm[d], imm);
    var b := if useReg then regs[s] else U64(imm);
    var f := if cond == Set then TestFlags(true, regs[d], b) else CmpFlags(true, regs[d], b);
    assert c.regs[rm[d]] == regs[d] && (useReg ==> c.regs[rm[s]] == regs[s]);
    hide TestFlags, CmpFlags, Holds, Related;
    assert Exec(w, i, c) == Ok(c.(flags := f));
    RunOne(w, i, c);
    RelatedFlags(rm, w, fr, known, regs, mem, c, f);
    if cond == Set { TestDecides(regs[d], b); } else { CmpDecides(cond, regs[d], b); }
  }

  // ----- helper calls -----

  /** The function behind each registered index does what the helper does, given its arguments. */
  ghost predicate Linked(w: World, env: Interp.Env, link: Link, funcs: set<int>) {
    forall imm: int32, args: seq<u64>, m: Mem :: imm in funcs && |args| == 5 ==>
      var r := w.call(link.func(imm), args, m);
      var h := env.helper(imm, args[..Interp.ArgCount(env, imm)], m);
      r.value == h.value && r.mem == h.mem
  }

  /** The maps under which calls of n arguments work: r0 is where a C function returns its result, the
      first n arguments are where it expects them (the fourth travels in R9), and r6 to r10 are in
      registers it preserves, in any order. */
  predicate CallMap(rm: RegMap, n: nat) {
    rm[0] == RAX && (forall i :: 1 <= i <= 5 && i <= n ==> rm[i] == DEFAULT_MAP[i]) &&
    forall i :: 6 <= i <= 10 ==> CalleeSaved(rm[i])
  }

  lemma {:induction false} VisibleIsMem(w: World, mem: Mem, c: Core)
    requires MemHeld(w, mem, c)
    ensures Visible(w, c.mem) == mem
  {
    var v := Visible(w, c.mem);
    forall a
      ensures a in v.Keys <==> a in mem.Keys
    {
      assert a in mem.Keys <==> a in w.visible;
    }
    assert v.Keys == mem.Keys;
    forall a | a in mem
      ensures v[a] == mem[a]
    {
      assert a in w.visible;
    }
  }

  /** Arguments reach the helper in the order of the ABI: r4 travels in R9 and is moved to RCX. */
  lemma {:induction false} CallArgs(rm: RegMap, known: set<int>, regs: Interp.Regs, c: Core, n: nat)
    requires n <= 5 && CallMap(rm, n) && JitSem.ArgRegs(n) <= known && RegsHeld(rm, known, regs, c)
    ensures [c.regs[RDI], c.regs[RSI], c.regs[RDX], c.regs[R9], c.regs[R8]][..n] == regs[1..1 + n]
  {
    assert forall r :: 1 <= r <= n ==> r in JitSem.ArgRegs(n);
  }

  lemma {:induction false} AfterCallRelated(rm: RegMap, w: World, fr: Frame, known: set<int>, regs: Interp.Regs, mem: Mem,
                         c: Core, c2: Core, res: CallResult, mem': Mem)
    requires Related(rm, w, fr, known, regs, mem, c) && CallMap(rm, 0)
    requires c2.mem == c.mem && forall q :: 0 <= q < 16 && q != RCX && q != RAX ==> c2.regs[q] == c.regs[q]
    requires mem' == map a | a in mem :: if a in res.mem then res.mem[a] else mem[a]
    ensures Related(rm, w, fr, (known - {1, 2, 3, 4, 5}) + {0}, regs[0 := res.value], mem', AfterCall(w, c2, res))
  {
    var c' := AfterCall(w, c2, res);
    var known' := (known - {1, 2, 3, 4, 5}) + {0};
    forall r | r in known'
      ensures c'.regs[rm[r]] == regs[0 := res.value][r]
    {
      if r != 0 {
        assert 6 <= r <= 10;
        assert CalleeSaved(rm[r]);
      }
    }
    assert MemHeld(w, mem', c');
    assert FrameHeld(fr, c');
  }

  /** The three instructions of a call reach the callq with the fourth argument in RCX. */
  lemma {:induction false} CallRuns(w: World, link: Link, imm: int32, c: Core)
    ensures RunBlock(w, CallBody(link, imm), c)
         == DoCall(w, c.(regs := c.regs[RCX := c.regs[R9]][RAX := link.func(imm)]))
  {
    hide DoCall, RunBlock;
    var c1 := c.(regs := c.regs[RCX := c.regs[R9]]);
    var mov, ld := MovRR(R9, RCX), LoadImm(RAX, link.func(imm));
    RunOne(w, mov, c);
    ExecLoadImm(w, RAX, link.func(imm), c1);
    hide LoadImm;
    RunSnoc(w, [mov], ld, c);
    RunSnoc(w, [mov] + [ld], CallRax, c);
    assert CallBody(link, imm) == [mov] + [ld] + [CallRax];
  }

  lemma {:induction false} CallResultOf(rm: RegMap, w: World, env: Interp.Env, link: Link, funcs: set<int>, known: set<int>,
                     regs: Interp.Regs, mem: Mem, c: Core, imm: int32)
    requires RegsHeld(rm, known, regs, c) && Linked(w, env, link, funcs) && imm in funcs
    requires CallMap(rm, env.arity(imm)) && JitSem.ArgRegs(env.arity(imm)) <= known
    ensures var res := w.call(link.func(imm), [c.regs[RDI], c.regs[RSI], c.regs[RDX], c.regs[R9], c.regs[R8]], mem);
      Interp.RunHelper(env, imm, regs, mem)
      == Interp.HelperResult(res.value, map a | a in mem :: if a in res.mem then res.mem[a] else mem[a])
  {
    var args := [c.regs[RDI], c.regs[RSI], c.regs[RDX], c.regs[R9], c.regs[R8]];
    assert JitSem.ArgRegs(Interp.ArgCount(env, imm)) == JitSem.ArgRegs(env.arity(imm));
    CallArgs(rm, known, regs, c, Interp.ArgCount(env, imm));
    assert |args| == 5;
    var res := w.call(link.func(imm), args, mem);
  }

  /** A call of a registered helper, under a map that suits its arguments. */
  lemma {:induction false} CallSim(rm: RegMap, w: World, env: Interp.Env, link: Link, funcs: set<int>, fr: Frame, known: set<int>,
                regs: Interp.Regs, mem: Mem, c: Core, imm: int32)
    requires Related(rm, w, fr, known, regs, mem, c) && Linked(w, env, link, funcs) && imm in funcs
    requires CallMap(rm, env.arity(imm)) && JitSem.ArgRegs(env.arity(imm)) <= known
    ensures var r := RunBlock(w, CallBody(link, imm), c);
      var h := Interp.RunHelper(env, imm, regs, mem);
      r.Ok? && Related(rm, w, fr, (known - {1, 2, 3, 4, 5}) + {0}, regs[0 := h.value], h.mem, r.c)
  {
    hide AfterCall, LoadImm, RunBlock, Interp.RunHelper, CallBody, JitSem.ArgRegs, Linked;
    var c2 := c.(regs := c.regs[RCX := c.regs[R9]][RAX := link.func(imm)]);
    var args := [c.regs[RDI], c.regs[RSI], c.regs[RDX], c.regs[R9], c.regs[R8]];
    CallRuns(w, link, imm, c);
    VisibleIsMem(w, mem, c);
    CallResultOf(rm, w, env, link, funcs, known, regs, mem, c, imm);
    var res := w.call(link.func(imm), args, mem);
    assert [c2.regs[RDI], c2.regs[RSI], c2.regs[RDX], c2.regs[RCX], c2.regs[R8]] == args;
    assert DoCall(w, c2) == Ok(AfterCall(w, c2, res));
    AfterCallRelated(rm, w, fr, known, regs, mem, c, c2, res, Interp.RunHelper(env, imm, regs, mem).mem);
  }

  // ----- the slot theorem -----

  ghost predicate JumpTaken(j: Jump, c: Core) {
    match j
    case NoJump => false
    case Always(_) => true
    case OnCc(cc, _) => c.flags.Flags? && Holds(cc, c.flags)
  }

  /** A conditional jump is only emitted after a comparison. */
  ghost predicate JumpReady(j: Jump, c: Core) { j.OnCc? ==> c.flags.Flags? }

  /** The register map suits every call of the program. */
  ghost predicate CallsAllowed(rm: RegMap, env: Interp.Env, prog: seq<Inst>) {
    forall i :: 0 <= i < |prog| && prog[i].Op().Call? ==> CallMap(rm, env.arity(prog[i].imm))
  }

  ghost predicate SlotResult(rm: RegMap, w: World, fr: Frame, prog: seq<Inst>, i: nat, slot: Slot,
                             s': Interp.State, known': set<int>, r: MaybeCore)
    requires i < |prog|
  {
    r.Ok? && Related(rm, w, fr, known', s'.regs, s'.mem, r.c) && JumpReady(slot.jump, r.c) &&
    (if JumpTaken(slot.jump, r.c) then s'.pc == JumpTarget(slot) && s'.pc < |prog| && prog[s'.pc].opcode != 0
     else s'.pc == FallThrough(prog, i))
  }

  lemma {:induction false} NextPcExact(prog: seq<Inst>, i: nat, off: int)
    requires i < |prog| < MAX_INSTS && 0 <= i + 1 + off <= |prog|
    ensures Interp.NextPc(i, off) == i + 1 + off
    ensures U32(i + off + 1) == i + 1 + off
  {
  }

  // What a step of JitSem and the emitted slot are, one kind of instruction at a time.

  lemma {:induction false} AluFacts(rm: RegMap, env: Interp.Env, link: Link, prog: seq<Inst>, s: Interp.State, known: set<int>)
    requires 0 <= s.pc < |prog| && prog[s.pc].Op().Alu?
    requires JitSem.Step(env, prog, s, known).JNext?
    ensures var inst := prog[s.pc];
      var Alu(is64, kind, useReg) := inst.Op();
      var v := JitSem.AluVal(is64, kind, useReg, s.regs[inst.dst], s.regs[inst.src], inst.imm);
      v.Val? && JitSem.Step(env, prog, s, known)
        == JitSem.JNext(Interp.State(Interp.NextPc(s.pc, 0), s.regs[inst.dst := v.v], s.mem), known + {inst.dst as int})
      && (kind != Mov ==> inst.dst in known)
      && (useReg && !IsMulDivMod(kind) ==> inst.src in known)
      && (IsMulDivMod(kind) && inst.imm == 0 ==> inst.src in known)
      && SlotOf(rm, link, prog, s.pc)
        == Slot(AluBody(is64, kind, useReg, MapReg(rm, inst.src), MapReg(rm, inst.dst), inst.imm), NoJump)
  {
    hide OpOf, JitSem.AluVal, JitSem.EndianVal, AluBody, EndianBody, Interp.RunHelper, Interp.NextPc;
  }

  lemma {:induction false} EndianFacts(rm: RegMap, env: Interp.Env, link: Link, prog: seq<Inst>, s: Interp.State, known: set<int>)
    requires 0 <= s.pc < |prog| && prog[s.pc].Op().Endian?
    requires JitSem.Step(env, prog, s, known).JNext?
    ensures var inst := prog[s.pc];
      var big := inst.Op().big;
      JitSem.Step(env, prog, s, known)
        == JitSem.JNext(Interp.State(Interp.NextPc(s.pc, 0),
             s.regs[inst.dst := JitSem.EndianVal(big, inst.imm, s.regs[inst.dst])], s.mem), known)
      && (big ==> inst.dst in known)
      && SlotOf(rm, link, prog, s.pc) == Slot(EndianBody(big, inst.imm, MapReg(rm, inst.dst)), NoJump)
  {
    hide OpOf, JitSem.AluVal, JitSem.EndianVal, AluBody, EndianBody, Interp.RunHelper, Interp.NextPc;
  }

  lemma {:induction false} LoadFacts(rm: RegMap, env: Interp.Env, link: Link, prog: seq<Inst>, s: Interp.State, known: set<int>)
    requires 0 <= s.pc < |prog| && prog[s.pc].Op().Ldx?
    requires JitSem.Step(env, prog, s, known).JNext?
    ensures var inst := prog[s.pc];
      var size := inst.Op().size;
      inst.src in known && Mapped(s.mem, U64(s.regs[inst.src] + inst.offset), SizeBytes(size))
      && JitSem.Step(env, prog, s, known)
        == JitSem.JNext(Interp.State(Interp.NextPc(s.pc, 0),
             s.regs[inst.dst := U64(Load(s.mem, U64(s.regs[inst.src] + inst.offset), SizeBytes(size)))], s.mem),
             known + {inst.dst as int})
      && SlotOf(rm, link, prog, s.pc)
        == Slot([LoadM(WidthOf(size), MapReg(rm, inst.src), inst.offset, MapReg(rm, inst.dst))], NoJump)
  {
    hide OpOf, JitSem.AluVal, JitSem.EndianVal, AluBody, EndianBody, Interp.RunHelper, Interp.NextPc;
  }

  lemma {:induction false} StoreFacts(rm: RegMap, env: Interp.Env, link: Link, prog: seq<Inst>, s: Interp.State, known: set<int>)
    requires 0 <= s.pc < |prog| && (prog[s.pc].Op().St? || prog[s.pc].Op().Stx?)
    requires JitSem.Step(env, prog, s, known).JNext?
    ensures var inst := prog[s.pc];
      var size := inst.Op().size;
      var v := if inst.Op().St? then U64(inst.imm) else s.regs[inst.src];
      inst.dst in known && (inst.Op().Stx? ==> inst.src in known)
      && Mapped(s.mem, U64(s.regs[inst.dst] + inst.offset), SizeBytes(size))
      && JitSem.Step(env, prog, s, known)
        == JitSem.JNext(Interp.State(Interp.NextPc(s.pc, 0), s.regs,
             Store(s.mem, U64(s.regs[inst.dst] + inst.offset), v, SizeBytes(size))), known)
      && SlotOf(rm, link, prog, s.pc)
        == Slot([if inst.Op().St? then StoreI(WidthOf(size), MapReg(rm, inst.dst), inst.offset, StoredImm(size, inst.imm))
                 else StoreM(WidthOf(size), MapReg(rm, inst.src), MapReg(rm, inst.dst), inst.offset)], NoJump)
  {
    hide OpOf, JitSem.AluVal, JitSem.EndianVal, AluBody, EndianBody, Interp.RunHelper, Interp.NextPc;
  }

  lemma {:induction false} JumpFacts(rm: RegMap, env: Interp.Env, link: Link, prog: seq<Inst>, s: Interp.State, known: set<int>)
    requires 0 <= s.pc < |prog| && prog[s.pc].Op().Jcond?
    requires JitSem.Step(env, prog, s, known).JNext?
    ensures var inst := prog[s.pc];
      var Jcond(cond, useReg) := inst.Op();
      var jump := JitSem.Taken(cond, useReg, s.regs[inst.dst], s.regs[inst.src], inst.imm);
      inst.dst in known && (useReg ==> inst.src in known)
      && JitSem.Step(env, prog, s, known)
        == JitSem.JNext(Interp.State(Interp.NextPc(s.pc, if jump then inst.offset else 0), s.regs, s.mem), known)
      && SlotOf(rm, link, prog, s.pc)
        == Slot([TestFor(cond, useReg, MapReg(rm, inst.src), MapReg(rm, inst.dst), inst.imm)],
                OnCc(CcFor(cond), U32(s.pc + inst.offset + 1)))
  {
    hide OpOf, JitSem.AluVal, JitSem.EndianVal, AluBody, EndianBody, Interp.RunHelper, Interp.NextPc;
  }

  lemma {:induction false} NegHasNoReg(opcode: byte)
    ensures var op := OpOf(opcode); op.Alu? && op.kind == Neg ==> !op.useReg
  {
  }

  lemma {:induction false} SlotAlu(rm: RegMap, w: World, env: Interp.Env, link: Link, fr: Frame, prog: seq<Inst>, funcs: set<int>,
                 s: Interp.State, known: set<int>, c: Core)
    requires ValidMap(rm) && |prog| < MAX_INSTS && 0 <= s.pc < |prog| && InstOk(prog, funcs, s.pc)
    requires Related(rm, w, fr, known, s.regs, s.mem, c)
    requires prog[s.pc].Op().Alu?
    requires JitSem.Step(env, prog, s, known).JNext?
    ensures var n := JitSem.Step(env, prog, s, known);
      var slot := SlotOf(rm, link, prog, s.pc);
      SlotResult(rm, w, fr, prog, s.pc, slot, n.s, n.known, RunBlock(w, slot.body, c))
  {
    hide OpOf, SlotOf, JitSem.Step, RunBlock, Related, ValidMap, JitSem.AluVal, AluBody;
    var inst := prog[s.pc];
    var d: nat, x: nat := inst.dst, inst.src;
    NextPcExact(prog, s.pc, 0);
    AluFacts(rm, env, link, prog, s, known);
    var Alu(is64, kind, useReg) := inst.Op();
    NegHasNoReg(inst.opcode);
    AluSim(rm, w, fr, known, s.regs, s.mem, c, is64, kind, useReg, d, x, inst.imm);
  }

  lemma {:induction false} SlotEndian(rm: RegMap, w: World, env: Interp.Env, link: Link, fr: Frame, prog: seq<Inst>, funcs: set<int>,
                    s: Interp.State, known: set<int>, c: Core)
    requires ValidMap(rm) && |prog| < MAX_INSTS && 0 <= s.pc < |prog| && InstOk(prog, funcs, s.pc)
    requires Related(rm, w, fr, known, s.regs, s.mem, c)
    requires prog[s.pc].Op().Endian?
    requires JitSem.Step(env, prog, s, known).JNext?
    ensures var n := JitSem.Step(env, prog, s, known);
      var slot := SlotOf(rm, link, prog, s.pc);
      SlotResult(rm, w, fr, prog, s.pc, slot, n.s, n.known, RunBlock(w, slot.body, c))
  {
    hide OpOf, SlotOf, JitSem.Step, RunBlock, Related, ValidMap, JitSem.EndianVal, EndianBody;
    var inst := prog[s.pc];
    var d: nat, x: nat := inst.dst, inst.src;
    NextPcExact(prog, s.pc, 0);
    EndianFacts(rm, env, link, prog, s, known);
    EndianSim(rm, w, fr, known, s.regs, s.mem, c, inst.Op().big, inst.imm, d);
  }

  lemma {:induction false} SlotLddw(rm: RegMap, w: World, env: Interp.Env, link: Link, fr: Frame, prog: seq<Inst>, funcs: set<int>,
                  s: Interp.State, known: set<int>, c: Core)
    requires ValidMap(rm) && |prog| < MAX_INSTS && 0 <= s.pc < |prog| && InstOk(prog, funcs, s.pc)
    requires Related(rm, w, fr, known, s.regs, s.mem, c)
    requires prog[s.pc].Op().Lddw?
    requires JitSem.Step(env, prog, s, known).JNext?
    ensures var n := JitSem.Step(env, prog, s, known);
      var slot := SlotOf(rm, link, prog, s.pc);
      SlotResult(rm, w, fr, prog, s.pc, slot, n.s, n.known, RunBlock(w, slot.body, c))
  {
    hide OpOf, RunBlock, Related, LoadImm, ValidMap, Interp.Wide;
    var inst := prog[s.pc];
    var d: nat, x: nat := inst.dst, inst.src;
    NextPcExact(prog, s.pc, 0);
    NextPcExact(prog, s.pc, 1);
    WideSim(rm, w, fr, known, s.regs, s.mem, c, d, Interp.Wide(inst.imm, prog[s.pc + 1].imm));
  }

  lemma {:induction false} SlotLoad(rm: RegMap, w: World, env: Interp.Env, link: Link, fr: Frame, prog: seq<Inst>, funcs: set<int>,
                  s: Interp.State, known: set<int>, c: Core)
    requires ValidMap(rm) && |prog| < MAX_INSTS && 0 <= s.pc < |prog| && InstOk(prog, funcs, s.pc)
    requires Related(rm, w, fr, known, s.regs, s.mem, c)
    requires prog[s.pc].Op().Ldx?
    requires JitSem.Step(env, prog, s, known).JNext?
    ensures var n := JitSem.Step(env, prog, s, known);
      var slot := SlotOf(rm, link, prog, s.pc);
      SlotResult(rm, w, fr, prog, s.pc, slot, n.s, n.known, RunBlock(w, slot.body, c))
  {
    hide OpOf, SlotOf, JitSem.Step, RunBlock, Related, ValidMap;
    var inst := prog[s.pc];
    var d: nat, x: nat := inst.dst, inst.src;
    NextPcExact(prog, s.pc, 0);
    LoadFacts(rm, env, link, prog, s, known);
    LoadSim(rm, w, fr, known, s.regs, s.mem, c, inst.Op().size, d, x, inst.offset);
  }

  lemma {:induction false} SlotStore(rm: RegMap, w: World, env: Interp.Env, link: Link, fr: Frame, prog: seq<Inst>, funcs: set<int>,
                   s: Interp.State, known: set<int>, c: Core)
    requires ValidMap(rm) && |prog| < MAX_INSTS && 0 <= s.pc < |prog| && InstOk(prog, funcs, s.pc)
    requires Related(rm, w, fr, known, s.regs, s.mem, c)
    requires prog[s.pc].Op().St? || prog[s.pc].Op().Stx?
    requires JitSem.Step(env, prog, s, known).JNext?
    ensures var n := JitSem.Step(env, prog, s, known);
      var slot := SlotOf(rm, link, prog, s.pc);
      SlotResult(rm, w, fr, prog, s.pc, slot, n.s, n.known, RunBlock(w, slot.body, c))
  {
    hide OpOf, SlotOf, JitSem.Step, RunBlock, Related, ValidMap;
    var inst := prog[s.pc];
    var d: nat, x: nat := inst.dst, inst.src;
    NextPcExact(prog, s.pc, 0);
    StoreFacts(rm, env, link, prog, s, known);
    if inst.Op().St? {
      StoreImmSim(rm, w, fr, known, s.regs, s.mem, c, inst.Op().size, d, inst.offset, inst.imm);
    } else {
      StoreRegSim(rm, w, fr, known, s.regs, s.mem, c, inst.Op().size, d, x, inst.offset);
    }
  }

  lemma {:induction false} SlotJump(rm: RegMap, w: World, env: Interp.Env, link: Link, fr: Frame, prog: seq<Inst>, funcs: set<int>,
                  s: Interp.State, known: set<int>, c: Core)
    requires ValidMap(rm) && |prog| < MAX_INSTS && 0 <= s.pc < |prog| && InstOk(prog, funcs, s.pc)
    requires Related(rm, w, fr, known, s.regs, s.mem, c)
    requires prog[s.pc].Op().Jcond?
    requires JitSem.Step(env, prog, s, known).JNext?
    ensures var n := JitSem.Step(env, prog, s, known);
      var slot := SlotOf(rm, link, prog, s.pc);
      SlotResult(rm, w, fr, prog, s.pc, slot, n.s, n.known, RunBlock(w, slot.body, c))
  {
    hide OpOf, SlotOf, JitSem.Step, RunBlock, Related, ValidMap, JitSem.Taken, Holds;
    var inst := prog[s.pc];
    var d: nat, x: nat := inst.dst, inst.src;
    NextPcExact(prog, s.pc, 0);
    JumpFacts(rm, env, link, prog, s, known);
    NextPcExact(prog, s.pc, inst.offset);
    CompareSim(rm, w, fr, known, s.regs, s.mem, c, inst.Op().cond, inst.Op().useReg, d, x, inst.imm);
  }

  lemma {:induction false} SlotJa(rm: RegMap, w: World, env: Interp.Env, link: Link, fr: Frame, prog: seq<Inst>, funcs: set<int>,
                s: Interp.State, known: set<int>, c: Core)
    requires ValidMap(rm) && |prog| < MAX_INSTS && 0 <= s.pc < |prog| && InstOk(prog, funcs, s.pc)
    requires Related(rm, w, fr, known, s.regs, s.mem, c)
    requires prog[s.pc].Op().Ja?
    requires JitSem.Step(env, prog, s, known).JNext?
    ensures var n := JitSem.Step(env, prog, s, known);
      var slot := SlotOf(rm, link, prog, s.pc);
      SlotResult(rm, w, fr, prog, s.pc, slot, n.s, n.known, RunBlock(w, slot.body, c))
  {
    hide OpOf, Related, ValidMap;
    var inst := prog[s.pc];
    var d: nat, x: nat := inst.dst, inst.src;
    NextPcExact(prog, s.pc, 0);
    NextPcExact(prog, s.pc, inst.offset);
  }

  lemma {:induction false} SlotCall(rm: RegMap, w: World, env: Interp.Env, link: Link, fr: Frame, prog: seq<Inst>, funcs: set<int>,
                  s: Interp.State, known: set<int>, c: Core)
    requires ValidMap(rm) && |prog| < MAX_INSTS && 0 <= s.pc < |prog| && InstOk(prog, funcs, s.pc)
    requires Related(rm, w, fr, known, s.regs, s.mem, c)
    requires prog[s.pc].Op().Call? && CallsAllowed(rm, env, prog) && Linked(w, env, link, funcs)
    requires JitSem.Step(env, prog, s, known).JNext?
    ensures var n := JitSem.Step(env, prog, s, known);
      var slot := SlotOf(rm, link, prog, s.pc);
      SlotResult(rm, w, fr, prog, s.pc, slot, n.s, n.known, RunBlock(w, slot.body, c))
  {
    hide OpOf, RunBlock, Related, ValidMap, CallBody, Interp.RunHelper, Linked, JitSem.ArgRegs;
    var inst := prog[s.pc];
    var d: nat, x: nat := inst.dst, inst.src;
    NextPcExact(prog, s.pc, 0);
    CallSim(rm, w, env, link, funcs, fr, known, s.regs, s.mem, c, inst.imm);
  }

  /** Every instruction of a validated program: the emitted body, run from a related state, leads
      to the related next state, and its jump goes where the program goes. */
  lemma {:induction false} SlotStep(rm: RegMap, w: World, env: Interp.Env, link: Link, fr: Frame, prog: seq<Inst>, funcs: set<int>,
                 s: Interp.State, known: set<int>, c: Core)
    requires ValidMap(rm) && Validated(prog, funcs) && 0 <= s.pc < |prog| && !IsTail(prog, s.pc)
    requires CallsAllowed(rm, env, prog) && Linked(w, env, link, funcs)
    requires Related(rm, w, fr, known, s.regs, s.mem, c)
    requires JitSem.Step(env, prog, s, known).JNext?
    ensures var n := JitSem.Step(env, prog, s, known);
      var slot := SlotOf(rm, link, prog, s.pc);
      SlotResult(rm, w, fr, prog, s.pc, slot, n.s, n.known, RunBlock(w, slot.body, c))
  {
    hide OpOf, Related, ValidMap, InstOk, SlotResult, RunBlock, SlotOf, JitSem.Step, Validated, IsTail,
         CallsAllowed, Linked;
    ValidAt(prog, funcs, s.pc);
    SlotStepValid(rm, w, env, link, fr, prog, funcs, s, known, c);
  }

  lemma {:induction false} SlotStepValid(rm: RegMap, w: World, env: Interp.Env, link: Link, fr: Frame, prog: seq<Inst>, funcs: set<int>,
                      s: Interp.State, known: set<int>, c: Core)
    requires ValidMap(rm) && |prog| < MAX_INSTS && 0 <= s.pc < |prog| && InstOk(prog, funcs, s.pc)
    requires CallsAllowed(rm, env, prog) && Linked(w, env, link, funcs)
    requires Related(rm, w, fr, known, s.regs, s.mem, c)
    requires JitSem.Step(env, prog, s, known).JNext?
    ensures var n := JitSem.Step(env, prog, s, known);
      var slot := SlotOf(rm, link, prog, s.pc);
      SlotResult(rm, w, fr, prog, s.pc, slot, n.s, n.known, RunBlock(w, slot.body, c))
  {
    hide OpOf, Related, ValidMap, InstOk, SlotResult, RunBlock, SlotOf, CallsAllowed, Linked;
    match prog[s.pc].Op() {
      case Alu(_, _, _) => SlotAlu(rm, w, env, link, fr, prog, funcs, s, known, c);
      case Endian(_) => SlotEndian(rm, w, env, link, fr, prog, funcs, s, known, c);
      case Ldx(_) => SlotLoad(rm, w, env, link, fr, prog, funcs, s, known, c);
      case St(_) => SlotStore(rm, w, env, link, fr, prog, funcs, s, known, c);
      case Stx(_) => SlotStore(rm, w, env, link, fr, prog, funcs, s, known, c);
      case Lddw => SlotLddw(rm, w, env, link, fr, prog, funcs, s, known, c);
      case Ja => SlotJa(rm, w, env, link, fr, prog, funcs, s, known, c);
      case Jcond(_, _) => SlotJump(rm, w, env, link, fr, prog, funcs, s, known, c);
      case Call => SlotCall(rm, w, env, link, fr, prog, funcs, s, known, c);
      case _ =>
    }
  }
}
