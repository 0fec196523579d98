/** Entering and leaving compiled code: the saved registers of the System V AMD64 ABI. */
module Abi {
  import opened Words
  import opened Memory
  import opened Ebpf
  import opened X86
  import opened Machine
  import opened Jit
  import opened Simulation
  import opened MulDivSim
  import opened SlotSim
  import Interp

  function Pushes(rs: seq<reg>): seq<Instr> { seq(|rs|, k requires 0 <= k < |rs| => Push(rs[k])) }
  function Pops(rs: seq<reg>): seq<Instr> { seq(|rs|, k requires 0 <= k < |rs| => Pop(rs[k])) }

  predicate NoStackReg(rs: seq<reg>) { forall k :: 0 <= k < |rs| ==> rs[k] != RSP }

  /** The k-th pushed register lies k+1 words below the old stack pointer. */
  ghost predicate Stacked(rs: seq<reg>, c: Core, c': Core) {
    Sp(c') == Sp(c) - 8 * |rs| && c'.regs == c.regs[RSP := c'.regs[RSP]] && c'.mem.Keys == c.mem.Keys &&
    Mapped(c'.mem, Sp(c'), 8 * |rs|) &&
    (forall k :: 0 <= k < |rs| ==> WordAt(c'.mem, Sp(c) - 8 * (k + 1), c.regs[rs[k]])) &&
    (forall a :: a in c.mem && !(Sp(c') <= a < Sp(c)) ==> c'.mem[a] == c.mem[a])
  }

  ghost predicate WordAt(m: Mem, a: int, v: u64) { Mapped(m, a, 8) && Load(m, a, 8) == v }

  lemma {:induction false} WordKept(m: Mem, m': Mem, a: int, v: u64)
    requires WordAt(m, a, v) && m'.Keys == m.Keys
    requires forall x :: a <= x < a + 8 ==> m'[x] == m[x]
    ensures WordAt(m', a, v)
  {
    LoadSame(m, m', a, 8);
  }

  lemma {:induction false} PushMore(rs: seq<reg>, r: reg, c: Core, c': Core)
    requires NoStackReg(rs) && r != RSP && Stacked(rs, c, c')
    requires 8 * (|rs| + 1) <= Sp(c) && Mapped(c.mem, Sp(c) - 8 * (|rs| + 1), 8 * (|rs| + 1))
    ensures var p := PushVal(c', c'.regs[r]); p.Ok? && Stacked(rs + [r], c, p.c)
  {
    hide Load;
    PushEffect(c', c'.regs[r]);
    var p := PushVal(c', c'.regs[r]).c;
    hide PushVal;
    forall k | 0 <= k < |rs + [r]|
      ensures WordAt(p.mem, Sp(c) - 8 * (k + 1), c.regs[(rs + [r])[k]])
    {
      if k < |rs| {
        WordKept(c'.mem, p.mem, Sp(c) - 8 * (k + 1), c.regs[rs[k]]);
      }
    }
  }

  lemma {:induction false} PushList(w: World, rs: seq<reg>, c: Core)
    requires NoStackReg(rs) && 8 * |rs| <= Sp(c) && Mapped(c.mem, Sp(c) - 8 * |rs|, 8 * |rs|)
    ensures RunBlock(w, Pushes(rs), c).Ok? && Stacked(rs, c, RunBlock(w, Pushes(rs), c).c)
    decreases |rs|
  {
    hide Load, PushVal, RunBlock;
    if rs == [] {
      assert Pushes(rs) == [];
      RunNone(w, c);
    } else {
      var n := |rs| - 1;
      PushList(w, rs[..n], c);
      PushMore(rs[..n], rs[n], c, RunBlock(w, Pushes(rs[..n]), c).c);
      assert rs == rs[..n] + [rs[n]];
      RunSnoc(w, Pushes(rs[..n]), Push(rs[n]), c);
      assert Pushes(rs) == Pushes(rs[..n]) + [Push(rs[n])];
    }
  }

  lemma {:induction false} RunNone(w: World, c: Core)
    ensures RunBlock(w, [], c) == Ok(c)
  {
  }

  predicate Distinct(rs: seq<reg>) { forall j, k :: 0 <= j < k < |rs| ==> rs[j] != rs[k] }

  /** The popped registers hold the words from the stack pointer upwards. */
  ghost predicate Popped(rs: seq<reg>, vs: seq<u64>, c: Core, c': Core)
    requires |vs| == |rs|
  {
    Sp(c') == Sp(c) + 8 * |rs| && c'.mem == c.mem &&
    (forall k :: 0 <= k < |rs| ==> c'.regs[rs[k]] == vs[k]) &&
    forall q: reg :: q != RSP && q !in rs ==> c'.regs[q] == c.regs[q]
  }

  lemma {:induction false} PopList(w: World, rs: seq<reg>, vs: seq<u64>, c: Core)
    requires NoStackReg(rs) && Distinct(rs) && |vs| == |rs| && Sp(c) + 8 * |rs| < 0x1_0000_0000_0000_0000
    requires forall k :: 0 <= k < |rs| ==> WordAt(c.mem, Sp(c) + 8 * k, vs[k])
    ensures RunBlock(w, Pops(rs), c).Ok? && Popped(rs, vs, c, RunBlock(w, Pops(rs), c).c)
    decreases |rs|
  {
    hide Load, RunBlock;
    if rs == [] {
      assert Pops(rs) == [];
      RunNone(w, c);
    } else {
      var n := |rs| - 1;
      PopList(w, rs[..n], vs[..n], c);
      var c1 := RunBlock(w, Pops(rs[..n]), c).c;
      assert WordAt(c.mem, Sp(c) + 8 * n, vs[n]);
      PopEffect(c1, rs[n]);
      assert rs == rs[..n] + [rs[n]];
      RunSnoc(w, Pops(rs[..n]), Pop(rs[n]), c);
      assert Pops(rs) == Pops(rs[..n]) + [Pop(rs[n])];
    }
  }

  // ----- entry -----

  /** The registers pushed on entry, in order. */
  const SAVED: seq<reg> := [RBP, RBX, R13, R14, R15]

  /** A C call has just been made: the stack is 8 off 16-byte alignment, there is room for the
      frame, and the program's memory (its eBPF stack included) is visible and apart from it. */
  ghost predicate EntryOk(w: World, mem: Mem, c: Core) {
    var top := Sp(c) - 40;
    Sp(c) % 16 == 8 && 16 <= top - STACK_SIZE && Sp(c) + 8 < 0x1_0000_0000_0000_0000 &&
    Mapped(c.mem, top - STACK_SIZE - 16, 16) && Mapped(c.mem, top, 48) &&
    MemHeld(w, mem, c) &&
    (forall a :: top - STACK_SIZE - 16 <= a < top - STACK_SIZE ==> a !in w.visible) &&
    (forall a :: top <= a < top + 48 ==> a !in w.visible)
  }

  /** Any stack with room will do: for every stack pointer a call can leave and every context pointer
      there is an entry state. */
  lemma {:induction false} EntryExists(sp: u64, context: u64) returns (w: World, mem: Mem, c0: Core)
    requires sp % 16 == 8 && 56 + STACK_SIZE <= sp && sp + 8 < 0x1_0000_0000_0000_0000
    ensures EntryOk(w, mem, c0) && Sp(c0) == sp && c0.regs[RDI] == context
    ensures forall a :: sp - 40 - STACK_SIZE <= a < sp - 40 ==> a in mem
  {
    var top := sp - 40;
    mem := Zeros(top - STACK_SIZE, top);
    w := World(mem.Keys, (f, args, m) => CallResult(0, m), _ => seq(16, _ => 0), _ => map[]);
    var regs: XRegs := seq<u64>(16, q requires 0 <= q < 16 => if q == RSP then sp else if q == RDI then context else 0);
    c0 := Core(regs, NoFlags, Zeros(top - STACK_SIZE - 16, top + 48));
  }

  const RESTORED: seq<reg> := [R15, R14, R13, RBX, RBP]

  /** The k-th word of the frame: a saved register of the caller, then the return address. */
  ghost function CallerWord(c0: Core, k: nat): nat
    requires k <= 5 && Mapped(c0.mem, Sp(c0), 8)
  {
    if k < 5 then c0.regs[RESTORED[k]] else Load(c0.mem, Sp(c0), 8)
  }

  ghost predicate FrameWords(fr: Frame, c0: Core) {
    |fr.saved| == 48 && fr.r12 == c0.regs[12] && TopOf(fr) == Sp(c0) - 40 && Mapped(c0.mem, Sp(c0), 8) &&
    forall k :: 0 <= k < 6 ==> FromLE(fr.saved[8 * k..8 * k + 8]) == CallerWord(c0, k)
  }

  ghost predicate FrameBytes(m: Mem, top: int, saved: seq<byte>) {
    |saved| == 48 && forall a :: top <= a < top + 48 ==> a in m && m[a] == saved[a - top]
  }

  /** A word of the frame, read from memory. */
  lemma {:induction false} FrameWord(m: Mem, top: int, saved: seq<byte>, k: nat)
    requires k <= 5 && FrameBytes(m, top, saved)
    ensures Mapped(m, top + 8 * k, 8) && Load(m, top + 8 * k, 8) == FromLE(saved[8 * k..8 * k + 8])
  {
    assert LoadBytes(m, top + 8 * k, 8) == saved[8 * k..8 * k + 8];
  }

  lemma {:induction false} PushedWord(c0: Core, c: Core, k: nat)
    requires Stacked(SAVED, c0, c) && k < 5
    ensures WordAt(c.mem, Sp(c0) - 40 + 8 * k, c0.regs[RESTORED[k]])
  {
    hide Load;
    assert WordAt(c.mem, Sp(c0) - 8 * ((4 - k) + 1), c0.regs[SAVED[4 - k]]);
  }

  lemma {:induction false} PushedFrame(c0: Core, c: Core, fr: Frame)
    requires Stacked(SAVED, c0, c) && Mapped(c0.mem, Sp(c0), 8)
    requires fr.r12 == c0.regs[12] && TopOf(fr) == Sp(c0) - 40 && FrameBytes(c.mem, TopOf(fr), fr.saved)
    ensures FrameWords(fr, c0)
  {
    hide Load, FromLE, FrameBytes;
    forall k | 0 <= k < 6
      ensures |fr.saved| == 48 && FromLE(fr.saved[8 * k..8 * k + 8]) == CallerWord(c0, k)
    {
      FrameLen(c.mem, TopOf(fr), fr.saved);
      FrameWord(c.mem, TopOf(fr), fr.saved, k);
      if k < 5 {
        PushedWord(c0, c, k);
      } else {
        LoadSame(c0.mem, c.mem, Sp(c0), 8);
      }
    }
    FrameLen(c.mem, TopOf(fr), fr.saved);
  }

  lemma {:induction false} FrameLen(m: Mem, top: int, saved: seq<byte>)
    requires FrameBytes(m, top, saved)
    ensures |saved| == 48
  {
  }

  lemma {:induction false} EntryMovesEffect(w: World, rm: RegMap, c: Core)
    requires ValidMap(rm) && STACK_SIZE <= Sp(c)
    ensures var r := RunBlock(w, EntryMoves(rm), c);
      r.Ok? && r.c.mem == c.mem && Sp(r.c) == Sp(c) - STACK_SIZE && r.c.regs[12] == c.regs[12]
      && r.c.regs[rm[1]] == c.regs[RDI] && r.c.regs[rm[10]] == c.regs[RSP]
  {
    hide RunBlock;
    assert Mappable(rm[1]) && Mappable(rm[10]) && rm[1] != rm[10];
    var a := if rm[1] != RDI then [MovRR(RDI, rm[1])] else [];
    var c1 := if rm[1] != RDI then c.(regs := c.regs[rm[1] := c.regs[RDI]]) else c;
    if rm[1] != RDI { RunOne(w, MovRR(RDI, rm[1]), c); } else { RunNone(w, c); }
    RunSnoc(w, a, MovRR(RSP, rm[10]), c);
    RunSnoc(w, a + [MovRR(RSP, rm[10])], AluRI(true, XSub, RSP, STACK_SIZE), c);
    assert EntryMoves(rm) == a + [MovRR(RSP, rm[10])] + [AluRI(true, XSub, RSP, STACK_SIZE)];
  }

  lemma {:induction false} PrologueRuns(rm: RegMap, w: World, c0: Core) returns (c1: Core, c: Core)
    requires ValidMap(rm) && 40 + STACK_SIZE <= Sp(c0) && Mapped(c0.mem, Sp(c0) - 40, 40)
    ensures Stacked(SAVED, c0, c1) && RunBlock(w, Prologue(rm), c0) == Ok(c)
    ensures c.mem == c1.mem && Sp(c) == Sp(c1) - STACK_SIZE && c.regs[12] == c1.regs[12]
    ensures c.regs[rm[1]] == c1.regs[RDI] && c.regs[rm[10]] == c1.regs[RSP]
  {
    hide RunBlock, Load, ValidMap, Stacked;
    assert NoStackReg(SAVED);
    PushList(w, SAVED, c0);
    c1 := RunBlock(w, Pushes(SAVED), c0).c;
    assert Sp(c1) == Sp(c0) - 40 by { StackedSp(SAVED, c0, c1); }
    EntryMovesEffect(w, rm, c1);
    RunBlockAppend(w, Pushes(SAVED), EntryMoves(rm), c0);
    assert Prologue(rm) == Pushes(SAVED) + EntryMoves(rm);
    c := RunBlock(w, EntryMoves(rm), c1).c;
  }

  lemma {:induction false} StackedSp(rs: seq<reg>, c: Core, c': Core)
    requires Stacked(rs, c, c')
    ensures Sp(c') == Sp(c) - 8 * |rs|
  {
  }

  /** After the prologue the machine is related to the initial eBPF state: only r1 (the context
      pointer) and r10 (the stack top) are determined. */
  lemma {:induction false} Entered(rm: RegMap, w: World, mem: Mem, regs: Interp.Regs, c0: Core)
      returns (fr: Frame, c: Core)
    requires ValidMap(rm) && EntryOk(w, mem, c0)
    requires regs[1] == c0.regs[RDI] && regs[10] == Sp(c0) - 40
    ensures RunBlock(w, Prologue(rm), c0) == Ok(c)
    ensures FrameWords(fr, c0) && Related(rm, w, fr, {1, 10}, regs, mem, c)
  {
    hide RunBlock, Load, Prologue, ValidMap;
    var c1: Core;
    c1, c := PrologueRuns(rm, w, c0);
    var top := Sp(c0) - 40;
    fr := Frame(top - STACK_SIZE, c0.regs[12], LoadBytes(c1.mem, top, 48));
    FrameBytesHeld(c1.mem, top);
    PushedFrame(c0, c1, fr);
    hide FrameWords, LoadBytes;
    EnteredRelated(rm, w, mem, regs, c0, c1, c, fr);
  }

  lemma {:induction false} FrameBytesHeld(m: Mem, top: int)
    requires Mapped(m, top, 48)
    ensures FrameBytes(m, top, LoadBytes(m, top, 48))
  {
    var bs := LoadBytes(m, top, 48);
    forall a | top <= a < top + 48
      ensures a in m && m[a] == bs[a - top]
    {
      assert bs[a - top] == m[top + (a - top)];
    }
  }

  lemma {:induction false} EnteredRelated(rm: RegMap, w: World, mem: Mem, regs: Interp.Regs, c0: Core, c1: Core, c: Core,
                                          fr: Frame)
    requires EntryOk(w, mem, c0) && Stacked(SAVED, c0, c1)
    requires c.mem == c1.mem && Sp(c) == Sp(c1) - STACK_SIZE && c.regs[12] == c1.regs[12]
    requires c.regs[rm[1]] == c1.regs[RDI] && c.regs[rm[10]] == c1.regs[RSP]
    requires regs[1] == c0.regs[RDI] && regs[10] == Sp(c0) - 40
    requires fr.sp == Sp(c0) - 40 - STACK_SIZE && fr.r12 == c0.regs[12] && FrameBytes(c1.mem, TopOf(fr), fr.saved)
    ensures Related(rm, w, fr, {1, 10}, regs, mem, c)
  {
    hide WordAt;
    assert FrameOk(fr, w);
    assert MemHeld(w, mem, c);
  }

  // ----- the division handler -----

  /** The first half of the handler: fprintf(stderr, format, pc) is set up, with the pc the failing
      division would have left in RCX. */
  lemma {:induction false} HandlerArgs(w: World, link: Link, c: Core)
    ensures var b := [LoadImm(RDI, link.stderrAddr), LoadImm(RSI, link.formatAddr), MovRR(RCX, RDX), LoadImm(RAX, link.fprintfAddr)];
      RunBlock(w, b, c) == Ok(c.(regs :=
        c.regs[RDI := link.stderrAddr][RSI := link.formatAddr][RDX := c.regs[RCX]][RAX := link.fprintfAddr]))
  {
    hide RunBlock, LoadImm, Exec;
    var i1, i2, i3, i4 := LoadImm(RDI, link.stderrAddr), LoadImm(RSI, link.formatAddr), MovRR(RCX, RDX), LoadImm(RAX, link.fprintfAddr);
    var c1 := c.(regs := c.regs[RDI := link.stderrAddr]);
    var c2 := c1.(regs := c1.regs[RSI := link.formatAddr]);
    var c3 := c2.(regs := c2.regs[RDX := c2.regs[RCX]]);
    ExecLoadImm(w, RDI, link.stderrAddr, c);
    ExecLoadImm(w, RSI, link.formatAddr, c1);
    ExecMov(w, RCX, RDX, c2);
    ExecLoadImm(w, RAX, link.fprintfAddr, c3);
    RunOne(w, i1, c);
    RunSnoc(w, [i1], i2, c);
    assert [i1] + [i2] == [i1, i2];
    RunSnoc(w, [i1, i2], i3, c);
    assert [i1, i2] + [i3] == [i1, i2, i3];
    RunSnoc(w, [i1, i2, i3], i4, c);
    assert [i1, i2, i3] + [i4] == [i1, i2, i3, i4];
  }

  lemma {:induction false} ExecMov(w: World, src: reg, dst: reg, c: Core)
    ensures Exec(w, MovRR(src, dst), c) == Ok(c.(regs := c.regs[dst := c.regs[src]]))
  {
  }

  /** The handler calls fprintf with stderr, the format and the pc, and returns -1 through the exit. */
  lemma {:induction false} HandlerEffect(rm: RegMap, w: World, link: Link, c: Core)
    requires Sp(c) % 16 == 0 && Mapped(c.mem, Sp(c) - 8, 8)
    ensures var args := [link.stderrAddr, link.formatAddr, c.regs[RCX], c.regs[RCX], c.regs[R8]];
      var r := RunBlock(w, DivHandler(rm, link).body, c);
      r.Ok? && r.c.regs[rm[0]] == 0xffff_ffff_ffff_ffff && DivHandler(rm, link).jump == Always(TARGET_EXIT)
      && var out := w.call(link.fprintfAddr, args, Visible(w, c.mem)).mem;
         forall a :: a in c.mem && a in w.visible ==> a in r.c.mem && r.c.mem[a] == if a in out then out[a] else c.mem[a]
  {
    hide RunBlock, LoadImm, AfterCall;
    var b := [LoadImm(RDI, link.stderrAddr), LoadImm(RSI, link.formatAddr), MovRR(RCX, RDX), LoadImm(RAX, link.fprintfAddr)];
    HandlerArgs(w, link, c);
    var c1 := RunBlock(w, b, c).c;
    RunSnoc(w, b, CallRax, c);
    var args := [c1.regs[RDI], c1.regs[RSI], c1.regs[RDX], c1.regs[RCX], c1.regs[R8]];
    var res := w.call(link.fprintfAddr, args, Visible(w, c.mem));
    var c2 := AfterCall(w, c1, res);
    assert DoCall(w, c1) == Ok(c2);
    ExecLoadImm(w, rm[0], U64(-1), c2);
    RunSnoc(w, b + [CallRax], LoadImm(rm[0], U64(-1)), c);
    assert DivHandler(rm, link).body == b + [CallRax] + [LoadImm(rm[0], U64(-1))];
    MemAfter(w, c, c1, res);
  }

  /** What a call does to the visible memory. */
  lemma {:induction false} MemAfter(w: World, c: Core, c1: Core, res: CallResult)
    requires c1.mem == c.mem
    ensures AfterCall(w, c1, res).mem.Keys == c.mem.Keys
    ensures forall a :: a in c.mem && a in w.visible ==> AfterCall(w, c1, res).mem[a] == if a in res.mem then res.mem[a] else c.mem[a]
  {
  }

  // ----- exit -----

  /** What the caller finds: the result in RAX, its registers and stack pointer as before, and
      execution resuming at the return address. */
  ghost predicate Returned(w: World, mem: Mem, c0: Core, value: u64, c: Core, ra: u64) {
    Mapped(c0.mem, Sp(c0), 8) && ra == Load(c0.mem, Sp(c0), 8) && Sp(c) == Sp(c0) + 8 &&
    c.regs[RAX] == value && c.regs[RBX] == c0.regs[RBX] && c.regs[RBP] == c0.regs[RBP] &&
    c.regs[12] == c0.regs[12] && c.regs[R13] == c0.regs[R13] && c.regs[R14] == c0.regs[R14] &&
    c.regs[R15] == c0.regs[R15] && MemHeld(w, mem, c)
  }

  /** Everything the System V AMD64 ABI asks of a called function: the result register, every preserved
      register, the stack pointer behind the return address, which is where execution resumes. */
  lemma {:induction false} AbiKept(w: World, mem: Mem, c0: Core, value: u64, c: Core, ra: u64)
    requires Returned(w, mem, c0, value, c, ra)
    ensures c.regs[RAX] == value && forall r: reg :: CalleeSaved(r) && r != RSP ==> c.regs[r] == c0.regs[r]
    ensures c.regs[RSP] == c0.regs[RSP] + 8 && Mapped(c0.mem, c0.regs[RSP], 8) && Load(c0.mem, c0.regs[RSP], 8) == ra
    ensures forall a :: a in w.visible ==> a in mem && a in c.mem && c.mem[a] == mem[a]
  {
    hide Load;
    assert forall r: reg :: CalleeSaved(r) && r != RSP ==> r == RBX || r == RBP || r == 12 || r == R13 || r == R14 || r == R15;
  }

  lemma {:induction false} ExitMovesEffect(w: World, rm: RegMap, c: Core)
    requires ValidMap(rm) && Sp(c) + STACK_SIZE < 0x1_0000_0000_0000_0000
    ensures var r := RunBlock(w, ExitMoves(rm), c);
      r.Ok? && r.c.mem == c.mem && Sp(r.c) == Sp(c) + STACK_SIZE
      && r.c.regs[RAX] == c.regs[rm[0]] && r.c.regs[12] == c.regs[12]
  {
    hide RunBlock;
    assert Mappable(rm[0]);
    var a := if rm[0] != RAX then [MovRR(rm[0], RAX)] else [];
    if rm[0] != RAX { RunOne(w, MovRR(rm[0], RAX), c); } else { RunNone(w, c); }
    RunSnoc(w, a, AluRI(true, XAdd, RSP, STACK_SIZE), c);
  }

  lemma {:induction false} FrameWordsThere(fr: Frame, c0: Core, c: Core, k: nat)
    requires FrameWords(fr, c0) && FrameBytes(c.mem, TopOf(fr), fr.saved) && k <= 5
    ensures Mapped(c.mem, TopOf(fr) + 8 * k, 8) && Load(c.mem, TopOf(fr) + 8 * k, 8) == CallerWord(c0, k)
  {
    hide Load, FromLE;
    FrameWord(c.mem, TopOf(fr), fr.saved, k);
  }

  lemma {:induction false} RetStep(w: World, c: Core, next: int)
    requires Mapped(c.mem, Sp(c), 8) && Sp(c) + 8 < 0x1_0000_0000_0000_0000
    ensures Load(c.mem, Sp(c), 8) < 0x1_0000_0000_0000_0000
    ensures StepDecoded(w, Ret, next, c) == Halted(c.(regs := c.regs[RSP := Sp(c) + 8]), Load(c.mem, Sp(c), 8))
  {
    hide Load, Exec, Pow2, Mapped;
    Pow2Facts();
    LoadBound(c.mem, Sp(c), 8);
  }

  /** The epilogue and ret, from any state related to the final eBPF state. */
  lemma {:induction false} Leaves(rm: RegMap, w: World, fr: Frame, known: set<int>, regs: Interp.Regs, mem: Mem,
                                  c0: Core, c: Core, next: int) returns (c2: Core, c3: Core, ra: u64)
    requires ValidMap(rm) && Related(rm, w, fr, known, regs, mem, c) && FrameWords(fr, c0) && 0 in known
    requires Sp(c0) + 8 < 0x1_0000_0000_0000_0000
    ensures RunBlock(w, EpilogueBody(rm), c) == Ok(c2)
    ensures StepDecoded(w, Ret, next, c2) == Halted(c3, ra) && Returned(w, mem, c0, regs[0], c3, ra)
  {
    hide RunBlock, Load, ValidMap, EpilogueBody, FrameWords, Step, StepDecoded;
    RelatedFrame(rm, w, fr, known, regs, mem, c);
    assert c.regs[rm[0]] == regs[0] && MemHeld(w, mem, c) && c.regs[12] == fr.r12;
    hide Related, FrameBytes;
    FrameWordsSp(fr, c0);
    c2 := EpilogueRuns(rm, w, fr, c0, c);
    RetStep(w, c2, next);
    ra := Load(c2.mem, Sp(c2), 8);
    c3 := c2.(regs := c2.regs[RSP := Sp(c2) + 8]);
    assert MemHeld(w, mem, c3);
  }

  lemma {:induction false} RelatedFrame(rm: RegMap, w: World, fr: Frame, known: set<int>, regs: Interp.Regs, mem: Mem, c: Core)
    requires Related(rm, w, fr, known, regs, mem, c)
    ensures FrameBytes(c.mem, TopOf(fr), fr.saved) && Sp(c) == fr.sp
    ensures TopOf(fr) + 48 < 0x1_0000_0000_0000_0000
  {
  }

  lemma {:induction false} FrameWordsSp(fr: Frame, c0: Core)
    requires FrameWords(fr, c0)
    ensures TopOf(fr) == Sp(c0) - 40 && fr.r12 == c0.regs[12] && Mapped(c0.mem, Sp(c0), 8)
  {
  }

  lemma {:induction false} EpilogueRuns(rm: RegMap, w: World, fr: Frame, c0: Core, c: Core) returns (c2: Core)
    requires ValidMap(rm) && FrameWords(fr, c0) && FrameBytes(c.mem, TopOf(fr), fr.saved) && Sp(c) == fr.sp
    requires TopOf(fr) + 48 < 0x1_0000_0000_0000_0000
    ensures RunBlock(w, EpilogueBody(rm), c) == Ok(c2) && c2.mem == c.mem && Sp(c2) == TopOf(fr) + 40
    ensures c2.regs[RAX] == c.regs[rm[0]] && c2.regs[12] == c.regs[12]
    ensures c2.regs[R15] == c0.regs[R15] && c2.regs[R14] == c0.regs[R14] && c2.regs[R13] == c0.regs[R13]
    ensures c2.regs[RBX] == c0.regs[RBX] && c2.regs[RBP] == c0.regs[RBP]
    ensures Mapped(c0.mem, Sp(c0), 8) && Mapped(c.mem, TopOf(fr) + 40, 8)
    ensures Load(c.mem, TopOf(fr) + 40, 8) == Load(c0.mem, Sp(c0), 8)
  {
    hide RunBlock, Load, ValidMap, FrameWords, FrameBytes;
    FrameWordsSp(fr, c0);
    ExitMovesEffect(w, rm, c);
    var c1 := RunBlock(w, ExitMoves(rm), c).c;
    var vs := [c0.regs[R15], c0.regs[R14], c0.regs[R13], c0.regs[RBX], c0.regs[RBP]];
    forall k | 0 <= k < 5
      ensures WordAt(c1.mem, Sp(c1) + 8 * k, vs[k])
    {
      FrameWordsThere(fr, c0, c, k);
      assert vs[k] == c0.regs[RESTORED[k]];
    }
    FrameWordsThere(fr, c0, c, 5);
    assert NoStackReg(RESTORED) && Distinct(RESTORED);
    PopList(w, RESTORED, vs, c1);
    c2 := RunBlock(w, Pops(RESTORED), c1).c;
    RunBlockAppend(w, ExitMoves(rm), Pops(RESTORED), c);
    assert EpilogueBody(rm) == ExitMoves(rm) + Pops(RESTORED);
    RestoredRegs(c0, c1, c2, vs);
  }

  lemma {:induction false} RestoredRegs(c0: Core, c1: Core, c2: Core, vs: seq<u64>)
    requires |vs| == 5 && Popped(RESTORED, vs, c1, c2)
    requires vs == [c0.regs[R15], c0.regs[R14], c0.regs[R13], c0.regs[RBX], c0.regs[RBP]]
    ensures c2.regs[R15] == c0.regs[R15] && c2.regs[R14] == c0.regs[R14] && c2.regs[R13] == c0.regs[R13]
    ensures c2.regs[RBX] == c0.regs[RBX] && c2.regs[RBP] == c0.regs[RBP]
    ensures c2.regs[RAX] == c1.regs[RAX] && c2.regs[12] == c1.regs[12]
  {
    assert c2.regs[RESTORED[0]] == vs[0] && c2.regs[RESTORED[1]] == vs[1] && c2.regs[RESTORED[2]] == vs[2];
    assert c2.regs[RESTORED[3]] == vs[3] && c2.regs[RESTORED[4]] == vs[4];
    var q0: reg, q12: reg := 0, 12;
    assert q0 !in RESTORED && q12 !in RESTORED;
  }
}
