/** What the compiler of ubpf/ubpf_jit_x86_64.c emits: for every eBPF slot a straight-line body and
    at most one final jump, then the layout of all slots and the resolved byte string. */
module Jit {
  import opened Words
  import opened Ebpf
  import opened X86
  import opened Encoding
  import Interp

  type RegMap = s: seq<reg> | |s| == 11 witness seq(11, _ => 0)

  /** The initial register_map. */
  const DEFAULT_MAP: RegMap := [RAX, RDI, RSI, RDX, R9, R8, RBX, R13, R14, R15, RBP]

  /** Addresses the compiler bakes into the code. */
  datatype Link = Link(func: int -> u64, stderrAddr: u64, formatAddr: u64, fprintfAddr: u64)

  const TARGET_EXIT: u32 := 0xffff_ffff          // TARGET_PC_EXIT, -1 stored in a uint32_t
  const TARGET_DIV_BY_ZERO: u32 := 0xffff_fffe   // TARGET_PC_DIV_BY_ZERO, -2

  datatype Jump = NoJump | Always(target: u32) | OnCc(cc: CC, target: u32)
  datatype Slot = Slot(body: seq<Instr>, jump: Jump)

  // ----- translation of one slot -----

  function MovRR(src: reg, dst: reg): Instr { AluRR(true, XMov, src, dst) }

  /** emit_load_imm as an instruction. */
  function LoadImm(dst: reg, v: u64): Instr {
    if -0x8000_0000 <= S64(v) < 0x8000_0000 then AluRI(true, XMov, dst, S64(v)) else MovAbs(dst, v)
  }

  function SimpleOp(kind: AluKind): AluOp {
    match kind
    case Add => XAdd
    case Sub => XSub
    case Or => XOr
    case And => XAnd
    case Xor => XXor
    case _ => XMov
  }

  function ShiftOf(kind: AluKind): ShiftOp {
    match kind
    case Lsh => XShl
    case Rsh => XShr
    case _ => XSar
  }


  /** First half of the muldivmod template: save RAX and RDX, operand to RCX, dst to RAX. */
  function MulDivModIn(is64: bool, kind: AluKind, src: reg, dst: reg, imm: int32): seq<Instr> {
    (if dst != RAX then [Push(RAX)] else [])
    + (if dst != RDX then [Push(RDX)] else [])
    + [if imm != 0 then LoadImm(RCX, U64(imm)) else MovRR(src, RCX), MovRR(dst, RAX)]
    + (if kind == Mul then [] else [AluRR(false, XXor, RDX, RDX)])
    + [if kind == Mul then MulR(is64, RCX) else DivR(is64, RCX)]
  }

  /** Second half: result to dst, RDX and RAX restored. */
  function MulDivModOut(kind: AluKind, dst: reg): seq<Instr> {
    (if dst != RDX then (if kind == Mod then [MovRR(RDX, dst)] else []) + [Pop(RDX)] else [])
    + (if dst != RAX then (if kind != Mod then [MovRR(RAX, dst)] else []) + [Pop(RAX)] else [])
  }

  function MulDivMod(is64: bool, kind: AluKind, src: reg, dst: reg, imm: int32): seq<Instr> {
    MulDivModIn(is64, kind, src, dst, imm) + MulDivModOut(kind, dst)
  }

  function AluBody(is64: bool, kind: AluKind, useReg: bool, src: reg, dst: reg, imm: int32): seq<Instr> {
    if IsMulDivMod(kind) then MulDivMod(is64, kind, src, dst, imm)
    else if IsShift(kind) then
      (if useReg then [MovRR(src, RCX), ShiftRC(is64, ShiftOf(kind), dst)]
       else [ShiftRI(is64, ShiftOf(kind), dst, imm % 0x100)])
    else if kind == Neg then [NegR(is64, dst)]
    else if kind == Mov then
      (if useReg then [MovRR(src, dst)]
       else if is64 then [LoadImm(dst, U64(imm))] else [AluRI(false, XMov, dst, imm)])
    else if useReg then [AluRR(is64, SimpleOp(kind), src, dst)]
    else [AluRI(is64, SimpleOp(kind), dst, imm)]
  }

  function EndianBody(big: bool, imm: int32, dst: reg): seq<Instr> {
    if !big then []
    else if imm == 16 then [Rol16(dst, 8), AluRI(false, XAnd, dst, 0xffff)]
    else if imm == 32 || imm == 64 then [Bswap(imm == 64, dst)]
    else []
  }

  function CcFor(cond: Cond): CC {
    match cond
    case Eq => CcE
    case Gt => CcA
    case Ge => CcAE
    case Set => CcNE
    case Ne => CcNE
    case Sgt => CcG
    case Sge => CcGE
  }

  function TestFor(cond: Cond, useReg: bool, src: reg, dst: reg, imm: int32): Instr {
    var op := if cond == Set then XTest else XCmp;
    if useReg then AluRR(true, op, src, dst) else AluRI(true, op, dst, imm)
  }

  function WidthOf(size: Size): Width {
    match size
    case Size8 => B1
    case Size16 => B2
    case Size32 => B4
    case Size64 => B8
  }

  /** The immediate as the store of that size writes it. */
  function StoredImm(size: Size, imm: int32): int32 {
    if size == Size8 then imm % 0x100 else if size == Size16 then imm % 0x1_0000 else imm
  }

  function CallBody(link: Link, imm: int32): seq<Instr> {
    [MovRR(R9, RCX), LoadImm(RAX, link.func(imm)), CallRax]
  }

  /** The register a slot field names; validation keeps the fields within the map. */
  function MapReg(rm: RegMap, r: nibble): reg { rm[r % 11] }

  function SlotOf(rm: RegMap, link: Link, prog: seq<Inst>, i: nat): Slot
    requires i < |prog|
  {
    var inst := prog[i];
    var dst, src := MapReg(rm, inst.dst), MapReg(rm, inst.src);
    var target := U32(i + inst.offset + 1);
    match inst.Op()
    case Alu(is64, kind, useReg) => Slot(AluBody(is64, kind, useReg, src, dst, inst.imm), NoJump)
    case Endian(big) => Slot(EndianBody(big, inst.imm, dst), NoJump)
    case Ldx(size) => Slot([LoadM(WidthOf(size), src, inst.offset, dst)], NoJump)
    case St(size) => Slot([StoreI(WidthOf(size), dst, inst.offset, StoredImm(size, inst.imm))], NoJump)
    case Stx(size) => Slot([StoreM(WidthOf(size), src, dst, inst.offset)], NoJump)
    case Lddw =>
      var hi := if i + 1 < |prog| then prog[i + 1].imm else 0;
      Slot([LoadImm(dst, Interp.Wide(inst.imm, hi))], NoJump)
    case Ja => Slot([], Always(target))
    case Jcond(cond, useReg) => Slot([TestFor(cond, useReg, src, dst, inst.imm)], OnCc(CcFor(cond), target))
    case Call => Slot(CallBody(link, inst.imm), NoJump)
    case Exit => Slot([], if i + 1 == |prog| then NoJump else Always(TARGET_EXIT))
    case Unknown => Slot([], NoJump)
  }

  /** The moves after the pushes: argument to r1, top of stack to r10, 16 KiB reserved. */
  function EntryMoves(rm: RegMap): seq<Instr> {
    (if rm[1] != RDI then [MovRR(RDI, rm[1])] else []) + [MovRR(RSP, rm[10]), AluRI(true, XSub, RSP, STACK_SIZE)]
  }

  function Prologue(rm: RegMap): seq<Instr> {
    [Push(RBP), Push(RBX), Push(R13), Push(R14), Push(R15)] + EntryMoves(rm)
  }

  /** The moves before the pops: r0 to RAX, the stack released. */
  function ExitMoves(rm: RegMap): seq<Instr> {
    (if rm[0] != RAX then [MovRR(rm[0], RAX)] else []) + [AluRI(true, XAdd, RSP, STACK_SIZE)]
  }

  function EpilogueBody(rm: RegMap): seq<Instr> {
    ExitMoves(rm) + [Pop(R15), Pop(R14), Pop(R13), Pop(RBX), Pop(RBP)]
  }

  function Epilogue(rm: RegMap): seq<Instr> { EpilogueBody(rm) + [Ret] }

  function DivHandler(rm: RegMap, link: Link): Slot {
    Slot([LoadImm(RDI, link.stderrAddr), LoadImm(RSI, link.formatAddr), MovRR(RCX, RDX),
          LoadImm(RAX, link.fprintfAddr), CallRax, LoadImm(rm[0], U64(-1))],
         Always(TARGET_EXIT))
  }

  // ----- layout -----

  function EncodeAll(xs: seq<Instr>): seq<byte> {
    if xs == [] then [] else Encode(xs[0]) + EncodeAll(xs[1..])
  }

  lemma {:induction false} EncodeAllAppend(xs: seq<Instr>, ys: seq<Instr>)
    ensures EncodeAll(xs + ys) == EncodeAll(xs) + EncodeAll(ys)
    decreases |xs|
  {
    hide Encode;
    if xs == [] {
      assert xs + ys == ys;
    } else {
      EncodeAllAppend(xs[1..], ys);
      assert (xs + ys)[1..] == xs[1..] + ys;
    }
  }

  lemma {:induction false} EncodeFew(a: Instr, b: Instr, c: Instr)
    ensures EncodeAll([a]) == Encode(a)
    ensures EncodeAll([a, b]) == Encode(a) + Encode(b)
    ensures EncodeAll([a, b, c]) == Encode(a) + Encode(b) + Encode(c)
  {
    hide Encode;
    assert [a][1..] == [] && [a, b][1..] == [b] && [b][1..] == [] && [a, b, c][1..] == [b, c] && [b, c][1..] == [c];
    assert EncodeAll([c]) == Encode(c) && EncodeAll([b, c]) == Encode(b) + Encode(c);
    assert Encode(a) + (Encode(b) + Encode(c)) == Encode(a) + Encode(b) + Encode(c);
  }

  function JumpInstr(j: Jump, rel: int32): Instr
    requires !j.NoJump?
  {
    if j.Always? then X86.Jmp(rel) else X86.Jcc(j.cc, rel)
  }

  /** Bytes of a slot whose jump displacement is rel; 0 while the hole is open. */
  function SlotBytes(s: Slot, rel: int32): seq<byte> {
    EncodeAll(s.body) + (if s.jump.NoJump? then [] else Encode(JumpInstr(s.jump, rel)))
  }

  function SlotLen(s: Slot): nat { |SlotBytes(s, 0)| }

  lemma {:induction false} SlotLenSame(s: Slot, rel: int32)
    ensures |SlotBytes(s, rel)| == SlotLen(s)
  {
  }

  /** All code as a list of slots: prologue, one slot per instruction (tails are empty),
      epilogue, division handler. */
  function SlotAt(rm: RegMap, link: Link, prog: seq<Inst>, i: nat): Slot
    requires i < |prog|
  {
    if IsTail(prog, i) then Slot([], NoJump) else SlotOf(rm, link, prog, i)
  }

  function AllSlots(rm: RegMap, link: Link, prog: seq<Inst>): (s: seq<Slot>)
    ensures |s| == |prog| + 3
  {
    [Slot(Prologue(rm), NoJump)]
    + seq(|prog|, i requires 0 <= i < |prog| => SlotAt(rm, link, prog, i))
    + [Slot(Epilogue(rm), NoJump), DivHandler(rm, link)]
  }

  lemma {:induction false} SlotAtIndex(rm: RegMap, link: Link, prog: seq<Inst>, i: nat)
    requires i < |prog|
    ensures AllSlots(rm, link, prog)[i + 1] == if IsTail(prog, i) then Slot([], NoJump) else SlotOf(rm, link, prog, i)
  {
    hide SlotOf, Epilogue, DivHandler, IsTail;
  }

  lemma {:induction false} FrameSlots(rm: RegMap, link: Link, prog: seq<Inst>)
    ensures AllSlots(rm, link, prog)[0] == Slot(Prologue(rm), NoJump)
    ensures AllSlots(rm, link, prog)[|prog| + 1] == Slot(Epilogue(rm), NoJump)
    ensures AllSlots(rm, link, prog)[|prog| + 2] == DivHandler(rm, link)
  {
    hide SlotAt, Epilogue, DivHandler, Prologue;
  }

  /** Offset of the k-th slot. */
  function Loc(slots: seq<Slot>, k: nat): (n: nat)
    requires k <= |slots|
  {
    if k == 0 then 0 else Loc(slots, k - 1) + SlotLen(slots[k - 1])
  }

  function CodeSize(rm: RegMap, link: Link, prog: seq<Inst>): nat {
    Loc(AllSlots(rm, link, prog), |prog| + 3)
  }

  /** Where a recorded jump must land: the slot of its eBPF target, the epilogue or the handler. */
  function TargetLoc(slots: seq<Slot>, n: nat, target: u32): int
    requires |slots| == n + 3
  {
    if target == TARGET_EXIT then Loc(slots, n + 1)
    else if target == TARGET_DIV_BY_ZERO then Loc(slots, n + 2)
    else if target < n then Loc(slots, target + 1)
    else 0
  }

  function JumpTarget(s: Slot): u32 { if s.jump.NoJump? then 0 else s.jump.target }

  /** Displacement of the k-th slot's jump, relative to the end of the slot. */
  function RelOf(slots: seq<Slot>, n: nat, k: nat): int32
    requires |slots| == n + 3 && k < |slots|
  {
    S32(TargetLoc(slots, n, JumpTarget(slots[k])) - Loc(slots, k + 1))
  }

  /** The first k slots with every hole filled. */
  function Resolved(slots: seq<Slot>, n: nat, k: nat): (s: seq<byte>)
    requires |slots| == n + 3 && k <= |slots|
    ensures |s| == Loc(slots, k)
  {
    if k == 0 then [] else
    SlotLenSame(slots[k - 1], RelOf(slots, n, k - 1));
    Resolved(slots, n, k - 1) + SlotBytes(slots[k - 1], RelOf(slots, n, k - 1))
  }

  /** The bytes ubpf_compile installs. */
  function Compiled(rm: RegMap, link: Link, prog: seq<Inst>): (s: seq<byte>)
    ensures |s| == CodeSize(rm, link, prog)
  {
    Resolved(AllSlots(rm, link, prog), |prog|, |prog| + 3)
  }

  // ----- where each slot sits -----

  ghost predicate CodeAt(code: seq<byte>, at: int, bs: seq<byte>) {
    0 <= at && at + |bs| <= |code| && code[at..at + |bs|] == bs
  }

  lemma {:induction false} LocMono(slots: seq<Slot>, j: nat, k: nat)
    requires j <= k <= |slots|
    ensures Loc(slots, j) <= Loc(slots, k)
  {
    hide SlotLen;
    if j < k { LocMono(slots, j, k - 1); }
  }

  lemma {:induction false} ResolvedPrefix(slots: seq<Slot>, n: nat, j: nat, k: nat)
    requires |slots| == n + 3 && j <= k <= |slots|
    ensures Resolved(slots, n, j) <= Resolved(slots, n, k)
  {
    hide SlotLen, SlotBytes, RelOf;
    if j < k {
      ResolvedPrefix(slots, n, j, k - 1);
    }
  }

  /** After resolution the k-th slot is found at its location with its jump displacement in place. */
  lemma {:induction false} SlotPlaced(slots: seq<Slot>, n: nat, k: nat)
    requires |slots| == n + 3 && k < |slots|
    ensures CodeAt(Resolved(slots, n, n + 3), Loc(slots, k), SlotBytes(slots[k], RelOf(slots, n, k)))
  {
    hide SlotLen, SlotBytes, RelOf;
    var code := Resolved(slots, n, n + 3);
    ResolvedPrefix(slots, n, k + 1, n + 3);
    SlotLenSame(slots[k], RelOf(slots, n, k));
    var p := Resolved(slots, n, k + 1);
    assert p == code[..|p|];
    assert p == Resolved(slots, n, k) + SlotBytes(slots[k], RelOf(slots, n, k));
  }
}
