/** Where the resolved code's parts sit: jumps land on the start of their target, only the holes are
    patched, and how many instructions are sure to fit the code buffer. */
module Layout {
  import opened Words
  import opened Ebpf
  import opened X86
  import opened Encoding
  import opened Jit
  import opened Simulation
  import opened Translator
  import opened Resolver
  import Compile
  import Interp
  import MD = MulDivSim

  // ----- jumps -----

  /** At most one jump per instruction and one in the division handler. */
  lemma {:induction false} JumpCount(rm: RegMap, link: Link, prog: seq<Inst>)
    ensures |Records(AllSlots(rm, link, prog), |prog| + 3)| <= |prog| + 1
  {
    hide AllSlots, SlotLen, Records, DivHandler;
    var slots := AllSlots(rm, link, prog);
    FrameSlots(rm, link, prog);
    RecordsBound(slots, |prog| + 1);
    RecordsGrow(slots, |prog| + 1);
    RecordsGrow(slots, |prog| + 2);
  }

  /** The places a jump may land on: the start of an instruction's code (no lddw tail has one), the
      epilogue and the division handler. */
  ghost predicate Landing(rm: RegMap, link: Link, prog: seq<Inst>, t: u32, at: int) {
    var slots := AllSlots(rm, link, prog);
    var n := |prog|;
    (t == TARGET_EXIT && at == Loc(slots, n + 1)) || (t == TARGET_DIV_BY_ZERO && at == Loc(slots, n + 2))
    || (t < n && !IsTail(prog, t) && at == Loc(slots, t + 1))
  }

  /** In the finished code every jump is a jump instruction whose displacement, counted from its own
      end, leads exactly to its target. */
  lemma {:induction false} JumpsLand(rm: RegMap, link: Link, prog: seq<Inst>, funcs: set<int>, k: nat)
    requires Validated(prog, funcs) && Compile.Fits(rm, link, prog)
    requires k < |prog| + 3 && !AllSlots(rm, link, prog)[k].jump.NoJump?
    ensures var slots := AllSlots(rm, link, prog);
      var rel := RelOf(slots, |prog|, k);
      var jump := Encode(JumpInstr(slots[k].jump, rel));
      CodeAt(Compiled(rm, link, prog), Loc(slots, k + 1) - |jump|, jump)
      && Landing(rm, link, prog, slots[k].jump.target, Loc(slots, k + 1) + rel)
  {
    hide AllSlots, SlotLen, Validated, Resolved, EncodeAll, IsTail, Compile.Fits, Loc, Encode;
    var slots := AllSlots(rm, link, prog);
    var rel := RelOf(slots, |prog|, k);
    TargetsOk(rm, link, prog, funcs);
    assert TargetOk(prog, slots[k].jump.target);
    Compile.RelExact(rm, link, prog, k);
    SlotPlaced(slots, |prog|, k);
    LocStep(slots, k);
    SlotLenSame(slots[k], rel);
    CodeSuffix(Compiled(rm, link, prog), Loc(slots, k), EncodeAll(slots[k].body), Encode(JumpInstr(slots[k].jump, rel)));
  }

  lemma {:induction false} CodeSuffix(code: seq<byte>, at: int, a: seq<byte>, b: seq<byte>)
    requires CodeAt(code, at, a + b)
    ensures CodeAt(code, at + |a|, b)
  {
    var p := code[at..at + |a + b|];
    assert p[|a|..] == b;
    assert code[at + |a|..at + |a| + |b|] == p[|a|..];
  }

  // ----- only the holes change -----

  /** Position p lies in the four bytes of some jump's displacement. */
  ghost predicate InHole(slots: seq<Slot>, k: nat, p: int)
    requires k <= |slots|
  {
    exists j :: 0 <= j < k && !slots[j].jump.NoJump? && Loc(slots, j + 1) - 4 <= p < Loc(slots, j + 1)
  }

  /** Holes of different jumps are disjoint, in slot order. */
  lemma {:induction false} HolesApart(slots: seq<Slot>, j: nat, k: nat)
    requires j < k < |slots| && !slots[j].jump.NoJump? && !slots[k].jump.NoJump?
    ensures Loc(slots, j + 1) <= Loc(slots, k + 1) - 4
  {
    hide SlotLen, Loc;
    LocMono(slots, j + 1, k);
    JumpSlotLen(slots[k]);
    LocStep(slots, k);
  }

  lemma {:induction false} SlotBytesOutside(s: Slot, rel: int32, q: int)
    requires 0 <= q < SlotLen(s) && (!s.jump.NoJump? ==> q < SlotLen(s) - 4)
    ensures |SlotBytes(s, rel)| == SlotLen(s) && SlotBytes(s, rel)[q] == SlotBytes(s, 0)[q]
  {
    hide EncodeAll, ToLE, CcByte;
  }

  /** Resolving changes no byte outside the holes. */
  lemma {:induction false} OnlyHolesChange(slots: seq<Slot>, n: nat, k: nat, p: int)
    requires |slots| == n + 3 && k <= |slots| && 0 <= p < Loc(slots, k) && !InHole(slots, k, p)
    ensures Resolved(slots, n, k)[p] == Holes(slots, k)[p]
  {
    hide SlotBytes, SlotLen, RelOf;
    var s, rel := slots[k - 1], RelOf(slots, n, k - 1);
    SlotLenSame(s, rel);
    SlotLenSame(s, 0);
    if p < Loc(slots, k - 1) {
      OnlyHolesChange(slots, n, k - 1, p);
    } else {
      SlotBytesOutside(s, rel, p - Loc(slots, k - 1));
    }
  }

  // ----- sizes -----

  lemma {:induction false} PieceLengths(w: bool, src: reg, dst: reg, imm: int32, v: u64)
    ensures |Encode(Push(dst))| == (if dst < 8 then 1 else 2) && |Encode(Pop(dst))| == (if dst < 8 then 1 else 2)
    ensures |Encode(MovRR(src, dst))| == 3 && |LoadImmBytes(dst, U64(imm))| == 7 && |LoadImmBytes(dst, v)| <= 10
    ensures |AluBytes(w, 0xf7, src, dst)| <= 3 && (w ==> |AluBytes(w, 0xf7, src, dst)| == 3) && |AluBytes(false, 0x31, RDX, RDX)| == 2
    ensures |AluImm32Bytes(true, 0x81, src, dst, imm)| == 7
  {
  }

  lemma {:induction false} MulDivModBound(is64: bool, kind: AluKind, src: reg, dst: reg, imm: int32)
    requires IsMulDivMod(kind)
    ensures |EncodeAll(MulDivMod(is64, kind, src, dst, imm))| <= 22
    ensures is64 && kind == Div && imm != 0 && dst != RAX && dst != RDX ==>
      |EncodeAll(MulDivMod(is64, kind, src, dst, imm))| == 22
  {
    hide Encode, EncodeAll, MulDivMod, MulDivModOut, LoadImmBytes, AluBytes, AluImm32Bytes, MD.Compute;
    MulDivModParts(is64, kind, src, dst, imm);
    SavesBound(dst);
    ComputeBound(is64, kind, src, dst, imm);
    OutBound(kind, dst);
  }

  lemma {:induction false} SavesBound(dst: reg)
    ensures |EncodeAll(MD.Saves(dst))| == (if dst == RAX || dst == RDX then 1 else 2)
  {
    hide Encode;
    EncodeFew(Push(RAX), Push(RDX), Ret);
    EncodeFew(Push(RDX), Ret, Ret);
    PieceLengths(true, RAX, RAX, 0, 0);
    PieceLengths(true, RAX, RDX, 0, 0);
  }

  lemma {:induction false} ComputeBound(is64: bool, kind: AluKind, src: reg, dst: reg, imm: int32)
    requires IsMulDivMod(kind)
    ensures |EncodeAll(MD.Compute(is64, kind, src, dst, imm))| <= 15
    ensures is64 && kind == Div && imm != 0 ==> |EncodeAll(MD.Compute(is64, kind, src, dst, imm))| == 15
  {
    hide Encode, LoadImmBytes, AluBytes, AluImm32Bytes, MD.Compute;
    var op := if kind == Mul then MulR(is64, RCX) else DivR(is64, RCX);
    ComputeBytes(is64, kind, src, dst, imm);
    RexThenAlu(is64, if kind == Mul then 4 else 6);
    PieceLengths(is64, src, RCX, imm, 0);
    PieceLengths(is64, dst, RAX, imm, 0);
    PieceLengths(is64, if kind == Mul then 4 else 6, RCX, imm, 0);
    EncodeFew(AluRR(false, XXor, RDX, RDX), op, op);
  }

  lemma {:induction false} OutBound(kind: AluKind, dst: reg)
    requires IsMulDivMod(kind)
    ensures |EncodeAll(MulDivModOut(kind, dst))| <= (if dst == RAX || dst == RDX then 4 else 5)
    ensures dst != RAX && dst != RDX ==> |EncodeAll(MulDivModOut(kind, dst))| == 5
  {
    hide Encode, EncodeAll, MulDivModOut, LoadImmBytes, AluBytes, AluImm32Bytes;
    OutSplit(kind, dst);
    EncodeNone();
    PieceLengths(true, RDX, dst, 0, 0);
    PieceLengths(true, RAX, dst, 0, 0);
    PieceLengths(true, RAX, RAX, 0, 0);
    PieceLengths(true, RAX, RDX, 0, 0);
    if dst != RDX { OutRdxBytes(kind, dst); }
    if dst != RAX { OutRaxBytes(kind, dst); }
  }

  /** No instruction needs more than 22 bytes; the longest is a 64-bit division or remainder of a
      register other than RAX and RDX by an immediate. */
  lemma {:induction false} SlotBound(rm: RegMap, link: Link, prog: seq<Inst>, i: nat)
    requires i < |prog|
    ensures SlotLen(SlotOf(rm, link, prog, i)) <= 22
  {
    hide OpOf, EncodeAll, MulDivMod, Encode, AluBody, EndianBody, LoadImm, CallBody, TestFor, StoredImm;
    var inst := prog[i];
    var dst, src := MapReg(rm, inst.dst), MapReg(rm, inst.src);
    EncodeNone();
    match inst.Op()
    case Alu(is64, kind, useReg) => AluBound(is64, kind, useReg, src, dst, inst.imm);
    case Endian(big) => EndianBound(big, inst.imm, dst);
    case Ldx(size) => OneBound(LoadM(WidthOf(size), src, inst.offset, dst));
    case St(size) => OneBound(StoreI(WidthOf(size), dst, inst.offset, StoredImm(size, inst.imm)));
    case Stx(size) => OneBound(StoreM(WidthOf(size), src, dst, inst.offset));
    case Lddw =>
      OneBound(LoadImm(dst, Interp.Wide(inst.imm, if i + 1 < |prog| then prog[i + 1].imm else 0)));
    case Ja => JumpBound(i, prog, rm, link);
    case Jcond(cond, useReg) =>
      OneBound(TestFor(cond, useReg, src, dst, inst.imm));
      JumpBound(i, prog, rm, link);
    case Call => CallBound(link, inst.imm);
    case Exit => JumpBound(i, prog, rm, link);
    case Unknown =>
  }

  lemma {:induction false} JumpBound(i: nat, prog: seq<Inst>, rm: RegMap, link: Link)
    requires i < |prog|
    ensures var s := SlotOf(rm, link, prog, i); SlotLen(s) <= |EncodeAll(s.body)| + 6
  {
    hide SlotOf, EncodeAll;
  }

  lemma {:induction false} OneBound(x: Instr)
    ensures |EncodeAll([x])| <= 12
  {
    hide EncodeAll;
    EncodeFew(x, x, x);
  }

  lemma {:induction false} AluBound(is64: bool, kind: AluKind, useReg: bool, src: reg, dst: reg, imm: int32)
    ensures |EncodeAll(AluBody(is64, kind, useReg, src, dst, imm))| <= 22
  {
    hide EncodeAll, Encode, MulDivMod, LoadImm;
    var body := AluBody(is64, kind, useReg, src, dst, imm);
    if IsMulDivMod(kind) {
      MulDivModBound(is64, kind, src, dst, imm);
    } else {
      OneBound(body[0]);
      if |body| == 2 {
        EncodeFew(body[0], body[1], Ret);
        OneBound(body[1]);
        PieceLengths(true, src, RCX, 0, 0);
        EncodeFew(body[1], Ret, Ret);
      }
    }
  }

  lemma {:induction false} EndianBound(big: bool, imm: int32, dst: reg)
    ensures |EncodeAll(EndianBody(big, imm, dst))| <= 22
  {
    hide EncodeAll;
    EncodeNone();
    EncodeFew(Rol16(dst, 8), AluRI(false, XAnd, dst, 0xffff), Ret);
    OneBound(Bswap(imm == 64, dst));
  }

  lemma {:induction false} CallBound(link: Link, imm: int32)
    ensures |EncodeAll(CallBody(link, imm))| <= 15
  {
    hide EncodeAll, LoadImm, LoadImmBytes;
    EncodeFew(MovRR(R9, RCX), LoadImm(RAX, link.func(imm)), CallRax);
    EncodeLoadImm(RAX, link.func(imm));
    PieceLengths(true, R9, RCX, 0, link.func(imm));
  }

  /** An address that needs the ten-byte form of mov. */
  predicate Far(v: u64) { !(-0x8000_0000 <= S64(v) < 0x8000_0000) }

  predicate FarLink(link: Link) { Far(link.stderrAddr) && Far(link.formatAddr) && Far(link.fprintfAddr) }

  lemma {:induction false} FarLength(dst: reg, v: u64)
    ensures Far(v) ==> |LoadImmBytes(dst, v)| == 10
  {
  }

  /** Prologue, epilogue and division handler together: at most 21 + 19 + 47 bytes, and as many if
      r0 and r1 are not where a C function has its result and first argument and the addresses are far. */
  lemma {:induction false} FrameBound(rm: RegMap, link: Link)
    ensures |EncodeAll(Prologue(rm))| == (if rm[1] != RDI then 21 else 18)
    ensures |EncodeAll(Epilogue(rm))| == (if rm[0] != RAX then 19 else 16)
    ensures 35 <= SlotLen(DivHandler(rm, link)) <= 47 && (FarLink(link) ==> SlotLen(DivHandler(rm, link)) == 47)
  {
    hide EncodeAll, Encode, LoadImm, LoadImmBytes, AluBytes, AluImm32Bytes, Prologue, Epilogue, EntryMoves, ExitMoves,
         PushCode, PopCode, Far;
    FramePieces(rm);
    MoveBytes(rm);
    SubRsp();
    HandlerBytes(rm, link);
    FramePushes();
    PieceLengths(true, RDI, rm[1], STACK_SIZE, link.stderrAddr);
    PieceLengths(true, RSP, rm[10], STACK_SIZE, link.stderrAddr);
    PieceLengths(true, rm[0], RAX, STACK_SIZE, link.fprintfAddr);
    PieceLengths(true, 0, RSP, STACK_SIZE, 0);
    PieceLengths(true, 5, RSP, STACK_SIZE, 0);
    PieceLengths(true, RCX, RDX, 0, 0);
    PieceLengths(true, 0, RDI, 0, link.stderrAddr);
    PieceLengths(true, 0, RSI, 0, link.formatAddr);
    PieceLengths(true, 0, rm[0], -1, 0);
    FarLength(RDI, link.stderrAddr);
    FarLength(RSI, link.formatAddr);
    FarLength(RAX, link.fprintfAddr);
    HandlerLen(rm, link);
  }

  lemma {:induction false} HandlerLen(rm: RegMap, link: Link)
    ensures SlotLen(DivHandler(rm, link)) == |EncodeAll(DivHandler(rm, link).body)| + 5
  {
    hide EncodeAll;
  }

  lemma {:induction false} FramePushes()
    ensures |Encode(Push(RBP))| == 1 && |Encode(Push(RBX))| == 1 && |Encode(Push(R13))| == 2
    ensures |Encode(Push(R14))| == 2 && |Encode(Push(R15))| == 2
    ensures |Encode(Pop(RBP))| == 1 && |Encode(Pop(RBX))| == 1 && |Encode(Pop(R13))| == 2
    ensures |Encode(Pop(R14))| == 2 && |Encode(Pop(R15))| == 2
  {
  }

  /** Bytes of the code that is there for every program. */
  function FrameSize(rm: RegMap, link: Link): nat {
    |EncodeAll(Prologue(rm))| + |EncodeAll(Epilogue(rm))| + SlotLen(DivHandler(rm, link))
  }

  lemma {:induction false} SizeFromEnd(rm: RegMap, link: Link, prog: seq<Inst>)
    ensures CodeSize(rm, link, prog) + |EncodeAll(Prologue(rm))|
         == Loc(AllSlots(rm, link, prog), |prog| + 1) + FrameSize(rm, link)
  {
    hide AllSlots, EncodeAll, DivHandler, Epilogue, Prologue;
    var slots := AllSlots(rm, link, prog);
    FrameSlots(rm, link, prog);
    LocStep(slots, |prog| + 1);
    LocStep(slots, |prog| + 2);
  }

  lemma {:induction false} LocBound(rm: RegMap, link: Link, prog: seq<Inst>, k: nat)
    requires 0 < k <= |prog| + 1
    ensures Loc(AllSlots(rm, link, prog), k) <= |EncodeAll(Prologue(rm))| + 22 * (k - 1)
  {
    hide AllSlots, EncodeAll, SlotOf, Prologue;
    var slots := AllSlots(rm, link, prog);
    if k == 1 {
      FrameSlots(rm, link, prog);
    } else {
      LocBound(rm, link, prog, k - 1);
      SlotAtIndex(rm, link, prog, k - 2);
      EncodeNone();
      SlotBound(rm, link, prog, k - 2);
    }
  }

  lemma {:induction false} SizeBound(rm: RegMap, link: Link, prog: seq<Inst>)
    ensures CodeSize(rm, link, prog) <= FrameSize(rm, link) + 22 * |prog|
  {
    hide AllSlots, EncodeAll, CodeSize, FrameSize, Prologue;
    SizeFromEnd(rm, link, prog);
    LocBound(rm, link, prog, |prog| + 1);
  }

  /** The assertion of emit_bytes cannot fail for programs of up to 2974 instructions. */
  lemma {:induction false} ShortProgramsFit(rm: RegMap, link: Link, prog: seq<Inst>)
    requires |prog| <= 2974
    ensures Compile.Fits(rm, link, prog)
  {
    hide AllSlots, EncodeAll, DivHandler, Epilogue, Prologue, CodeSize;
    SizeBound(rm, link, prog);
    FrameBound(rm, link);
  }

  /** n divisions of register d by 1. */
  function Divisions(n: nat, d: nibble): (p: seq<Inst>)
    ensures |p| == n
  {
    seq(n, _ => Inst(0x37, d, 0, 0, 1))
  }

  lemma {:induction false} DivisionsLoc(rm: RegMap, link: Link, n: nat, d: nibble, k: nat)
    requires k <= n && MapReg(rm, d) != RAX && MapReg(rm, d) != RDX
    ensures Loc(AllSlots(rm, link, Divisions(n, d)), k + 1) == |EncodeAll(Prologue(rm))| + 22 * k
  {
    hide AllSlots, EncodeAll, MulDivMod, Prologue;
    var prog := Divisions(n, d);
    if k == 0 {
      FrameSlots(rm, link, prog);
    } else {
      DivisionsLoc(rm, link, n, d, k - 1);
      SlotAtIndex(rm, link, prog, k - 1);
      NoTails(n, d, k - 1);
      MulDivModBound(true, Div, MapReg(rm, 0), MapReg(rm, d), 1);
      LocStep(AllSlots(rm, link, prog), k);
    }
  }

  lemma {:induction false} NoTails(n: nat, d: nibble, i: nat)
    requires i < n
    ensures !IsTail(Divisions(n, d), i)
  {
  }

  lemma {:induction false} DivisionsAccepted(n: nat, d: nibble)
    requires n < MAX_INSTS && d <= 9
    ensures Validated(Divisions(n, d), {})
  {
    forall i | 0 <= i < n ensures InstOk(Divisions(n, d), {}, i) {
    }
  }

  lemma {:induction false} DivisionsSize(rm: RegMap, link: Link, n: nat, d: nibble)
    requires n < MAX_INSTS && d <= 9 && rm[d] != RAX && rm[d] != RDX
    ensures Validated(Divisions(n, d), {})
    ensures CodeSize(rm, link, Divisions(n, d)) == FrameSize(rm, link) + 22 * n
  {
    hide AllSlots, EncodeAll, CodeSize, FrameSize, Prologue, Validated, Divisions;
    DivisionsAccepted(n, d);
    SizeFromEnd(rm, link, Divisions(n, d));
    DivisionsLoc(rm, link, n, d, n);
  }

  /** The exact bound: all accepted programs of n instructions fit if and only if n times the longest
      instruction and the frame do. */
  lemma {:induction false} BoundExact(rm: RegMap, link: Link, n: nat)
    requires ValidMap(rm) && n < MAX_INSTS
    ensures FrameSize(rm, link) + 22 * n <= Compile.CODE_BUFFER <==>
      forall prog: seq<Inst>, funcs: set<int> :: |prog| == n && Validated(prog, funcs) ==> Compile.Fits(rm, link, prog)
  {
    hide FrameSize, CodeSize, Validated;
    if FrameSize(rm, link) + 22 * n <= Compile.CODE_BUFFER {
      forall prog: seq<Inst>, funcs: set<int> | |prog| == n && Validated(prog, funcs) ensures Compile.Fits(rm, link, prog) {
        SizeBound(rm, link, prog);
      }
    } else {
      assert rm[0] != rm[1] && rm[1] != rm[2] && rm[0] != rm[2];
      var d: nibble := if rm[0] != RAX && rm[0] != RDX then 0 else if rm[1] != RAX && rm[1] != RDX then 1 else 2;
      DivisionsSize(rm, link, n, d);
      assert !Compile.Fits(rm, link, Divisions(n, d));
    }
  }

  /** Under the initial map, wherever the linked addresses are: 2975 instructions always fit, 2976
      divisions never do. */
  lemma {:induction false} InitialMapBound(link: Link, prog: seq<Inst>)
    ensures |prog| <= 2975 ==> Compile.Fits(DEFAULT_MAP, link, prog)
    ensures Validated(Divisions(2976, 1), {}) && !Compile.Fits(DEFAULT_MAP, link, Divisions(2976, 1))
  {
    hide CodeSize, EncodeAll, DivHandler, Epilogue, Prologue, Validated, FarLink;
    FrameBound(DEFAULT_MAP, link);
    SizeBound(DEFAULT_MAP, link, prog);
    DivisionsSize(DEFAULT_MAP, link, 2976, 1);
  }

  /** Under other maps the last instruction less can matter: where r0 and r1 are not in RAX and RDI and
      the addresses are far, 2975 divisions are one byte too long. */
  lemma {:induction false} LongProgramOverflows(rm: RegMap, link: Link, d: nibble)
    requires rm[0] != RAX && rm[1] != RDI && FarLink(link) && d <= 9 && rm[d] != RAX && rm[d] != RDX
    ensures Validated(Divisions(2975, d), {})
    ensures CodeSize(rm, link, Divisions(2975, d)) == Compile.CODE_BUFFER + 1
  {
    hide CodeSize, EncodeAll, DivHandler, Epilogue, Prologue, Validated, FarLink, Divisions;
    FrameBound(rm, link);
    DivisionsSize(rm, link, 2975, d);
  }
}
