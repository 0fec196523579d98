/** translate, muldivmod, resolve_jumps and ubpf_compile of ubpf/ubpf_jit_x86_64.c, writing the
    code buffer step by step. */
module Translator {
  import opened Words
  import opened Ebpf
  import opened X86
  import opened Encoding
  import opened Jit
  import opened Emitter
  import Interp
  import MD = MulDivSim

  // ----- muldivmod -----

  method EmitSaves(st: JitState, dst: reg)
    requires st.Room(|EncodeAll(MD.Saves(dst))|)
    modifies st`offset, st.buf
    ensures st.Emitted(EncodeAll(MD.Saves(dst)))
  {
    hide Encode;
    EncodeFew(Push(RAX), Push(RDX), Ret);
    EncodeFew(Push(RDX), Ret, Ret);
    ghost var c := st.Code();
    if dst != RAX {
      st.EmitPush(RAX);
    }
    if dst != RDX {
      st.EmitPush(RDX);
    }
    assert dst != RAX && dst != RDX ==> MD.Saves(dst) == [Push(RAX), Push(RDX)];
    Join2(c, Encode(Push(RAX)), Encode(Push(RDX)));
  }

  method EmitCompute(st: JitState, is64: bool, kind: AluKind, src: reg, dst: reg, imm: int32)
    requires IsMulDivMod(kind) && st.Room(|EncodeAll(MD.Compute(is64, kind, src, dst, imm))|)
    modifies st`offset, st.buf
    ensures st.Emitted(EncodeAll(MD.Compute(is64, kind, src, dst, imm)))
  {
    hide Encode, LoadImmBytes, AluBytes;
    ghost var c := st.Code();
    ghost var x := if imm != 0 then LoadImm(RCX, U64(imm)) else MovRR(src, RCX);
    ghost var xor := if kind == Mul then [] else [AluRR(false, XXor, RDX, RDX)];
    ghost var op := if kind == Mul then MulR(is64, RCX) else DivR(is64, RCX);
    ComputeBytes(is64, kind, src, dst, imm);
    EncodeFew(AluRR(false, XXor, RDX, RDX), op, op);
    if imm != 0 {
      st.EmitLoadImm(RCX, U64(imm));
    } else {
      st.EmitMov(src, RCX);
    }
    st.EmitMov(dst, RAX);
    if kind != Mul {
      st.EmitAlu(false, 0x31, RDX, RDX);
    } else {
      assert st.Code() + [] == st.Code();
    }
    ghost var c1 := st.Code();
    if is64 {
      st.EmitRex(true, false, false);
    }
    st.EmitAlu(false, 0xf7, if kind == Mul then 4 else 6, RCX);
    RexThenAlu(is64, if kind == Mul then 4 else 6);
    Join2(c1, if is64 then [RexByte(true, false, false)] else [], AluBytes(false, 0xf7, if kind == Mul then 4 else 6, RCX));
    Join4(c, Encode(x), Encode(MovRR(dst, RAX)), EncodeAll(xor), Encode(op));
  }

  /** The separate REX.W byte in front of the 32-bit form is the 64-bit form. */
  lemma {:induction false} RexThenAlu(is64: bool, ext: reg)
    requires ext == 4 || ext == 6
    ensures (if is64 then [RexByte(true, false, false)] else []) + AluBytes(false, 0xf7, ext, RCX)
         == AluBytes(is64, 0xf7, ext, RCX)
    ensures Encode(MulR(is64, RCX)) == AluBytes(is64, 0xf7, 4, RCX)
    ensures Encode(DivR(is64, RCX)) == AluBytes(is64, 0xf7, 6, RCX)
  {
  }

  lemma {:induction false} ComputeBytes(is64: bool, kind: AluKind, src: reg, dst: reg, imm: int32)
    requires IsMulDivMod(kind)
    ensures var x := if imm != 0 then LoadImm(RCX, U64(imm)) else MovRR(src, RCX);
      var xor := if kind == Mul then [] else [AluRR(false, XXor, RDX, RDX)];
      var op := if kind == Mul then MulR(is64, RCX) else DivR(is64, RCX);
      EncodeAll(MD.Compute(is64, kind, src, dst, imm)) == Encode(x) + Encode(MovRR(dst, RAX)) + EncodeAll(xor) + Encode(op)
      && Encode(x) == (if imm != 0 then LoadImmBytes(RCX, U64(imm)) else Encode(MovRR(src, RCX)))
      && Encode(AluRR(false, XXor, RDX, RDX)) == AluBytes(false, 0x31, RDX, RDX)
      && |Encode(op)| == (if is64 then 1 else 0) + |AluBytes(false, 0xf7, if kind == Mul then 4 else 6, RCX)|
  {
    hide Encode, EncodeAll, LoadImm, LoadImmBytes, AluBytes;
    var x := if imm != 0 then LoadImm(RCX, U64(imm)) else MovRR(src, RCX);
    var xor := if kind == Mul then [] else [AluRR(false, XXor, RDX, RDX)];
    var op := if kind == Mul then MulR(is64, RCX) else DivR(is64, RCX);
    var mov := MovRR(dst, RAX);
    EncodeLoadImm(RCX, U64(imm));
    RexThenAlu(is64, 4);
    RexThenAlu(is64, 6);
    EncodeAllAppend([x, mov] + xor, [op]);
    EncodeAllAppend([x, mov], xor);
    EncodeFew(x, mov, op);
    EncodeFew(op, op, op);
    ZeroXorBytes();
    assert MD.Compute(is64, kind, src, dst, imm) == [x, mov] + xor + [op];
  }

  lemma {:induction false} ZeroXorBytes()
    ensures Encode(AluRR(false, XXor, RDX, RDX)) == AluBytes(false, 0x31, RDX, RDX)
  {
  }

  lemma {:induction false} EncodeLoadImm(dst: reg, v: u64)
    ensures Encode(LoadImm(dst, v)) == LoadImmBytes(dst, v)
  {
  }

  method EmitOut(st: JitState, kind: AluKind, dst: reg)
    requires IsMulDivMod(kind) && st.Room(|EncodeAll(MulDivModOut(kind, dst))|)
    modifies st`offset, st.buf
    ensures st.Emitted(EncodeAll(MulDivModOut(kind, dst)))
  {
    hide Encode, EncodeAll, MulDivModOut;
    ghost var c := st.Code();
    ghost var out1, out2 := OutRdxCode(kind, dst), OutRaxCode(kind, dst);
    OutSplit(kind, dst);
    if dst != RDX {
      OutRdxBytes(kind, dst);
      if kind == Mod {
        st.EmitMov(RDX, dst);
      }
      st.EmitPop(RDX);
      Join2(c, Encode(MovRR(RDX, dst)), Encode(Pop(RDX)));
    }
    assert st.Code() == c + EncodeAll(out1) by { EncodeNone(); }
    ghost var c1 := st.Code();
    if dst != RAX {
      OutRaxBytes(kind, dst);
      if kind != Mod {
        st.EmitMov(RAX, dst);
      }
      st.EmitPop(RAX);
      Join2(c1, Encode(MovRR(RAX, dst)), Encode(Pop(RAX)));
    }
    assert st.Code() == c1 + EncodeAll(out2) by { EncodeNone(); }
    Join2(c, EncodeAll(out1), EncodeAll(out2));
  }

  lemma {:induction false} EncodeNone()
    ensures EncodeAll([]) == []
  {
  }

  function OutRdxCode(kind: AluKind, dst: reg): seq<Instr> {
    if dst != RDX then (if kind == Mod then [MovRR(RDX, dst)] else []) + [Pop(RDX)] else []
  }

  function OutRaxCode(kind: AluKind, dst: reg): seq<Instr> {
    if dst != RAX then (if kind != Mod then [MovRR(RAX, dst)] else []) + [Pop(RAX)] else []
  }

  lemma {:induction false} OutSplit(kind: AluKind, dst: reg)
    ensures EncodeAll(MulDivModOut(kind, dst)) == EncodeAll(OutRdxCode(kind, dst)) + EncodeAll(OutRaxCode(kind, dst))
    ensures dst == RDX ==> OutRdxCode(kind, dst) == []
    ensures dst == RAX ==> OutRaxCode(kind, dst) == []
  {
    EncodeAllAppend(OutRdxCode(kind, dst), OutRaxCode(kind, dst));
  }

  lemma {:induction false} OutRdxBytes(kind: AluKind, dst: reg)
    requires dst != RDX
    ensures EncodeAll(OutRdxCode(kind, dst))
         == if kind == Mod then Encode(MovRR(RDX, dst)) + Encode(Pop(RDX)) else Encode(Pop(RDX))
  {
    EncodeFew(MovRR(RDX, dst), Pop(RDX), Ret);
    EncodeFew(Pop(RDX), Ret, Ret);
    assert [MovRR(RDX, dst)] + [Pop(RDX)] == [MovRR(RDX, dst), Pop(RDX)];
    assert [] + [Pop(RDX)] == [Pop(RDX)];
  }

  lemma {:induction false} OutRaxBytes(kind: AluKind, dst: reg)
    requires dst != RAX
    ensures EncodeAll(OutRaxCode(kind, dst))
         == if kind != Mod then Encode(MovRR(RAX, dst)) + Encode(Pop(RAX)) else Encode(Pop(RAX))
  {
    EncodeFew(MovRR(RAX, dst), Pop(RAX), Ret);
    EncodeFew(Pop(RAX), Ret, Ret);
    assert [MovRR(RAX, dst)] + [Pop(RAX)] == [MovRR(RAX, dst), Pop(RAX)];
    assert [] + [Pop(RAX)] == [Pop(RAX)];
  }

  method EmitMulDivMod(st: JitState, is64: bool, kind: AluKind, src: reg, dst: reg, imm: int32)
    requires IsMulDivMod(kind) && st.Room(|EncodeAll(MulDivMod(is64, kind, src, dst, imm))|)
    modifies st`offset, st.buf
    ensures st.Emitted(EncodeAll(MulDivMod(is64, kind, src, dst, imm)))
  {
    hide Encode, EncodeAll, MulDivMod, MD.Saves, MD.Compute, MulDivModOut;
    ghost var c := st.Code();
    ghost var a, b, o := EncodeAll(MD.Saves(dst)), EncodeAll(MD.Compute(is64, kind, src, dst, imm)),
                         EncodeAll(MulDivModOut(kind, dst));
    MulDivModParts(is64, kind, src, dst, imm);
    EmitSaves(st, dst);
    EmitCompute(st, is64, kind, src, dst, imm);
    EmitOut(st, kind, dst);
    Join3(c, a, b, o);
  }

  lemma {:induction false} MulDivModParts(is64: bool, kind: AluKind, src: reg, dst: reg, imm: int32)
    ensures EncodeAll(MulDivMod(is64, kind, src, dst, imm))
         == EncodeAll(MD.Saves(dst)) + EncodeAll(MD.Compute(is64, kind, src, dst, imm)) + EncodeAll(MulDivModOut(kind, dst))
  {
    hide Encode, EncodeAll, LoadImm, MulDivModOut;
    EncodeAllAppend(MulDivModIn(is64, kind, src, dst, imm), MulDivModOut(kind, dst));
    EncodeAllAppend(MD.Saves(dst), MD.Compute(is64, kind, src, dst, imm));
    assert MulDivModIn(is64, kind, src, dst, imm) == MD.Saves(dst) + MD.Compute(is64, kind, src, dst, imm);
  }

  // ----- one slot -----

  /** The opcode bytes of the register forms, as the switch writes them. */
  method EmitSimpleReg(st: JitState, is64: bool, kind: AluKind, src: reg, dst: reg)
    requires kind in {Add, Sub, Or, And, Xor} && st.Room(|Encode(AluRR(is64, SimpleOp(kind), src, dst))|)
    modifies st`offset, st.buf
    ensures st.Emitted(Encode(AluRR(is64, SimpleOp(kind), src, dst)))
  {
    hide AluBytes;
    match kind
    case Add => st.EmitAlu(is64, 0x01, src, dst);
    case Sub => st.EmitAlu(is64, 0x29, src, dst);
    case Or => st.EmitAlu(is64, 0x09, src, dst);
    case And => st.EmitAlu(is64, 0x21, src, dst);
    case Xor => st.EmitAlu(is64, 0x31, src, dst);
  }

  method EmitSimpleImm(st: JitState, is64: bool, kind: AluKind, dst: reg, imm: int32)
    requires kind in {Add, Sub, Or, And, Xor} && st.Room(|Encode(AluRI(is64, SimpleOp(kind), dst, imm))|)
    modifies st`offset, st.buf
    ensures st.Emitted(Encode(AluRI(is64, SimpleOp(kind), dst, imm)))
  {
    hide AluImm32Bytes;
    match kind
    case Add => st.EmitAluImm32(is64, 0x81, 0, dst, imm);
    case Sub => st.EmitAluImm32(is64, 0x81, 5, dst, imm);
    case Or => st.EmitAluImm32(is64, 0x81, 1, dst, imm);
    case And => st.EmitAluImm32(is64, 0x81, 4, dst, imm);
    case Xor => st.EmitAluImm32(is64, 0x81, 6, dst, imm);
  }

  method EmitShift(st: JitState, is64: bool, kind: AluKind, useReg: bool, src: reg, dst: reg, imm: int32)
    requires IsShift(kind) && st.Room(|EncodeAll(AluBody(is64, kind, useReg, src, dst, imm))|)
    modifies st`offset, st.buf
    ensures st.Emitted(EncodeAll(AluBody(is64, kind, useReg, src, dst, imm)))
  {
    hide AluBytes, AluImm8Bytes;
    ghost var c := st.Code();
    var ext: reg := if kind == Lsh then 4 else if kind == Rsh then 5 else 7;
    ghost var shift := ShiftRC(is64, ShiftOf(kind), dst);
    ShiftBytes(is64, kind, dst, imm);
    if useReg {
      EncodeFew(MovRR(src, RCX), shift, Ret);
      st.EmitMov(src, RCX);
      st.EmitAlu(is64, 0xd3, ext, dst);
      Join2(c, Encode(MovRR(src, RCX)), Encode(shift));
    } else {
      EncodeFew(ShiftRI(is64, ShiftOf(kind), dst, imm % 0x100), Ret, Ret);
      st.EmitAluImm8(is64, 0xc1, ext, dst, imm);
    }
  }

  lemma {:induction false} ShiftBytes(is64: bool, kind: AluKind, dst: reg, imm: int32)
    requires IsShift(kind)
    ensures var ext: reg := if kind == Lsh then 4 else if kind == Rsh then 5 else 7;
      Encode(ShiftRC(is64, ShiftOf(kind), dst)) == AluBytes(is64, 0xd3, ext, dst)
      && Encode(ShiftRI(is64, ShiftOf(kind), dst, imm % 0x100)) == AluImm8Bytes(is64, 0xc1, ext, dst, imm)
  {
    assert (imm % 0x100) % 0x100 == imm % 0x100;
    hide AluBytes;
  }

  method EmitMovForm(st: JitState, is64: bool, useReg: bool, src: reg, dst: reg, imm: int32)
    requires st.Room(|EncodeAll(AluBody(is64, Mov, useReg, src, dst, imm))|)
    modifies st`offset, st.buf
    ensures st.Emitted(EncodeAll(AluBody(is64, Mov, useReg, src, dst, imm)))
  {
    hide LoadImmBytes, AluImm32Bytes, LoadImm;
    EncodeLoadImm(dst, U64(imm));
    EncodeFew(AluBody(is64, Mov, useReg, src, dst, imm)[0], Ret, Ret);
    if useReg {
      st.EmitMov(src, dst);
    } else if is64 {
      st.EmitLoadImm(dst, U64(imm));
    } else {
      st.EmitAluImm32(false, 0xc7, 0, dst, imm);
    }
  }

  method EmitAluSlot(st: JitState, is64: bool, kind: AluKind, useReg: bool, src: reg, dst: reg, imm: int32)
    requires st.Room(|EncodeAll(AluBody(is64, kind, useReg, src, dst, imm))|)
    modifies st`offset, st.buf
    ensures st.Emitted(EncodeAll(AluBody(is64, kind, useReg, src, dst, imm)))
  {
    hide Encode, MulDivMod, EncodeAll;
    if IsMulDivMod(kind) {
      EmitMulDivMod(st, is64, kind, src, dst, imm);
    } else if IsShift(kind) {
      EmitShift(st, is64, kind, useReg, src, dst, imm);
    } else if kind == Neg {
      EncodeFew(NegR(is64, dst), Ret, Ret);
      NegBytes(is64, dst);
      st.EmitAlu(is64, 0xf7, 3, dst);
    } else if kind == Mov {
      EmitMovForm(st, is64, useReg, src, dst, imm);
    } else if useReg {
      EncodeFew(AluRR(is64, SimpleOp(kind), src, dst), Ret, Ret);
      EmitSimpleReg(st, is64, kind, src, dst);
    } else {
      EncodeFew(AluRI(is64, SimpleOp(kind), dst, imm), Ret, Ret);
      EmitSimpleImm(st, is64, kind, dst, imm);
    }
  }

  lemma {:induction false} NegBytes(is64: bool, dst: reg)
    ensures Encode(NegR(is64, dst)) == AluBytes(is64, 0xf7, 3, dst)
  {
  }

  /** 16-bit byte swap: rol by 8, then clear everything above. */
  method EmitSwap16(st: JitState, dst: reg)
    requires st.Room(|EncodeAll(EndianBody(true, 16, dst))|)
    modifies st`offset, st.buf
    ensures st.Emitted(EncodeAll(EndianBody(true, 16, dst)))
  {
    hide AluBytes, AluImm8Bytes, AluImm32Bytes, Encode;
    ghost var c := st.Code();
    ghost var rol, and := AluImm8Bytes(false, 0xc1, 0, dst, 8), AluImm32Bytes(false, 0x81, 4, dst, 0xffff);
    Swap16Bytes(dst);
    st.Emit1(0x66);
    st.EmitAluImm8(false, 0xc1, 0, dst, 8);
    st.EmitAluImm32(false, 0x81, 4, dst, 0xffff);
    Join3(c, [0x66], rol, and);
  }

  lemma {:induction false} Swap16Bytes(dst: reg)
    ensures EncodeAll(EndianBody(true, 16, dst))
         == [0x66] + AluImm8Bytes(false, 0xc1, 0, dst, 8) + AluImm32Bytes(false, 0x81, 4, dst, 0xffff)
  {
    EncodeFew(Rol16(dst, 8), AluRI(false, XAnd, dst, 0xffff), Ret);
    hide AluImm8Bytes, AluImm32Bytes;
  }

  method EmitEndian(st: JitState, big: bool, imm: int32, dst: reg)
    requires st.Room(|EncodeAll(EndianBody(big, imm, dst))|)
    modifies st`offset, st.buf
    ensures st.Emitted(EncodeAll(EndianBody(big, imm, dst)))
  {
    hide BasicRex;
    ghost var c := st.Code();
    EncodeFew(Bswap(imm == 64, dst), Ret, Ret);
    if !big {
      assert c + [] == c;
    } else if imm == 16 {
      EmitSwap16(st, dst);
    } else if imm == 32 || imm == 64 {
      st.EmitBasicRex(imm == 64, 0, dst);
      st.Emit1(0x0f);
      st.Emit1(0xc8 + dst % 8);
      assert c + BasicRex(imm == 64, 0, dst) + [0x0f] + [0xc8 + dst % 8] == c + Encode(Bswap(imm == 64, dst));
    } else {
      assert c + [] == c;
    }
  }

  /** cmp or test, register or immediate form. */
  method EmitTest(st: JitState, cond: Cond, useReg: bool, src: reg, dst: reg, imm: int32)
    requires st.Room(|Encode(TestFor(cond, useReg, src, dst, imm))|)
    modifies st`offset, st.buf
    ensures st.Emitted(Encode(TestFor(cond, useReg, src, dst, imm)))
  {
    hide AluBytes, AluImm32Bytes;
    if cond == Set {
      if useReg { st.EmitAlu(true, 0x85, src, dst); } else { st.EmitAluImm32(true, 0xf7, 0, dst, imm); }
    } else {
      if useReg { st.EmitCmp(src, dst); } else { st.EmitCmpImm32(dst, imm); }
    }
  }

  method EmitCallSlot(st: JitState, target: u64)
    requires st.Room(|EncodeAll([MovRR(R9, RCX), LoadImm(RAX, target), CallRax])|)
    modifies st`offset, st.buf
    ensures st.Emitted(EncodeAll([MovRR(R9, RCX), LoadImm(RAX, target), CallRax]))
  {
    hide LoadImmBytes, LoadImm, AluBytes;
    ghost var c := st.Code();
    EncodeLoadImm(RAX, target);
    EncodeFew(MovRR(R9, RCX), LoadImm(RAX, target), CallRax);
    st.EmitMov(R9, RCX);
    st.EmitCall(target);
    ghost var m, l := Encode(MovRR(R9, RCX)), LoadImmBytes(RAX, target);
    Join2(c, m, l + [0xff, 0xd0]);
    Join2(m, l, [0xff, 0xd0]);
  }

  lemma {:induction false} StoreImmTruncates(size: Size, dst: reg, off: int32, imm: int32)
    ensures Encode(StoreI(WidthOf(size), dst, off, StoredImm(size, imm))) == StoreImmBytes(WidthOf(size), dst, off, imm)
  {
    hide BasicRex, Operand;
    assert (imm % 0x100) % 0x100 == imm % 0x100 && (imm % 0x1_0000) % 0x1_0000 == imm % 0x1_0000;
  }

  /** The straight-line part of one slot: the switch of translate. */
  method EmitBody(st: JitState, rm: RegMap, link: Link, prog: seq<Inst>, i: nat)
    requires i < |prog| && (prog[i].Op().Lddw? ==> i + 1 < |prog|)
    requires st.Room(|EncodeAll(SlotOf(rm, link, prog, i).body)|)
    modifies st`offset, st.buf
    ensures st.Emitted(EncodeAll(SlotOf(rm, link, prog, i).body))
  {
    hide Encode, EncodeAll, OpOf, AluBody, EndianBody, LoadImm, LoadBytesOf, StoreBytesOf, StoreImmBytes, LoadImmBytes,
         StoredImm, TestFor;
    var inst := prog[i];
    var dst, src := MapReg(rm, inst.dst), MapReg(rm, inst.src);
    ghost var c := st.Code();
    EncodeNone();
    assert c + [] == c;
    match inst.Op()
    case Alu(is64, kind, useReg) => EmitAluSlot(st, is64, kind, useReg, src, dst, inst.imm);
    case Endian(big) => EmitEndian(st, big, inst.imm, dst);
    case Ldx(size) =>
      EncodeFew(LoadM(WidthOf(size), src, inst.offset, dst), Ret, Ret);
      MemBytes(size, src, dst, inst.offset);
      st.EmitLoad(WidthOf(size), src, dst, inst.offset);
    case St(size) =>
      EncodeFew(StoreI(WidthOf(size), dst, inst.offset, StoredImm(size, inst.imm)), Ret, Ret);
      StoreImmTruncates(size, dst, inst.offset, inst.imm);
      st.EmitStoreImm32(WidthOf(size), dst, inst.offset, inst.imm);
    case Stx(size) =>
      EncodeFew(StoreM(WidthOf(size), src, dst, inst.offset), Ret, Ret);
      MemBytes(size, src, dst, inst.offset);
      st.EmitStore(WidthOf(size), src, dst, inst.offset);
    case Lddw =>
      EncodeFew(LoadImm(dst, Interp.Wide(inst.imm, prog[i + 1].imm)), Ret, Ret);
      EncodeLoadImm(dst, Interp.Wide(inst.imm, prog[i + 1].imm));
      st.EmitLoadImm(dst, Interp.Wide(inst.imm, prog[i + 1].imm));
    case Jcond(cond, useReg) =>
      EncodeFew(TestFor(cond, useReg, src, dst, inst.imm), Ret, Ret);
      EmitTest(st, cond, useReg, src, dst, inst.imm);
    case Call => EmitCallSlot(st, link.func(inst.imm));
    case _ =>
  }

  lemma {:induction false} MemBytes(size: Size, src: reg, dst: reg, off: int32)
    ensures Encode(LoadM(WidthOf(size), src, off, dst)) == LoadBytesOf(WidthOf(size), src, dst, off)
    ensures Encode(StoreM(WidthOf(size), src, dst, off)) == StoreBytesOf(WidthOf(size), src, dst, off)
  {
    hide LoadBytesOf, StoreBytesOf;
  }

  // ----- slots with a jump -----

  /** The record left behind by a slot that starts at `at`. */
  function JumpsOf(s: Slot, at: nat): seq<JumpRec> {
    if s.jump.NoJump? then [] else [JumpRec(at + SlotLen(s) - 4, s.jump.target)]
  }

  lemma {:induction false} JumpSlotLen(s: Slot)
    ensures !s.jump.NoJump? ==> SlotLen(s) >= 5
  {
    hide EncodeAll;
  }

  ghost predicate SlotRoom(st: JitState, s: Slot)
    reads st
  {
    st.Room(SlotLen(s)) && (!s.jump.NoJump? ==> st.numJumps < st.jumps.Length)
  }

  /** A slot was appended: its bytes with an open hole, and its jump record. */
  twostate predicate SlotEmitted(st: JitState, s: Slot)
    reads st, st.buf, st.jumps
  {
    old(st.Valid()) && st.Valid() && st.Code() == old(st.Code()) + SlotBytes(s, 0)
    && st.Jumps() == old(st.Jumps()) + JumpsOf(s, old(st.offset))
    && st.exitLoc == old(st.exitLoc) && st.divByZeroLoc == old(st.divByZeroLoc)
  }

  lemma {:induction false} JumpBytes(cc: CC)
    ensures Encode(X86.Jmp(0)) == [0xe9] + ToLE(0, 4)
    ensures Encode(X86.Jcc(cc, 0)) == [0x0f] + [CcByte(cc)] + ToLE(0, 4)
  {
    hide ToLE;
    assert [0x0f] + [CcByte(cc)] == [0x0f, CcByte(cc)];
  }

  method EmitJmp(st: JitState, target: u32)
    requires st.Room(5) && st.numJumps < st.jumps.Length
    modifies st`offset, st`numJumps, st.buf, st.jumps
    ensures st.Valid() && st.Code() == old(st.Code()) + Encode(X86.Jmp(0))
    ensures st.Jumps() == old(st.Jumps()) + [JumpRec(old(st.offset) + 1, target)]
    ensures st.exitLoc == old(st.exitLoc) && st.divByZeroLoc == old(st.divByZeroLoc)
  {
    hide Encode, ToLE;
    JumpBytes(CcE);
    ghost var c := st.Code();
    st.Emit1(0xe9);
    st.EmitJumpOffset(target);
    Join2(c, [0xe9], ToLE(0, 4));
  }

  method EmitJcc(st: JitState, cc: CC, target: u32)
    requires st.Room(6) && st.numJumps < st.jumps.Length
    modifies st`offset, st`numJumps, st.buf, st.jumps
    ensures st.Valid() && st.Code() == old(st.Code()) + Encode(X86.Jcc(cc, 0))
    ensures st.Jumps() == old(st.Jumps()) + [JumpRec(old(st.offset) + 2, target)]
    ensures st.exitLoc == old(st.exitLoc) && st.divByZeroLoc == old(st.divByZeroLoc)
  {
    hide Encode, ToLE, CcByte;
    JumpBytes(cc);
    ghost var c := st.Code();
    st.Emit1(0x0f);
    st.Emit1(CcByte(cc));
    st.EmitJumpOffset(target);
    Join3(c, [0x0f], [CcByte(cc)], ToLE(0, 4));
  }

  /** Appends the jump of a slot whose body is already there. */
  method EmitJump(st: JitState, j: Jump, ghost s: Slot, ghost c: seq<byte>)
    requires s.jump == j && st.Valid() && st.Code() == c
    requires st.Room(SlotLen(s) - |EncodeAll(s.body)|) && (!j.NoJump? ==> st.numJumps < st.jumps.Length)
    modifies st`offset, st`numJumps, st.buf, st.jumps
    ensures st.Valid() && st.Code() + [] == c + (if j.NoJump? then [] else Encode(JumpInstr(j, 0)))
    ensures st.Jumps() == old(st.Jumps()) + (if j.NoJump? then [] else [JumpRec(st.offset - 4, j.target)])
    ensures st.exitLoc == old(st.exitLoc) && st.divByZeroLoc == old(st.divByZeroLoc)
  {
    hide EncodeAll;
    match j
    case NoJump => assert st.Jumps() + [] == st.Jumps();
    case Always(target) => EmitJmp(st, target);
    case OnCc(cc, target) => EmitJcc(st, cc, target);
  }

  /** Body first, then the jump with an open hole. */
  method EmitSlot(st: JitState, rm: RegMap, link: Link, prog: seq<Inst>, i: nat)
    requires i < |prog| && (prog[i].Op().Lddw? ==> i + 1 < |prog|)
    requires SlotRoom(st, SlotOf(rm, link, prog, i))
    modifies st`offset, st`numJumps, st.buf, st.jumps
    ensures SlotEmitted(st, SlotOf(rm, link, prog, i))
  {
    hide EncodeAll, OpOf, SlotOf;
    ghost var s := SlotOf(rm, link, prog, i);
    JumpSlotLen(s);
    JumpMatches(rm, link, prog, i);
    EmitBody(st, rm, link, prog, i);
    ghost var c1 := st.Code();
    EmitJump(st, JumpOf(prog, i), s, c1);
    ghost var c := old(st.Code());
    assert st.Code() + [] == st.Code();
    Join2(c, EncodeAll(s.body), if s.jump.NoJump? then [] else Encode(JumpInstr(s.jump, 0)));
  }

  /** The jump of a slot, as the switch decides it. */
  function JumpOf(prog: seq<Inst>, i: nat): Jump
    requires i < |prog|
  {
    var target := U32(i + prog[i].offset + 1);
    match prog[i].Op()
    case Ja => Always(target)
    case Jcond(cond, _) => OnCc(CcFor(cond), target)
    case Exit => if i + 1 == |prog| then NoJump else Always(TARGET_EXIT)
    case _ => NoJump
  }

  lemma {:induction false} JumpMatches(rm: RegMap, link: Link, prog: seq<Inst>, i: nat)
    requires i < |prog|
    ensures JumpOf(prog, i) == SlotOf(rm, link, prog, i).jump
  {
    hide OpOf;
  }

  // ----- prologue, epilogue, division handler -----

  function PushCode(): seq<Instr> { [Push(RBP), Push(RBX), Push(R13)] + [Push(R14), Push(R15)] }
  function PopCode(): seq<Instr> { [Pop(R15), Pop(R14), Pop(R13)] + [Pop(RBX), Pop(RBP), Ret] }

  lemma {:induction false} FramePieces(rm: RegMap)
    ensures EncodeAll(Prologue(rm)) == EncodeAll(PushCode()) + EncodeAll(EntryMoves(rm))
    ensures EncodeAll(Epilogue(rm)) == EncodeAll(ExitMoves(rm)) + EncodeAll(PopCode())
    ensures EncodeAll(PushCode()) == (Encode(Push(RBP)) + Encode(Push(RBX)) + Encode(Push(R13)))
                                     + (Encode(Push(R14)) + Encode(Push(R15)))
    ensures EncodeAll(PopCode()) == (Encode(Pop(R15)) + Encode(Pop(R14)) + Encode(Pop(R13)))
                                    + (Encode(Pop(RBX)) + Encode(Pop(RBP)) + Encode(Ret))
  {
    hide Encode, EncodeAll;
    EncodeAllAppend(PushCode(), EntryMoves(rm));
    EncodeAllAppend(ExitMoves(rm), PopCode());
    assert Prologue(rm) == PushCode() + EntryMoves(rm);
    assert Epilogue(rm) == ExitMoves(rm) + PopCode();
    EncodeAllAppend([Push(RBP), Push(RBX), Push(R13)], [Push(R14), Push(R15)]);
    EncodeAllAppend([Pop(R15), Pop(R14), Pop(R13)], [Pop(RBX), Pop(RBP), Ret]);
    EncodeFew(Push(RBP), Push(RBX), Push(R13));
    EncodeFew(Push(R14), Push(R15), Ret);
    EncodeFew(Pop(R15), Pop(R14), Pop(R13));
    EncodeFew(Pop(RBX), Pop(RBP), Ret);
  }

  method EmitPush2(st: JitState, r1: reg, r2: reg)
    requires st.Room(|Encode(Push(r1)) + Encode(Push(r2))|)
    modifies st`offset, st.buf
    ensures st.Emitted(Encode(Push(r1)) + Encode(Push(r2)))
  {
    hide Encode;
    ghost var c := st.Code();
    st.EmitPush(r1);
    st.EmitPush(r2);
    Join2(c, Encode(Push(r1)), Encode(Push(r2)));
  }

  method EmitPop2(st: JitState, r1: reg, r2: reg)
    requires st.Room(|Encode(Pop(r1)) + Encode(Pop(r2))|)
    modifies st`offset, st.buf
    ensures st.Emitted(Encode(Pop(r1)) + Encode(Pop(r2)))
  {
    hide Encode;
    ghost var c := st.Code();
    st.EmitPop(r1);
    st.EmitPop(r2);
    Join2(c, Encode(Pop(r1)), Encode(Pop(r2)));
  }

  method EmitPushes(st: JitState)
    requires st.Room(|EncodeAll(PushCode())|)
    modifies st`offset, st.buf
    ensures st.Emitted(EncodeAll(PushCode()))
  {
    hide Encode, EncodeAll, PushCode;
    ghost var c := st.Code();
    FramePieces(DEFAULT_MAP);
    ghost var a, b, p := Encode(Push(RBP)) + Encode(Push(RBX)), Encode(Push(R14)) + Encode(Push(R15)), Encode(Push(R13));
    EmitPush2(st, RBP, RBX);
    st.EmitPush(R13);
    EmitPush2(st, R14, R15);
    Join3(c, a, p, b);
  }

  method EmitPops(st: JitState)
    requires st.Room(|EncodeAll(PopCode())|)
    modifies st`offset, st.buf
    ensures st.Emitted(EncodeAll(PopCode()))
  {
    hide Encode, EncodeAll, PopCode;
    ghost var c := st.Code();
    FramePieces(DEFAULT_MAP);
    SubRsp();
    ghost var a, b, p := Encode(Pop(R15)) + Encode(Pop(R14)), Encode(Pop(RBX)) + Encode(Pop(RBP)), Encode(Pop(R13));
    EmitPop2(st, R15, R14);
    st.EmitPop(R13);
    EmitPop2(st, RBX, RBP);
    st.Emit1(0xc3);
    Join4(c, a, p, b, Encode(Ret));
    Join2(a + p, b, Encode(Ret));
  }

  lemma {:induction false} MoveBytes(rm: RegMap)
    ensures EncodeAll(EntryMoves(rm)) == (if rm[1] != RDI then Encode(MovRR(RDI, rm[1])) else [])
                                        + (Encode(MovRR(RSP, rm[10])) + Encode(AluRI(true, XSub, RSP, STACK_SIZE)))
    ensures EncodeAll(ExitMoves(rm)) == (if rm[0] != RAX then Encode(MovRR(rm[0], RAX)) else [])
                                       + Encode(AluRI(true, XAdd, RSP, STACK_SIZE))
  {
    hide Encode, EncodeAll;
    EncodeNone();
    EncodeFew(MovRR(RDI, rm[1]), Ret, Ret);
    EncodeFew(MovRR(rm[0], RAX), Ret, Ret);
    EncodeFew(MovRR(RSP, rm[10]), AluRI(true, XSub, RSP, STACK_SIZE), Ret);
    EncodeFew(AluRI(true, XAdd, RSP, STACK_SIZE), Ret, Ret);
    EncodeAllAppend(if rm[1] != RDI then [MovRR(RDI, rm[1])] else [],
                    [MovRR(RSP, rm[10]), AluRI(true, XSub, RSP, STACK_SIZE)]);
    EncodeAllAppend(if rm[0] != RAX then [MovRR(rm[0], RAX)] else [], [AluRI(true, XAdd, RSP, STACK_SIZE)]);
  }

  method EmitPrologue(st: JitState, rm: RegMap)
    requires st.Room(|EncodeAll(Prologue(rm))|)
    modifies st`offset, st.buf
    ensures st.Emitted(EncodeAll(Prologue(rm)))
  {
    hide Encode, EncodeAll, Prologue, PushCode, EntryMoves, AluImm32Bytes;
    ghost var c := st.Code();
    FramePieces(rm);
    MoveBytes(rm);
    SubRsp();
    EmitPushes(st);
    ghost var c1 := st.Code();
    ghost var m := if rm[1] != RDI then Encode(MovRR(RDI, rm[1])) else [];
    if rm[1] != RDI {
      st.EmitMov(RDI, rm[1]);
    }
    assert st.Code() == c1 + m;
    st.EmitMov(RSP, rm[10]);
    st.EmitAluImm32(true, 0x81, 5, RSP, STACK_SIZE);
    ghost var e := Encode(MovRR(RSP, rm[10])) + Encode(AluRI(true, XSub, RSP, STACK_SIZE));
    assert st.Code() == c1 + m + e;
    Join2(c1, m, e);
    Join2(c, EncodeAll(PushCode()), m + e);
  }

  lemma {:induction false} SubRsp()
    ensures Encode(AluRI(true, XSub, RSP, STACK_SIZE)) == AluImm32Bytes(true, 0x81, 5, RSP, STACK_SIZE)
    ensures Encode(AluRI(true, XAdd, RSP, STACK_SIZE)) == AluImm32Bytes(true, 0x81, 0, RSP, STACK_SIZE)
    ensures Encode(Ret) == [0xc3]
  {
    hide AluImm32Bytes;
  }

  method EmitEpilogue(st: JitState, rm: RegMap)
    requires st.Room(|EncodeAll(Epilogue(rm))|)
    modifies st`offset, st.buf
    ensures st.Emitted(EncodeAll(Epilogue(rm)))
  {
    hide Encode, EncodeAll, Epilogue, PopCode, ExitMoves, AluImm32Bytes;
    ghost var c := st.Code();
    FramePieces(rm);
    MoveBytes(rm);
    SubRsp();
    ghost var m := if rm[0] != RAX then Encode(MovRR(rm[0], RAX)) else [];
    if rm[0] != RAX {
      st.EmitMov(rm[0], RAX);
    }
    assert st.Code() == c + m;
    st.EmitAluImm32(true, 0x81, 0, RSP, STACK_SIZE);
    Join2(c, m, Encode(AluRI(true, XAdd, RSP, STACK_SIZE)));
    EmitPops(st);
    Join2(c, EncodeAll(ExitMoves(rm)), EncodeAll(PopCode()));
  }

  lemma {:induction false} HandlerBytes(rm: RegMap, link: Link)
    ensures EncodeAll(DivHandler(rm, link).body)
         == (LoadImmBytes(RDI, link.stderrAddr) + LoadImmBytes(RSI, link.formatAddr) + Encode(MovRR(RCX, RDX)))
            + (LoadImmBytes(RAX, link.fprintfAddr) + [0xff, 0xd0] + LoadImmBytes(rm[0], U64(-1)))
  {
    hide LoadImm, LoadImmBytes, EncodeAll;
    var x, y, z := LoadImm(RDI, link.stderrAddr), LoadImm(RSI, link.formatAddr), MovRR(RCX, RDX);
    var u, v := LoadImm(RAX, link.fprintfAddr), LoadImm(rm[0], U64(-1));
    EncodeLoadImm(RDI, link.stderrAddr);
    EncodeLoadImm(RSI, link.formatAddr);
    EncodeLoadImm(RAX, link.fprintfAddr);
    EncodeLoadImm(rm[0], U64(-1));
    EncodeFew(x, y, z);
    EncodeFew(u, CallRax, v);
    EncodeAllAppend([x, y, z], [u, CallRax, v]);
    assert DivHandler(rm, link).body == [x, y, z] + [u, CallRax, v];
  }

  method EmitHandlerArgs(st: JitState, link: Link)
    requires st.Room(|LoadImmBytes(RDI, link.stderrAddr) + LoadImmBytes(RSI, link.formatAddr) + Encode(MovRR(RCX, RDX))|)
    modifies st`offset, st.buf
    ensures st.Emitted(LoadImmBytes(RDI, link.stderrAddr) + LoadImmBytes(RSI, link.formatAddr) + Encode(MovRR(RCX, RDX)))
  {
    hide Encode, LoadImmBytes;
    ghost var c := st.Code();
    ghost var x, y, z := LoadImmBytes(RDI, link.stderrAddr), LoadImmBytes(RSI, link.formatAddr), Encode(MovRR(RCX, RDX));
    st.EmitLoadImm(RDI, link.stderrAddr);
    st.EmitLoadImm(RSI, link.formatAddr);
    st.EmitMov(RCX, RDX);
    Join3(c, x, y, z);
  }

  method EmitHandlerBody(st: JitState, rm: RegMap, link: Link)
    requires st.Room(|EncodeAll(DivHandler(rm, link).body)|)
    modifies st`offset, st.buf
    ensures st.Emitted(EncodeAll(DivHandler(rm, link).body))
  {
    hide Encode, EncodeAll, DivHandler, LoadImmBytes;
    ghost var c := st.Code();
    HandlerBytes(rm, link);
    ghost var a := LoadImmBytes(RDI, link.stderrAddr) + LoadImmBytes(RSI, link.formatAddr) + Encode(MovRR(RCX, RDX));
    ghost var b, e := LoadImmBytes(RAX, link.fprintfAddr) + [0xff, 0xd0], LoadImmBytes(rm[0], U64(-1));
    EmitHandlerArgs(st, link);
    st.EmitCall(link.fprintfAddr);
    st.EmitLoadImm(rm[0], U64(-1));
    Join3(c, a, b, e);
    Join2(a, b, e);
  }

  // ----- the whole program -----

  /** Bytes of the first k slots while every hole is open. */
  function Holes(slots: seq<Slot>, k: nat): (s: seq<byte>)
    requires k <= |slots|
    ensures |s| == Loc(slots, k)
  {
    if k == 0 then [] else Holes(slots, k - 1) + SlotBytes(slots[k - 1], 0)
  }

  /** The records of the first k slots. */
  function Records(slots: seq<Slot>, k: nat): (s: seq<JumpRec>)
    requires k <= |slots|
    ensures |s| <= k
  {
    if k == 0 then [] else Records(slots, k - 1) + JumpsOf(slots[k - 1], Loc(slots, k - 1))
  }

  /** At most one record per instruction, none for the prologue. */
  lemma {:induction false} RecordsBound(slots: seq<Slot>, k: nat)
    requires 0 < k <= |slots| && slots[0].jump.NoJump?
    ensures |Records(slots, k)| < k
  {
    hide SlotLen;
    if k > 1 { RecordsBound(slots, k - 1); }
  }

  lemma {:induction false} NoRecord(slots: seq<Slot>, k: nat)
    requires k < |slots| && slots[k].jump.NoJump?
    ensures Records(slots, k + 1) == Records(slots, k)
  {
    hide SlotLen;
  }

  /** The state after the first k slots. */
  ghost predicate Reached(st: JitState, slots: seq<Slot>, k: nat)
    reads st, st.buf, st.jumps
    requires k <= |slots|
  {
    st.Valid() && st.Code() == Holes(slots, k) && st.Jumps() == Records(slots, k)
  }

  /** pc_locs of the instructions below i; lddw tails keep the initial 0. */
  ghost predicate LocsBelow(prog: seq<Inst>, slots: seq<Slot>, locs: seq<nat>, i: nat)
    requires |slots| == |prog| + 3 && i <= |prog|
  {
    |locs| > |prog| && forall j :: 0 <= j < i && !IsTail(prog, j) ==> locs[j] == Loc(slots, j + 1)
  }

  lemma {:induction false} LocStep(slots: seq<Slot>, k: nat)
    requires k < |slots|
    ensures Loc(slots, k + 1) == Loc(slots, k) + SlotLen(slots[k]) <= Loc(slots, |slots|)
  {
    hide SlotLen;
    LocMono(slots, k + 1, |slots|);
  }

  /** A body without a jump is a slot. */
  lemma {:induction false} BodySlot(s: Slot, at: nat)
    requires s.jump.NoJump?
    ensures SlotBytes(s, 0) == EncodeAll(s.body) && JumpsOf(s, at) == []
  {
    hide EncodeAll;
    assert EncodeAll(s.body) + [] == EncodeAll(s.body);
  }

  lemma {:induction false} ReachedNext(slots: seq<Slot>, k: nat, code: seq<byte>, jumps: seq<JumpRec>)
    requires k < |slots| && code == Holes(slots, k) && jumps == Records(slots, k)
    ensures code + SlotBytes(slots[k], 0) == Holes(slots, k + 1)
    ensures jumps + JumpsOf(slots[k], |code|) == Records(slots, k + 1)
  {
    hide SlotBytes, SlotLen;
  }

  /** Only lddw slots need a second half. */
  predicate LddwComplete(prog: seq<Inst>) {
    forall i :: 0 <= i < |prog| && !IsTail(prog, i) && prog[i].Op().Lddw? ==> i + 1 < |prog|
  }

  /** The switch knows the opcode of every instruction below i. */
  ghost predicate KnownBelow(prog: seq<Inst>, i: nat)
    requires i <= |prog|
  {
    forall j :: 0 <= j < i && !IsTail(prog, j) ==> !prog[j].Op().Unknown?
  }

  method EmitNext(st: JitState, rm: RegMap, link: Link, prog: seq<Inst>, i: nat)
    requires i < |prog| && !IsTail(prog, i) && LddwComplete(prog)
    requires Reached(st, AllSlots(rm, link, prog), i + 1) && CodeSize(rm, link, prog) <= st.buf.Length
    requires |prog| <= st.jumps.Length
    modifies st`offset, st`numJumps, st.buf, st.jumps
    ensures Reached(st, AllSlots(rm, link, prog), i + 2)
    ensures st.exitLoc == old(st.exitLoc) && st.divByZeroLoc == old(st.divByZeroLoc)
  {
    hide AllSlots, SlotOf, SlotLen, Holes, Records, OpOf, IsTail, SlotBytes;
    ghost var slots := AllSlots(rm, link, prog);
    SlotAtIndex(rm, link, prog, i);
    FrameSlots(rm, link, prog);
    RecordsBound(slots, i + 1);
    JumpSlotLen(slots[i + 1]);
    LocStep(slots, i + 1);
    ReachedNext(slots, i + 1, st.Code(), st.Jumps());
    EmitSlot(st, rm, link, prog, i);
  }

  /** The body of the translation loop for the instruction at i. */
  method TranslateOne(st: JitState, rm: RegMap, link: Link, prog: seq<Inst>, i: nat)
    requires i < |prog| && !IsTail(prog, i) && LddwComplete(prog)
    requires Reached(st, AllSlots(rm, link, prog), i + 1) && CodeSize(rm, link, prog) <= st.buf.Length
    requires |prog| <= st.jumps.Length && |prog| < st.pcLocs.Length
    modifies st`offset, st`numJumps, st.buf, st.jumps, st.pcLocs
    ensures Reached(st, AllSlots(rm, link, prog), i + 2)
    ensures st.pcLocs[..] == old(st.pcLocs[..])[i := Loc(AllSlots(rm, link, prog), i + 1)]
    ensures st.exitLoc == old(st.exitLoc) && st.divByZeroLoc == old(st.divByZeroLoc)
  {
    hide AllSlots, SlotOf, SlotLen, Holes, Records, OpOf, IsTail, SlotBytes;
    st.pcLocs[i] := st.offset;
    EmitNext(st, rm, link, prog, i);
  }

  /** The tail of an lddw adds nothing. */
  lemma {:induction false} ReachedTail(st: JitState, slots: seq<Slot>, k: nat)
    requires k < |slots| && slots[k] == Slot([], NoJump) && Reached(st, slots, k)
    ensures Reached(st, slots, k + 1)
  {
    assert SlotBytes(slots[k], 0) == [];
    assert Holes(slots, k) + [] == Holes(slots, k);
    assert Records(slots, k) + [] == Records(slots, k);
  }

  /** Prologue, then every instruction in turn. */
  method TranslateProgram(st: JitState, rm: RegMap, link: Link, prog: seq<Inst>) returns (ok: bool)
    requires LddwComplete(prog) && st.Valid() && st.Code() == [] && st.Jumps() == []
    requires CodeSize(rm, link, prog) <= st.buf.Length && |prog| <= st.jumps.Length && |prog| < st.pcLocs.Length
    modifies st`offset, st`numJumps, st.buf, st.jumps, st.pcLocs
    ensures ok <==> KnownBelow(prog, |prog|)
    ensures ok ==> Reached(st, AllSlots(rm, link, prog), |prog| + 1)
    ensures ok ==> LocsBelow(prog, AllSlots(rm, link, prog), st.pcLocs[..], |prog|)
  {
    hide AllSlots, SlotOf, SlotLen, Holes, Records, OpOf, IsTail, SlotBytes, Prologue;
    ghost var slots := AllSlots(rm, link, prog);
    Begin(st, rm, link, prog);
    var i := 0;
    assert !IsTail(prog, 0) by { ZeroNotTail(prog); }
    while i < |prog|
      invariant 0 <= i <= |prog| && !IsTail(prog, i)
      invariant Reached(st, slots, i + 1)
      invariant KnownBelow(prog, i)
      invariant LocsBelow(prog, slots, st.pcLocs[..], i)
    {
      TranslateOne(st, rm, link, prog, i);
      if prog[i].Op().Unknown? {
        return false;
      }
      NextHead(prog, i);
      if prog[i].Op().Lddw? {
        SlotAtIndex(rm, link, prog, i + 1);
        ReachedTail(st, slots, i + 2);
        i := i + 1;
      }
      i := i + 1;
    }
    return true;
  }

  lemma {:induction false} ZeroNotTail(prog: seq<Inst>)
    ensures !IsTail(prog, 0)
  {
  }

  lemma {:induction false} NextHead(prog: seq<Inst>, i: nat)
    requires i < |prog| && !IsTail(prog, i) && (prog[i].Op().Lddw? ==> i + 1 < |prog|)
    ensures prog[i].Op().Lddw? ==> IsTail(prog, i + 1) && !IsTail(prog, i + 2)
    ensures !prog[i].Op().Lddw? ==> !IsTail(prog, i + 1)
  {
    hide OpOf;
  }

  method Begin(st: JitState, rm: RegMap, link: Link, prog: seq<Inst>)
    requires st.Valid() && st.Code() == [] && st.Jumps() == []
    requires CodeSize(rm, link, prog) <= st.buf.Length
    modifies st`offset, st.buf
    ensures Reached(st, AllSlots(rm, link, prog), 1)
    ensures st.exitLoc == old(st.exitLoc) && st.divByZeroLoc == old(st.divByZeroLoc)
  {
    hide AllSlots, EncodeAll, Prologue;
    ghost var slots := AllSlots(rm, link, prog);
    FrameSlots(rm, link, prog);
    LocStep(slots, 0);
    assert SlotLen(slots[0]) == |EncodeAll(Prologue(rm))|;
    BodySlot(slots[0], 0);
    ReachedNext(slots, 0, [], []);
    EmitPrologue(st, rm);
    assert st.Code() == [] + SlotBytes(slots[0], 0) && st.Jumps() == [] + JumpsOf(slots[0], 0);
  }

  /** Epilogue and division handler. */
  method Finish(st: JitState, rm: RegMap, link: Link, prog: seq<Inst>)
    requires Reached(st, AllSlots(rm, link, prog), |prog| + 1) && CodeSize(rm, link, prog) <= st.buf.Length
    requires |prog| < st.jumps.Length
    modifies st`offset, st`numJumps, st`exitLoc, st`divByZeroLoc, st.buf, st.jumps
    ensures Reached(st, AllSlots(rm, link, prog), |prog| + 3)
    ensures st.exitLoc == Loc(AllSlots(rm, link, prog), |prog| + 1)
    ensures st.divByZeroLoc == Loc(AllSlots(rm, link, prog), |prog| + 2)
  {
    hide AllSlots, EncodeAll, Epilogue, Holes, Records;
    ghost var slots := AllSlots(rm, link, prog);
    var n := |prog|;
    FrameSlots(rm, link, prog);
    st.exitLoc := st.offset;
    FinishEpilogue(st, rm, slots, n);
    st.divByZeroLoc := st.offset;
    RecordsBound(slots, n + 1);
    NoRecord(slots, n + 1);
    FinishHandler(st, rm, link, slots, n);
  }

  method FinishEpilogue(st: JitState, rm: RegMap, ghost slots: seq<Slot>, ghost n: nat)
    requires |slots| == n + 3 && slots[n + 1] == Slot(Epilogue(rm), NoJump)
    requires Reached(st, slots, n + 1) && Loc(slots, n + 3) <= st.buf.Length
    modifies st`offset, st.buf
    ensures Reached(st, slots, n + 2)
    ensures st.exitLoc == old(st.exitLoc) && st.divByZeroLoc == old(st.divByZeroLoc)
  {
    hide EncodeAll, Epilogue, Holes, Records;
    LocStep(slots, n + 1);
    assert SlotLen(slots[n + 1]) == |EncodeAll(Epilogue(rm))|;
    BodySlot(slots[n + 1], st.offset);
    ReachedNext(slots, n + 1, st.Code(), st.Jumps());
    assert st.Jumps() + [] == st.Jumps();
    EmitEpilogue(st, rm);
  }

  method FinishHandler(st: JitState, rm: RegMap, link: Link, ghost slots: seq<Slot>, ghost n: nat)
    requires |slots| == n + 3 && slots[n + 2] == DivHandler(rm, link)
    requires Reached(st, slots, n + 2) && Loc(slots, n + 3) <= st.buf.Length && st.numJumps < st.jumps.Length
    modifies st`offset, st`numJumps, st.buf, st.jumps
    ensures Reached(st, slots, n + 3)
    ensures st.exitLoc == old(st.exitLoc) && st.divByZeroLoc == old(st.divByZeroLoc)
  {
    hide EncodeAll, Holes, Records;
    ghost var s := slots[n + 2];
    LocStep(slots, n + 2);
    JumpSlotLen(s);
    ReachedNext(slots, n + 2, st.Code(), st.Jumps());
    ghost var c := st.Code();
    EmitHandlerBody(st, rm, link);
    ghost var c1 := st.Code();
    EmitJump(st, Always(TARGET_EXIT), s, c1);
    assert st.Code() + [] == st.Code();
    Join2(c, EncodeAll(s.body), Encode(JumpInstr(s.jump, 0)));
  }
}
