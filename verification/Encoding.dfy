/** The byte strings the emit_* functions of ubpf/ubpf_jit_x86_64.h append, and the proof that
    the machine's decoder reads each back as the intended instruction. */
module Encoding {
  import opened Words
  import opened X86

  // ----- what the emitters append -----

  function RexByte(w: bool, r: bool, b: bool): byte {
    0x40 + (if w then 8 else 0) + (if r then 4 else 0) + (if b then 1 else 0)
  }

  /** emit_basic_rex: the prefix is dropped when no bit would be set. */
  function BasicRex(w: bool, src: reg, dst: reg): (s: seq<byte>)
    ensures |s| <= 1
  {
    if w || src >= 8 || dst >= 8 then [RexByte(w, src >= 8, dst >= 8)] else []
  }

  /** emit_modrm; mod is already shifted (0x00, 0x40, 0x80 or 0xc0). */
  function ModRMByte(mod: int, r: reg, m: reg): byte
    requires mod == 0 || mod == 0x40 || mod == 0x80 || mod == 0xc0
  {
    mod + (r % 8) * 8 + m % 8
  }

  /** emit_modrm_and_displacement. */
  function Operand(r: reg, m: reg, d: int32): (s: seq<byte>)
    ensures 1 <= |s| <= 5
  {
    if d == 0 && m % 8 != RBP then [ModRMByte(0, r, m)]
    else if -128 <= d <= 127 then [ModRMByte(0x40, r, m), d % 0x100]
    else [ModRMByte(0x80, r, m)] + ToLE(U32(d), 4)
  }

  /** emit_alu32 and emit_alu64. */
  function AluBytes(w: bool, op: byte, src: reg, dst: reg): (s: seq<byte>)
    ensures 2 <= |s| <= 3
  {
    BasicRex(w, src, dst) + [op, ModRMByte(0xc0, src, dst)]
  }

  /** emit_alu32_imm32 and emit_alu64_imm32. */
  function AluImm32Bytes(w: bool, op: byte, src: reg, dst: reg, imm: int32): (s: seq<byte>)
    ensures 6 <= |s| <= 7
  {
    AluBytes(w, op, src, dst) + ToLE(U32(imm), 4)
  }

  /** emit_alu32_imm8 and emit_alu64_imm8; the immediate is truncated to a byte. */
  function AluImm8Bytes(w: bool, op: byte, src: reg, dst: reg, imm: int32): (s: seq<byte>)
    ensures 3 <= |s| <= 4
  {
    AluBytes(w, op, src, dst) + [imm % 0x100]
  }

  function MovAbsBytes(dst: reg, imm: u64): (s: seq<byte>)
    ensures |s| == 10
  {
    BasicRex(true, 0, dst) + [0xb8 + dst % 8] + ToLE(imm, 8)
  }

  /** emit_load_imm: the short form when the signed value fits in 32 bits. */
  function LoadImmBytes(dst: reg, imm: u64): (s: seq<byte>)
    ensures 6 <= |s| <= 10
  {
    var v := S64(imm);
    if -0x8000_0000 <= v < 0x8000_0000 then AluImm32Bytes(true, 0xc7, 0, dst, v) else MovAbsBytes(dst, imm)
  }

  /** emit_load. */
  function LoadBytesOf(size: Width, src: reg, dst: reg, off: int32): (s: seq<byte>)
    ensures |s| <= 8
  {
    BasicRex(size == B8, dst, src)
    + (if size == B1 then [0x0f, 0xb6] else if size == B2 then [0x0f, 0xb7] else [0x8b])
    + Operand(dst, src, off)
  }

  /** emit_store: the REX prefix is forced for byte stores. */
  function StoreBytesOf(size: Width, src: reg, dst: reg, off: int32): (s: seq<byte>)
    ensures |s| <= 8
  {
    (if size == B2 then [0x66] else [])
    + (if size == B8 || src >= 8 || dst >= 8 || size == B1 then [RexByte(size == B8, src >= 8, dst >= 8)] else [])
    + [if size == B1 then 0x88 else 0x89]
    + Operand(src, dst, off)
  }

  function ImmBytes(size: Width, imm: int32): (s: seq<byte>)
    ensures |s| <= 4
  {
    if size == B1 then [imm % 0x100]
    else if size == B2 then ToLE(imm % 0x1_0000, 2)
    else ToLE(U32(imm), 4)
  }

  /** emit_store_imm32. */
  function StoreImmBytes(size: Width, dst: reg, off: int32, imm: int32): (s: seq<byte>)
    ensures |s| <= 12
  {
    (if size == B2 then [0x66] else [])
    + BasicRex(size == B8, 0, dst)
    + [if size == B1 then 0xc6 else 0xc7]
    + Operand(0, dst, off)
    + ImmBytes(size, imm)
  }

  // ----- encoding an instruction -----

  function OpByte(op: AluOp): byte {
    match op
    case XAdd => 0x01
    case XOr => 0x09
    case XAnd => 0x21
    case XSub => 0x29
    case XXor => 0x31
    case XCmp => 0x39
    case XTest => 0x85
    case XMov => 0x89
  }

  /** Opcode and reg-field extension of the immediate forms. */
  function ImmForm(op: AluOp): (byte, reg) {
    match op
    case XAdd => (0x81, 0)
    case XOr => (0x81, 1)
    case XAnd => (0x81, 4)
    case XSub => (0x81, 5)
    case XXor => (0x81, 6)
    case XCmp => (0x81, 7)
    case XTest => (0xf7, 0)
    case XMov => (0xc7, 0)
  }

  function ShiftExt(sh: ShiftOp): reg {
    match sh
    case XRol => 0
    case XShl => 4
    case XShr => 5
    case XSar => 7
  }

  function CcByte(cc: CC): byte {
    match cc
    case CcE => 0x84
    case CcNE => 0x85
    case CcA => 0x87
    case CcAE => 0x83
    case CcG => 0x8f
    case CcGE => 0x8d
  }

  function Encode(i: Instr): seq<byte> {
    match i
    case Push(r) => BasicRex(false, 0, r) + [0x50 + r % 8]
    case Pop(r) => BasicRex(false, 0, r) + [0x58 + r % 8]
    case AluRR(w, op, src, dst) => AluBytes(w, OpByte(op), src, dst)
    case AluRI(w, op, dst, imm) => AluImm32Bytes(w, ImmForm(op).0, ImmForm(op).1, dst, imm)
    case MovAbs(dst, v) => MovAbsBytes(dst, v)
    case ShiftRI(w, sh, dst, n) => AluImm8Bytes(w, 0xc1, ShiftExt(sh), dst, n)
    case ShiftRC(w, sh, dst) => AluBytes(w, 0xd3, ShiftExt(sh), dst)
    case Rol16(dst, n) => [0x66] + AluImm8Bytes(false, 0xc1, 0, dst, n)
    case NegR(w, dst) => AluBytes(w, 0xf7, 3, dst)
    case MulR(w, dst) => AluBytes(w, 0xf7, 4, dst)
    case DivR(w, dst) => AluBytes(w, 0xf7, 6, dst)
    case Bswap(w, dst) => BasicRex(w, 0, dst) + [0x0f, 0xc8 + dst % 8]
    case LoadM(size, base, disp, dst) => LoadBytesOf(size, base, dst, disp)
    case StoreM(size, src, base, disp) => StoreBytesOf(size, src, base, disp)
    case StoreI(size, base, disp, imm) => StoreImmBytes(size, base, disp, imm)
    case CallRax => [0xff, 0xd0]
    case Jmp(rel) => [0xe9] + ToLE(U32(rel), 4)
    case Jcc(cc, rel) => [0x0f, CcByte(cc)] + ToLE(U32(rel), 4)
    case Ret => [0xc3]
  }

  /** Instructions with exactly one encoding here: a memory base that needs no SIB byte (its low
      bits are not those of RSP), and a stored immediate no wider than the store. */
  predicate Encodable(i: Instr) {
    match i
    case LoadM(_, base, _, _) => base % 8 != RSP
    case StoreM(_, _, base, _) => base % 8 != RSP
    case StoreI(size, base, _, imm) =>
      base % 8 != RSP && (size == B1 ==> 0 <= imm < 0x100) && (size == B2 ==> 0 <= imm < 0x1_0000)
    case _ => true
  }

  // ----- reading it back -----

  function RexOf(w: bool, src: reg, dst: reg): Rex {
    if w || src >= 8 || dst >= 8 then RexBits(w, src >= 8, dst >= 8) else NoRex
  }

  lemma {:induction false} RexRegs(w: bool, src: reg, dst: reg)
    ensures RexW(RexOf(w, src, dst)) == w
    ensures Ext(RexR(RexOf(w, src, dst)), src % 8) == src
    ensures Ext(RexB(RexOf(w, src, dst)), dst % 8) == dst
  {
  }

  lemma {:induction false} ParseRexByte(w: bool, r: bool, b: bool)
    ensures 0x40 <= RexByte(w, r, b) < 0x50
    ensures ParseRex(RexByte(w, r, b)) == RexBits(w, r, b)
  {
  }

  /** The optional prefix is consumed and remembered. */
  lemma {:induction false} DecodeBasicRex(o16: bool, w: bool, src: reg, dst: reg, t: seq<byte>, n: nat)
    requires |t| > 0 && !(0x40 <= t[0] < 0x50)
    ensures DecodeRex(o16, BasicRex(w, src, dst) + t, n)
         == DecodeOpcode(o16, RexOf(w, src, dst), t, n + |BasicRex(w, src, dst)|)
  {
    hide DecodeOpcode;
    var s := BasicRex(w, src, dst) + t;
    if w || src >= 8 || dst >= 8 {
      ParseRexByte(w, src >= 8, dst >= 8);
      assert s[0] == RexByte(w, src >= 8, dst >= 8);
      assert s[1..] == t;
    } else {
      assert s == t;
    }
  }

  /** No operand-size prefix: BasicRex followed by an opcode. */
  lemma {:induction false} DecodePlain(w: bool, src: reg, dst: reg, t: seq<byte>)
    requires |t| > 0 && !(0x40 <= t[0] < 0x50) && t[0] != 0x66
    ensures Decode(BasicRex(w, src, dst) + t)
         == DecodeOpcode(false, RexOf(w, src, dst), t, |BasicRex(w, src, dst)|)
  {
    hide DecodeOpcode;
    DecodeBasicRex(false, w, src, dst, t, 0);
    ParseRexByte(w, src >= 8, dst >= 8);
    var s := BasicRex(w, src, dst) + t;
    assert s[0] != 0x66;
  }

  lemma {:induction false} Decode16(w: bool, src: reg, dst: reg, t: seq<byte>)
    requires |t| > 0 && !(0x40 <= t[0] < 0x50)
    ensures Decode([0x66] + (BasicRex(w, src, dst) + t))
         == DecodeOpcode(true, RexOf(w, src, dst), t, 1 + |BasicRex(w, src, dst)|)
  {
    hide DecodeOpcode;
    DecodeBasicRex(true, w, src, dst, t, 1);
    var s := [0x66] + (BasicRex(w, src, dst) + t);
    assert s[1..] == BasicRex(w, src, dst) + t;
  }

  lemma {:induction false} ByteFields(k: nat, a: nat, b: nat)
    requires a < 8 && b < 8
    ensures (64 * k + 8 * a + b) / 64 == k
    ensures ((64 * k + 8 * a + b) / 8) % 8 == a
    ensures (64 * k + 8 * a + b) % 8 == b
  {
    var x := 64 * k + 8 * a + b;
    assert x / 8 == 8 * k + a;
  }

  lemma {:induction false} ModRMFields(mod: int, r: reg, m: reg)
    requires mod == 0 || mod == 0x40 || mod == 0x80 || mod == 0xc0
    ensures ModRMByte(mod, r, m) / 64 == mod / 64
    ensures (ModRMByte(mod, r, m) / 8) % 8 == r % 8
    ensures ModRMByte(mod, r, m) % 8 == m % 8
  {
    ByteFields(mod / 64, r % 8, m % 8);
  }

  lemma {:induction false} ParseReg(r: reg, m: reg, rest: seq<byte>)
    ensures ParseModRM([ModRMByte(0xc0, r, m)] + rest) == RegOperand(r % 8, m % 8)
  {
    ModRMFields(0xc0, r, m);
    hide ModRMByte;
  }

  lemma {:induction false} Imm32RoundTrip(x: int32, rest: seq<byte>)
    ensures Imm32(ToLE(U32(x), 4) + rest) == x
  {
    LE4(U32(x));
    S32OfU32(x);
    assert (ToLE(U32(x), 4) + rest)[..4] == ToLE(U32(x), 4);
  }

  lemma {:induction false} Disp8RoundTrip(d: int32)
    requires -128 <= d <= 127
    ensures Disp8(d % 0x100) == d
  {
  }

  /** Memory operands, including RBP/R13 with zero displacement and both displacement sizes. */
  lemma {:induction false} ParseOperand(r: reg, m: reg, d: int32, rest: seq<byte>)
    requires m % 8 != RSP
    ensures ParseModRM(Operand(r, m, d) + rest) == MemOperand(r % 8, m % 8, d, |Operand(r, m, d)|)
  {
    hide ModRMByte, Disp8, Imm32, ToLE;
    var s := Operand(r, m, d) + rest;
    if d == 0 && m % 8 != RBP {
      ModRMFields(0, r, m);
    } else if -128 <= d <= 127 {
      ModRMFields(0x40, r, m);
      Disp8RoundTrip(d);
    } else {
      ModRMFields(0x80, r, m);
      Imm32RoundTrip(d, rest);
      assert s[1..] == ToLE(U32(d), 4) + rest;
    }
  }

  // ----- round trip, by instruction form -----

  lemma {:induction false} RoundTripShort(i: Instr, rest: seq<byte>)
    requires i.Push? || i.Pop? || i.CallRax? || i.Ret?
    ensures Decode(Encode(i) + rest) == Good(i, |Encode(i)|)
  {
    match i
    case Push(r) =>
      var t := [0x50 + r % 8] + rest;
      RexRegs(false, 0, r);
      DecodePlain(false, 0, r, t);
      assert Encode(i) + rest == BasicRex(false, 0, r) + t;
    case Pop(r) =>
      var t := [0x58 + r % 8] + rest;
      RexRegs(false, 0, r);
      DecodePlain(false, 0, r, t);
      assert Encode(i) + rest == BasicRex(false, 0, r) + t;
    case CallRax =>
    case Ret =>
  }

  lemma {:induction false} RoundTripJump(i: Instr, rest: seq<byte>)
    requires i.Jmp? || i.Jcc?
    ensures Decode(Encode(i) + rest) == Good(i, |Encode(i)|)
  {
    hide Imm32, ToLE;
    var s := Encode(i) + rest;
    match i
    case Jmp(rel) =>
      Imm32RoundTrip(rel, rest);
      assert s[1..] == ToLE(U32(rel), 4) + rest;
    case Jcc(cc, rel) =>
      Imm32RoundTrip(rel, rest);
      assert s[1..][1..] == ToLE(U32(rel), 4) + rest;
      assert s[1..][0] == CcByte(cc);
      assert CcOf(CcByte(cc)) == (true, cc);
  }

  lemma {:induction false} OpcodeOfAluRR(x: Rex, op: AluOp, src: reg, dst: reg, rest: seq<byte>, n: nat)
    ensures DecodeOpcode(false, x, [OpByte(op), ModRMByte(0xc0, src, dst)] + rest, n)
         == Good(AluRR(RexW(x), op, Ext(RexR(x), src % 8), Ext(RexB(x), dst % 8)), n + 2)
  {
    var t := [OpByte(op), ModRMByte(0xc0, src, dst)] + rest;
    assert t[1..] == [ModRMByte(0xc0, src, dst)] + rest;
    ParseReg(src, dst, rest);
    assert OpcodeRR(OpByte(op)) == (true, op);
    hide ModRMByte, ParseModRM, Ext;
  }

  lemma {:induction false} RoundTripAluRR(w: bool, op: AluOp, src: reg, dst: reg, rest: seq<byte>)
    ensures Decode(Encode(AluRR(w, op, src, dst)) + rest) == Good(AluRR(w, op, src, dst), |Encode(AluRR(w, op, src, dst))|)
  {
    hide Decode, DecodeOpcode, BasicRex, RexOf, Ext, RexW, RexR, RexB, ModRMByte, ToLE, Operand;
    var t := [OpByte(op), ModRMByte(0xc0, src, dst)] + rest;
    RexRegs(w, src, dst);
    DecodePlain(w, src, dst, t);
    OpcodeOfAluRR(RexOf(w, src, dst), op, src, dst, rest, |BasicRex(w, src, dst)|);
    assert Encode(AluRR(w, op, src, dst)) + rest == BasicRex(w, src, dst) + t;
  }

  lemma {:induction false} OpcodeOfAluRI(x: Rex, op: AluOp, dst: reg, imm: int32, rest: seq<byte>, n: nat)
    ensures DecodeOpcode(false, x, [ImmForm(op).0, ModRMByte(0xc0, ImmForm(op).1, dst)] + (ToLE(U32(imm), 4) + rest), n)
         == Good(AluRI(RexW(x), op, Ext(RexB(x), dst % 8), imm), n + 6)
  {
    hide Imm32, ToLE, ModRMByte, Ext;
    var t := [ImmForm(op).0, ModRMByte(0xc0, ImmForm(op).1, dst)] + (ToLE(U32(imm), 4) + rest);
    var u := ToLE(U32(imm), 4) + rest;
    assert t[1..] == [ModRMByte(0xc0, ImmForm(op).1, dst)] + u;
    assert t[1..][1..] == u;
    ParseReg(ImmForm(op).1, dst, u);
    Imm32RoundTrip(imm, rest);
    hide ParseModRM;
  }

  lemma {:induction false} RoundTripAluRI(i: Instr, rest: seq<byte>)
    requires i.AluRI?
    ensures Decode(Encode(i) + rest) == Good(i, |Encode(i)|)
  {
    hide Decode, DecodeOpcode, BasicRex, RexOf, Ext, RexW, RexR, RexB, ModRMByte, ToLE, Operand;
    var AluRI(w, op, dst, imm) := i;
    var ext := ImmForm(op).1;
    var u := ToLE(U32(imm), 4) + rest;
    var t := [ImmForm(op).0, ModRMByte(0xc0, ext, dst)] + u;
    RexRegs(w, ext, dst);
    DecodePlain(w, ext, dst, t);
    OpcodeOfAluRI(RexOf(w, ext, dst), op, dst, imm, rest, |BasicRex(w, ext, dst)|);
    assert Encode(i) + rest == BasicRex(w, ext, dst) + t;
  }

  lemma {:induction false} OpcodeOfMovAbs(x: Rex, dst: reg, v: u64, rest: seq<byte>, n: nat)
    requires RexW(x)
    ensures DecodeOpcode(false, x, [0xb8 + dst % 8] + (ToLE(v, 8) + rest), n)
         == Good(MovAbs(Ext(RexB(x), dst % 8), v), n + 9)
  {
    hide ToLE, Ext;
    var t := [0xb8 + dst % 8] + (ToLE(v, 8) + rest);
    assert t[1..9] == ToLE(v, 8);
    LE8(v);
  }

  lemma {:induction false} RoundTripMovAbs(dst: reg, v: u64, rest: seq<byte>)
    ensures Decode(Encode(MovAbs(dst, v)) + rest) == Good(MovAbs(dst, v), |Encode(MovAbs(dst, v))|)
  {
    hide Decode, DecodeOpcode, BasicRex, RexOf, Ext, RexW, RexR, RexB, ModRMByte, ToLE, Operand;
    var t := [0xb8 + dst % 8] + (ToLE(v, 8) + rest);
    RexRegs(true, 0, dst);
    DecodePlain(true, 0, dst, t);
    OpcodeOfMovAbs(RexOf(true, 0, dst), dst, v, rest, |BasicRex(true, 0, dst)|);
    assert Encode(MovAbs(dst, v)) + rest == BasicRex(true, 0, dst) + t;
  }

  lemma {:induction false} OpcodeOfShift(o16: bool, x: Rex, sh: ShiftOp, dst: reg, b: byte, rest: seq<byte>, n: nat)
    requires o16 ==> sh.XRol? && !RexW(x)
    ensures DecodeOpcode(o16, x, [0xc1, ModRMByte(0xc0, ShiftExt(sh), dst)] + ([b] + rest), n)
         == Good(if o16 then Rol16(Ext(RexB(x), dst % 8), b) else ShiftRI(RexW(x), sh, Ext(RexB(x), dst % 8), b), n + 3)
    ensures !o16 ==>
      DecodeOpcode(o16, x, [0xd3, ModRMByte(0xc0, ShiftExt(sh), dst)] + rest, n)
         == Good(ShiftRC(RexW(x), sh, Ext(RexB(x), dst % 8)), n + 2)
  {
    hide ModRMByte, Ext;
    var t := [0xc1, ModRMByte(0xc0, ShiftExt(sh), dst)] + ([b] + rest);
    assert t[1..] == [ModRMByte(0xc0, ShiftExt(sh), dst)] + ([b] + rest);
    ParseReg(ShiftExt(sh), dst, [b] + rest);
    var t' := [0xd3, ModRMByte(0xc0, ShiftExt(sh), dst)] + rest;
    assert t'[1..] == [ModRMByte(0xc0, ShiftExt(sh), dst)] + rest;
    ParseReg(ShiftExt(sh), dst, rest);
    hide ParseModRM;
  }

  lemma {:induction false} EncodeShiftSplit(w: bool, sh: ShiftOp, dst: reg, b: byte, rest: seq<byte>)
    ensures Encode(ShiftRI(w, sh, dst, b)) + rest
         == BasicRex(w, ShiftExt(sh), dst) + ([0xc1, ModRMByte(0xc0, ShiftExt(sh), dst)] + ([b] + rest))
    ensures |Encode(ShiftRI(w, sh, dst, b))| == |BasicRex(w, ShiftExt(sh), dst)| + 3
  {
    hide BasicRex, ModRMByte, ShiftExt;
  }

  lemma {:induction false} RoundTripShiftRI(w: bool, sh: ShiftOp, dst: reg, b: byte, rest: seq<byte>)
    ensures Decode(Encode(ShiftRI(w, sh, dst, b)) + rest) == Good(ShiftRI(w, sh, dst, b), |Encode(ShiftRI(w, sh, dst, b))|)
  {
    hide Decode, DecodeOpcode, Encode, BasicRex, RexOf, Ext, RexW, RexR, RexB, ModRMByte;
    var e := ShiftExt(sh);
    var t := [0xc1, ModRMByte(0xc0, e, dst)] + ([b] + rest);
    RexRegs(w, e, dst);
    DecodePlain(w, e, dst, t);
    OpcodeOfShift(false, RexOf(w, e, dst), sh, dst, b, rest, |BasicRex(w, e, dst)|);
    EncodeShiftSplit(w, sh, dst, b, rest);
  }

  lemma {:induction false} RoundTripShiftRC(w: bool, sh: ShiftOp, dst: reg, rest: seq<byte>)
    ensures Decode(Encode(ShiftRC(w, sh, dst)) + rest) == Good(ShiftRC(w, sh, dst), |Encode(ShiftRC(w, sh, dst))|)
  {
    hide Decode, DecodeOpcode, BasicRex, RexOf, Ext, RexW, RexR, RexB, ModRMByte;
    var e := ShiftExt(sh);
    var t := [0xd3, ModRMByte(0xc0, e, dst)] + rest;
    RexRegs(w, e, dst);
    DecodePlain(w, e, dst, t);
    OpcodeOfShift(false, RexOf(w, e, dst), sh, dst, 0, rest, |BasicRex(w, e, dst)|);
    assert Encode(ShiftRC(w, sh, dst)) + rest == BasicRex(w, e, dst) + t;
  }

  lemma {:induction false} RoundTripRol16(dst: reg, b: byte, rest: seq<byte>)
    ensures Decode(Encode(Rol16(dst, b)) + rest) == Good(Rol16(dst, b), |Encode(Rol16(dst, b))|)
  {
    hide Decode, DecodeOpcode, BasicRex, RexOf, Ext, RexW, RexR, RexB, ModRMByte, ToLE, Operand;
    var t := [0xc1, ModRMByte(0xc0, 0, dst)] + ([b] + rest);
    RexRegs(false, 0, dst);
    Decode16(false, 0, dst, t);
    OpcodeOfShift(true, RexOf(false, 0, dst), XRol, dst, b, rest, 1 + |BasicRex(false, 0, dst)|);
    assert Encode(Rol16(dst, b)) + rest == [0x66] + (BasicRex(false, 0, dst) + t);
  }

  function UnaryExt(i: Instr): reg { if i.NegR? then 3 else if i.MulR? then 4 else 6 }

  function UnaryOf(w: bool, e: reg, dst: reg): Instr {
    if e == 3 then NegR(w, dst) else if e == 4 then MulR(w, dst) else DivR(w, dst)
  }

  lemma {:induction false} OpcodeOfUnary(x: Rex, e: reg, dst: reg, rest: seq<byte>, n: nat)
    requires e == 3 || e == 4 || e == 6
    ensures DecodeOpcode(false, x, [0xf7, ModRMByte(0xc0, e, dst)] + rest, n)
         == Good(UnaryOf(RexW(x), e, Ext(RexB(x), dst % 8)), n + 2)
  {
    hide ModRMByte, Ext;
    var t := [0xf7, ModRMByte(0xc0, e, dst)] + rest;
    assert t[1..] == [ModRMByte(0xc0, e, dst)] + rest;
    ParseReg(e, dst, rest);
    hide ParseModRM;
  }

  lemma {:induction false} RoundTripUnary(i: Instr, rest: seq<byte>)
    requires i.NegR? || i.MulR? || i.DivR?
    ensures Decode(Encode(i) + rest) == Good(i, |Encode(i)|)
  {
    hide Decode, DecodeOpcode, BasicRex, RexOf, Ext, RexW, RexR, RexB, ModRMByte, ToLE, Operand;
    var e := UnaryExt(i);
    var t := [0xf7, ModRMByte(0xc0, e, i.dst)] + rest;
    RexRegs(i.w, e, i.dst);
    DecodePlain(i.w, e, i.dst, t);
    OpcodeOfUnary(RexOf(i.w, e, i.dst), e, i.dst, rest, |BasicRex(i.w, e, i.dst)|);
    assert Encode(i) + rest == BasicRex(i.w, e, i.dst) + t;
    assert i == UnaryOf(i.w, e, i.dst);
  }

  lemma {:induction false} RoundTripBswap(w: bool, dst: reg, rest: seq<byte>)
    ensures Decode(Encode(Bswap(w, dst)) + rest) == Good(Bswap(w, dst), |Encode(Bswap(w, dst))|)
  {
    var t := [0x0f, 0xc8 + dst % 8] + rest;
    RexRegs(w, 0, dst);
    DecodePlain(w, 0, dst, t);
    assert Encode(Bswap(w, dst)) + rest == BasicRex(w, 0, dst) + t;
    hide Decode, BasicRex, RexOf, Ext, RexW, RexR, RexB, Encode;
    assert t[1..][0] == 0xc8 + dst % 8;
  }

  lemma {:induction false} OpcodeOfLoad(x: Rex, size: Width, base: reg, dst: reg, d: int32, rest: seq<byte>, n: nat)
    requires base % 8 != RSP && RexW(x) == (size == B8)
    ensures DecodeOpcode(false, x, (if size == B1 then [0x0f, 0xb6] else if size == B2 then [0x0f, 0xb7] else [0x8b])
                                   + (Operand(dst, base, d) + rest), n)
         == Good(LoadM(size, Ext(RexB(x), base % 8), d, Ext(RexR(x), dst % 8)),
                 n + (if size == B1 || size == B2 then 2 else 1) + |Operand(dst, base, d)|)
  {
    hide ModRMByte, Ext;
    var o := Operand(dst, base, d) + rest;
    var t := (if size == B1 then [0x0f, 0xb6] else if size == B2 then [0x0f, 0xb7] else [0x8b]) + o;
    ParseOperand(dst, base, d, rest);
    hide ParseModRM, Operand;
    if size == B1 || size == B2 {
      assert t[1..][1..] == o;
    } else {
      assert t[1..] == o;
    }
  }

  function LoadTail(i: Instr, rest: seq<byte>): (t: seq<byte>)
    requires i.LoadM?
    ensures |t| > 0 && (t[0] == 0x0f || t[0] == 0x8b)
  {
    (if i.size == B1 then [0x0f, 0xb6] else if i.size == B2 then [0x0f, 0xb7] else [0x8b])
    + (Operand(i.dst, i.base, i.disp) + rest)
  }

  lemma {:induction false} EncodeLoadSplit(i: Instr, rest: seq<byte>)
    requires i.LoadM?
    ensures Encode(i) + rest == BasicRex(i.size == B8, i.dst, i.base) + LoadTail(i, rest)
    ensures |Encode(i)| == |BasicRex(i.size == B8, i.dst, i.base)|
                           + (if i.size == B1 || i.size == B2 then 2 else 1) + |Operand(i.dst, i.base, i.disp)|
  {
    hide BasicRex, Operand;
  }

  lemma {:induction false} RoundTripLoad(i: Instr, rest: seq<byte>)
    requires i.LoadM? && Encodable(i)
    ensures Decode(Encode(i) + rest) == Good(i, |Encode(i)|)
  {
    var LoadM(size, base, d, dst) := i;
    EncodeLoadSplit(i, rest);
    RexRegs(size == B8, dst, base);
    hide Decode, DecodeOpcode, Encode, BasicRex, RexOf, Ext, RexW, RexR, RexB, Operand;
    DecodePlain(size == B8, dst, base, LoadTail(i, rest));
    OpcodeOfLoad(RexOf(size == B8, dst, base), size, base, dst, d, rest, |BasicRex(size == B8, dst, base)|);
  }

  lemma {:induction false} OpcodeOfStore(o16: bool, x: Rex, size: Width, src: reg, base: reg, d: int32, rest: seq<byte>, n: nat)
    requires base % 8 != RSP && RexW(x) == (size == B8) && o16 == (size == B2) && (size == B1 ==> x.RexBits?)
    ensures DecodeOpcode(o16, x, [if size == B1 then 0x88 else 0x89] + (Operand(src, base, d) + rest), n)
         == Good(StoreM(size, Ext(RexR(x), src % 8), Ext(RexB(x), base % 8), d), n + 1 + |Operand(src, base, d)|)
  {
    hide ModRMByte, Ext;
    var o := Operand(src, base, d) + rest;
    var t := [if size == B1 then 0x88 else 0x89] + o;
    ParseOperand(src, base, d, rest);
    hide ParseModRM, Operand;
    assert t[1..] == o;
  }

  lemma {:induction false} DecodeForcedRex(r: reg, b: reg, t: seq<byte>)
    requires |t| > 0
    ensures Decode([RexByte(false, r >= 8, b >= 8)] + t) == DecodeOpcode(false, RexBits(false, r >= 8, b >= 8), t, 1)
  {
    hide DecodeOpcode;
    ParseRexByte(false, r >= 8, b >= 8);
    assert ([RexByte(false, r >= 8, b >= 8)] + t)[1..] == t;
  }

  function StoreTail(i: Instr, rest: seq<byte>): (t: seq<byte>)
    requires i.StoreM?
    ensures |t| > 0 && t[0] == if i.size == B1 then 0x88 else 0x89
  {
    [if i.size == B1 then 0x88 else 0x89] + (Operand(i.src, i.base, i.disp) + rest)
  }

  lemma {:induction false} EncodeStoreSplit(i: Instr, rest: seq<byte>)
    requires i.StoreM?
    ensures i.size == B1 ==>
      Encode(i) + rest == [RexByte(false, i.src >= 8, i.base >= 8)] + StoreTail(i, rest)
    ensures i.size == B2 ==>
      Encode(i) + rest == [0x66] + (BasicRex(false, i.src, i.base) + StoreTail(i, rest))
    ensures i.size == B4 || i.size == B8 ==>
      Encode(i) + rest == BasicRex(i.size == B8, i.src, i.base) + StoreTail(i, rest)
  {
    hide RexByte, Operand;
  }

  lemma {:induction false} RoundTripStore(i: Instr, rest: seq<byte>)
    requires i.StoreM? && Encodable(i)
    ensures Decode(Encode(i) + rest) == Good(i, |Encode(i)|)
  {
    var StoreM(size, src, base, d) := i;
    var w, t := size == B8, StoreTail(i, rest);
    EncodeStoreSplit(i, rest);
    RexRegs(w, src, base);
    var n := |BasicRex(w, src, base)|;
    hide Decode, DecodeOpcode, Encode, BasicRex, Operand, RexByte;
    if size == B1 {
      DecodeForcedRex(src, base, t);
      OpcodeOfStore(false, RexBits(false, src >= 8, base >= 8), size, src, base, d, rest, 1);
    } else if size == B2 {
      Decode16(w, src, base, t);
      OpcodeOfStore(true, RexOf(w, src, base), size, src, base, d, rest, 1 + n);
    } else {
      DecodePlain(w, src, base, t);
      OpcodeOfStore(false, RexOf(w, src, base), size, src, base, d, rest, n);
    }
  }

  /** The bytes after the operand of a store-immediate, as the decoder reads them. */
  lemma {:induction false} ImmBytesRead(size: Width, imm: int32, rest: seq<byte>)
    requires (size == B1 ==> 0 <= imm < 0x100) && (size == B2 ==> 0 <= imm < 0x1_0000)
    ensures |ImmBytes(size, imm)| == if size == B1 then 1 else if size == B2 then 2 else 4
    ensures size == B1 ==> (ImmBytes(size, imm) + rest)[0] == imm
    ensures size == B2 ==> FromLE((ImmBytes(size, imm) + rest)[0..2]) % 0x1_0000 == imm
    ensures size != B1 && size != B2 ==> Imm32(ImmBytes(size, imm) + rest) == imm
  {
    if size == B2 {
      Pow2Facts();
      FromToLE(imm, 2);
      assert (ImmBytes(size, imm) + rest)[0..2] == ToLE(imm, 2);
    } else if size != B1 {
      Imm32RoundTrip(imm, rest);
    }
  }

  lemma {:induction false} OpcodeOfStoreI(o16: bool, x: Rex, size: Width, base: reg, d: int32, imm: int32, rest: seq<byte>, n: nat)
    requires base % 8 != RSP && RexW(x) == (size == B8) && o16 == (size == B2)
    requires (size == B1 ==> 0 <= imm < 0x100) && (size == B2 ==> 0 <= imm < 0x1_0000)
    ensures DecodeOpcode(o16, x, [if size == B1 then 0xc6 else 0xc7] + (Operand(0, base, d) + (ImmBytes(size, imm) + rest)), n)
         == Good(StoreI(size, Ext(RexB(x), base % 8), d, imm), n + 1 + |Operand(0, base, d)| + |ImmBytes(size, imm)|)
  {
    hide ModRMByte, Ext;
    var u := ImmBytes(size, imm) + rest;
    var o := Operand(0, base, d) + u;
    var t := [if size == B1 then 0xc6 else 0xc7] + o;
    ImmBytesRead(size, imm, rest);
    ParseOperand(0, base, d, u);
    hide ParseModRM, Operand, ImmBytes, Imm32, FromLE;
    var l := |Operand(0, base, d)|;
    assert t[1..] == o;
    assert o[l..] == u;
    assert size == B1 ==> o[l] == u[0];
    if size == B2 {
      assert o[l..l + 2] == o[l..][0..2];
    }
  }

  function StoreITail(i: Instr, rest: seq<byte>): (t: seq<byte>)
    requires i.StoreI?
    ensures |t| > 0 && t[0] == if i.size == B1 then 0xc6 else 0xc7
  {
    [if i.size == B1 then 0xc6 else 0xc7] + (Operand(0, i.base, i.disp) + (ImmBytes(i.size, i.imm) + rest))
  }

  lemma {:induction false} EncodeStoreISplit(i: Instr, rest: seq<byte>)
    requires i.StoreI?
    ensures i.size == B2 ==>
      Encode(i) + rest == [0x66] + (BasicRex(false, 0, i.base) + StoreITail(i, rest))
    ensures i.size != B2 ==>
      Encode(i) + rest == BasicRex(i.size == B8, 0, i.base) + StoreITail(i, rest)
  {
    hide RexByte, Operand, ImmBytes;
  }

  lemma {:induction false} RoundTripStoreI(i: Instr, rest: seq<byte>)
    requires i.StoreI? && Encodable(i)
    ensures Decode(Encode(i) + rest) == Good(i, |Encode(i)|)
  {
    var StoreI(size, base, d, imm) := i;
    var w, t := size == B8, StoreITail(i, rest);
    EncodeStoreISplit(i, rest);
    RexRegs(w, 0, base);
    var n := |BasicRex(w, 0, base)|;
    hide Decode, DecodeOpcode, Encode, BasicRex, Operand, ImmBytes;
    if size == B2 {
      Decode16(w, 0, base, t);
      OpcodeOfStoreI(true, RexOf(w, 0, base), size, base, d, imm, rest, 1 + n);
    } else {
      DecodePlain(w, 0, base, t);
      OpcodeOfStoreI(false, RexOf(w, 0, base), size, base, d, imm, rest, n);
    }
  }

  /** Every encodable instruction is read back exactly, whatever bytes follow it. */
  lemma {:induction false} DecodeEncode(i: Instr, rest: seq<byte>)
    requires Encodable(i)
    ensures Decode(Encode(i) + rest) == Good(i, |Encode(i)|)
  {
    hide Decode, Encode;
    match i
    case AluRR(w, op, src, dst) => RoundTripAluRR(w, op, src, dst, rest);
    case AluRI(_, _, _, _) => RoundTripAluRI(i, rest);
    case MovAbs(dst, v) => RoundTripMovAbs(dst, v, rest);
    case ShiftRI(w, sh, dst, b) => RoundTripShiftRI(w, sh, dst, b, rest);
    case ShiftRC(w, sh, dst) => RoundTripShiftRC(w, sh, dst, rest);
    case Rol16(dst, n) => RoundTripRol16(dst, n, rest);
    case NegR(_, _) => RoundTripUnary(i, rest);
    case MulR(_, _) => RoundTripUnary(i, rest);
    case DivR(_, _) => RoundTripUnary(i, rest);
    case Bswap(w, dst) => RoundTripBswap(w, dst, rest);
    case LoadM(_, _, _, _) => RoundTripLoad(i, rest);
    case StoreM(_, _, _, _) => RoundTripStore(i, rest);
    case StoreI(_, _, _, _) => RoundTripStoreI(i, rest);
    case Jmp(_) => RoundTripJump(i, rest);
    case Jcc(_, _) => RoundTripJump(i, rest);
    case _ => RoundTripShort(i, rest);
  }
}
