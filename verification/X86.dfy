/** The x86-64 machine that runs the compiled code: a byte decoder for the instructions the
    compiler emits (Intel SDM volume 2A, sections 2.1 and 2.2.1) and their effect. Anything else
    does not decode. Code bytes are apart from data memory: the mapping holding them is not
    writable once compiled. */
module X86 {
  import opened Words

  type reg = x: int | 0 <= x < 16

  const RAX: reg := 0
  const RCX: reg := 1
  const RDX: reg := 2
  const RBX: reg := 3
  const RSP: reg := 4
  const RBP: reg := 5
  const RSI: reg := 6
  const RDI: reg := 7
  const R8: reg := 8
  const R9: reg := 9
  const R13: reg := 13
  const R14: reg := 14
  const R15: reg := 15

  datatype AluOp = XAdd | XOr | XAnd | XSub | XXor | XCmp | XTest | XMov
  datatype ShiftOp = XRol | XShl | XShr | XSar
  datatype CC = CcE | CcNE | CcA | CcAE | CcG | CcGE
  datatype Width = B1 | B2 | B4 | B8

  datatype Instr =
    | Push(r: reg)
    | Pop(r: reg)
    | AluRR(w: bool, op: AluOp, src: reg, dst: reg)
    | AluRI(w: bool, op: AluOp, dst: reg, imm: int32)
    | MovAbs(dst: reg, imm64: u64)
    | ShiftRI(w: bool, sh: ShiftOp, dst: reg, imm8: byte)
    | ShiftRC(w: bool, sh: ShiftOp, dst: reg)
    | Rol16(dst: reg, imm8: byte)
    | NegR(w: bool, dst: reg)
    | MulR(w: bool, dst: reg)
    | DivR(w: bool, dst: reg)
    | Bswap(w: bool, dst: reg)
    | LoadM(size: Width, base: reg, disp: int32, dst: reg)
    | StoreM(size: Width, src: reg, base: reg, disp: int32)
    | StoreI(size: Width, base: reg, disp: int32, imm: int32)
    | CallRax
    | Jmp(rel: int32)
    | Jcc(cc: CC, rel: int32)
    | Ret

  function WidthBytes(s: Width): (n: nat)
    ensures n == 1 || n == 2 || n == 4 || n == 8
  {
    match s
    case B1 => 1
    case B2 => 2
    case B4 => 4
    case B8 => 8
  }

  // ----- decoding -----

  datatype Decoded = Bad | Good(i: Instr, len: nat)

  datatype Rex = NoRex | RexBits(w: bool, r: bool, b: bool)

  /** A register number from the three low bits and a REX extension bit. */
  function Ext(hi: bool, lo: int): reg
    requires 0 <= lo < 8
  {
    if hi then 8 + lo else lo
  }

  function RexW(x: Rex): bool { x.RexBits? && x.w }
  function RexR(x: Rex): bool { x.RexBits? && x.r }
  function RexB(x: Rex): bool { x.RexBits? && x.b }

  function Imm32(s: seq<byte>): int32
    requires |s| >= 4
  {
    S32(FromLE(s[..4]))
  }

  function Disp8(b: byte): int32 {
    var x: int := b;
    if x < 128 then x else x - 256
  }

  /** MR-encoded register-to-register operations. */
  function OpcodeRR(op: byte): (r: (bool, AluOp)) {
    if op == 0x01 then (true, XAdd) else if op == 0x09 then (true, XOr)
    else if op == 0x21 then (true, XAnd) else if op == 0x29 then (true, XSub)
    else if op == 0x31 then (true, XXor) else if op == 0x39 then (true, XCmp)
    else if op == 0x85 then (true, XTest) else if op == 0x89 then (true, XMov)
    else (false, XMov)
  }

  /** Opcode 81: the operation is in the reg field. */
  function Ext81(e: int): (bool, AluOp) {
    if e == 0 then (true, XAdd) else if e == 1 then (true, XOr) else if e == 4 then (true, XAnd)
    else if e == 5 then (true, XSub) else if e == 6 then (true, XXor) else if e == 7 then (true, XCmp)
    else (false, XMov)
  }

  function ExtShift(e: int): (bool, ShiftOp) {
    if e == 0 then (true, XRol) else if e == 4 then (true, XShl)
    else if e == 5 then (true, XShr) else if e == 7 then (true, XSar) else (false, XShl)
  }

  function CcOf(code: byte): (bool, CC) {
    if code == 0x84 then (true, CcE) else if code == 0x85 then (true, CcNE)
    else if code == 0x87 then (true, CcA) else if code == 0x83 then (true, CcAE)
    else if code == 0x8f then (true, CcG) else if code == 0x8d then (true, CcGE)
    else (false, CcE)
  }

  datatype ModRM = NoOperand | RegOperand(reg: int, rm: int) | MemOperand(reg: int, rm: int, disp: int32, len: nat)

  /** ModRM with displacement. rm = 4 asks for a SIB byte and mod = 0 with rm = 5 is RIP-relative;
      the compiler must never produce them, so they are not operands here. */
  function ParseModRM(s: seq<byte>): (r: ModRM)
    ensures r.RegOperand? ==> 0 <= r.reg < 8 && 0 <= r.rm < 8
    ensures r.MemOperand? ==> 0 <= r.reg < 8 && 0 <= r.rm < 8 && r.rm != 4 && r.len <= |s|
  {
    if |s| == 0 then NoOperand else
    var mod, g, rm := s[0] / 64, (s[0] / 8) % 8, s[0] % 8;
    if mod == 3 then RegOperand(g, rm)
    else if rm == 4 then NoOperand
    else if mod == 0 then (if rm == 5 then NoOperand else MemOperand(g, rm, 0, 1))
    else if mod == 1 then
      (if |s| < 2 then NoOperand
       else MemOperand(g, rm, Disp8(s[1]), 2))
    else if |s| < 5 then NoOperand
    else MemOperand(g, rm, Imm32(s[1..]), 5)
  }

  function DecodeGroup81(x: Rex, s: seq<byte>, n: nat): Decoded {
    var m := ParseModRM(s);
    if !m.RegOperand? || |s| < 5 || !Ext81(m.reg).0 then Bad
    else Good(AluRI(RexW(x), Ext81(m.reg).1, Ext(RexB(x), m.rm), Imm32(s[1..])), n + 5)
  }

  function DecodeGroupF7(x: Rex, s: seq<byte>, n: nat): Decoded {
    var m := ParseModRM(s);
    if !m.RegOperand? then Bad
    else
      var dst := Ext(RexB(x), m.rm);
      if m.reg == 0 then
        (if |s| < 5 then Bad else Good(AluRI(RexW(x), XTest, dst, Imm32(s[1..])), n + 5))
      else if m.reg == 3 then Good(NegR(RexW(x), dst), n + 1)
      else if m.reg == 4 then Good(MulR(RexW(x), dst), n + 1)
      else if m.reg == 6 then Good(DivR(RexW(x), dst), n + 1)
      else Bad
  }

  function DecodeShift(o16: bool, x: Rex, byCl: bool, s: seq<byte>, n: nat): Decoded {
    var m := ParseModRM(s);
    if !m.RegOperand? || !ExtShift(m.reg).0 then Bad
    else
      var sh, dst := ExtShift(m.reg).1, Ext(RexB(x), m.rm);
      if byCl then (if o16 then Bad else Good(ShiftRC(RexW(x), sh, dst), n + 1))
      else if |s| < 2 then Bad
      else if o16 then (if sh.XRol? && !RexW(x) then Good(Rol16(dst, s[1]), n + 2) else Bad)
      else Good(ShiftRI(RexW(x), sh, dst, s[1]), n + 2)
  }

  /** 88 and 89 with a memory destination, or 89 as a register move. A byte store without REX
      from register 4-7 would name AH..BH, so it does not decode. */
  function DecodeMovTo(o16: bool, x: Rex, op: byte, s: seq<byte>, n: nat): Decoded {
    match ParseModRM(s)
    case NoOperand => Bad
    case RegOperand(g, rm) =>
      if op == 0x89 && !o16 then Good(AluRR(RexW(x), XMov, Ext(RexR(x), g), Ext(RexB(x), rm)), n + 1) else Bad
    case MemOperand(g, rm, d, l) =>
      if op == 0x88 then
        (if o16 || (x.NoRex? && g >= 4) then Bad
         else Good(StoreM(B1, Ext(RexR(x), g), Ext(RexB(x), rm), d), n + l))
      else Good(StoreM(if RexW(x) then B8 else if o16 then B2 else B4,
                       Ext(RexR(x), g), Ext(RexB(x), rm), d), n + l)
  }

  /** c6 and c7: store an immediate, or (c7, register form) load one. */
  function DecodeMovImm(o16: bool, x: Rex, op: byte, s: seq<byte>, n: nat): Decoded {
    match ParseModRM(s)
    case NoOperand => Bad
    case RegOperand(g, rm) =>
      if op == 0xc7 && g == 0 && !o16 && |s| >= 5
      then Good(AluRI(RexW(x), XMov, Ext(RexB(x), rm), Imm32(s[1..])), n + 5) else Bad
    case MemOperand(g, rm, d, l) =>
      if g != 0 then Bad
      else if op == 0xc6 then
        (if o16 || |s| < l + 1 then Bad else Good(StoreI(B1, Ext(RexB(x), rm), d, s[l]), n + l + 1))
      else if o16 && !RexW(x) then
        (if |s| < l + 2 then Bad else Good(StoreI(B2, Ext(RexB(x), rm), d, FromLE(s[l..l + 2]) % 0x1_0000), n + l + 2))
      else if |s| < l + 4 then Bad
      else Good(StoreI(if RexW(x) then B8 else B4, Ext(RexB(x), rm), d, Imm32(s[l..])), n + l + 4)
  }

  /** The two-byte opcodes 0f xx. */
  function Decode0F(x: Rex, s: seq<byte>, n: nat): Decoded {
    if |s| == 0 then Bad
    else if s[0] == 0xb6 || s[0] == 0xb7 then
      (match ParseModRM(s[1..])
       case MemOperand(g, rm, d, l) =>
         if RexW(x) then Bad
         else Good(LoadM(if s[0] == 0xb6 then B1 else B2, Ext(RexB(x), rm), d, Ext(RexR(x), g)), n + 1 + l)
       case _ => Bad)
    else if 0xc8 <= s[0] < 0xd0 then Good(Bswap(RexW(x), Ext(RexB(x), s[0] - 0xc8)), n + 1)
    else if CcOf(s[0]).0 && x.NoRex? && |s| >= 5 then Good(Jcc(CcOf(s[0]).1, Imm32(s[1..])), n + 5)
    else Bad
  }

  function DecodeLoad(x: Rex, s: seq<byte>, n: nat): Decoded {
    match ParseModRM(s)
    case MemOperand(g, rm, d, l) =>
      Good(LoadM(if RexW(x) then B8 else B4, Ext(RexB(x), rm), d, Ext(RexR(x), g)), n + l)
    case _ => Bad
  }

  function DecodeRR(x: Rex, op: byte, s: seq<byte>, n: nat): Decoded {
    var m := ParseModRM(s);
    if !m.RegOperand? || !OpcodeRR(op).0 then Bad
    else Good(AluRR(RexW(x), OpcodeRR(op).1, Ext(RexR(x), m.reg), Ext(RexB(x), m.rm)), n + 1)
  }

  /** Opcodes that carry their register or have no operand byte. */
  function DecodeShort(x: Rex, s: seq<byte>, n: nat): Decoded
    requires |s| > 0
  {
    var op := s[0];
    if 0x50 <= op < 0x58 && !RexW(x) then Good(Push(Ext(RexB(x), op - 0x50)), n + 1)
    else if 0x58 <= op < 0x60 && !RexW(x) then Good(Pop(Ext(RexB(x), op - 0x58)), n + 1)
    else if 0xb8 <= op < 0xc0 && RexW(x) && |s| >= 9 then
      Good(MovAbs(Ext(RexB(x), op - 0xb8), U64(FromLE(s[1..9]))), n + 9)
    else if op == 0xc3 && x.NoRex? then Good(Ret, n + 1)
    else if op == 0xe9 && x.NoRex? && |s| >= 5 then Good(Jmp(Imm32(s[1..])), n + 5)
    else if op == 0xff && x.NoRex? && |s| >= 2 && s[1] == 0xd0 then Good(CallRax, n + 2)
    else Bad
  }

  /** After the prefixes: dispatch on the opcode byte; n bytes are already consumed. */
  function DecodeOpcode(o16: bool, x: Rex, s: seq<byte>, n: nat): Decoded {
    if |s| == 0 then Bad else
    var op, rest := s[0], s[1..];
    if op == 0x88 || op == 0x89 then DecodeMovTo(o16, x, op, rest, n + 1)
    else if op == 0xc6 || op == 0xc7 then DecodeMovImm(o16, x, op, rest, n + 1)
    else if op == 0xc1 then DecodeShift(o16, x, false, rest, n + 1)
    else if o16 then Bad
    else if op == 0xd3 then DecodeShift(o16, x, true, rest, n + 1)
    else if op == 0x81 then DecodeGroup81(x, rest, n + 1)
    else if op == 0xf7 then DecodeGroupF7(x, rest, n + 1)
    else if op == 0x0f then Decode0F(x, rest, n + 1)
    else if op == 0x8b then DecodeLoad(x, rest, n + 1)
    else if OpcodeRR(op).0 then DecodeRR(x, op, rest, n + 1)
    else DecodeShort(x, s, n)
  }

  function ParseRex(b: byte): Rex {
    if 0x40 <= b < 0x50 && (b / 2) % 2 == 0   // REX.X unused: there is never an index register
    then RexBits((b / 8) % 2 == 1, (b / 4) % 2 == 1, b % 2 == 1) else NoRex
  }

  function DecodeRex(o16: bool, s: seq<byte>, n: nat): Decoded {
    if |s| == 0 then Bad
    else if 0x40 <= s[0] < 0x50 then
      (if ParseRex(s[0]).NoRex? then Bad else DecodeOpcode(o16, ParseRex(s[0]), s[1..], n + 1))
    else DecodeOpcode(o16, NoRex, s, n)
  }

  /** The instruction at the head of s: operand-size prefix, REX prefix, opcode, operands. */
  function Decode(s: seq<byte>): Decoded {
    if |s| == 0 then Bad
    else if s[0] == 0x66 then DecodeRex(true, s[1..], 1)
    else DecodeRex(false, s, 0)
  }
}
