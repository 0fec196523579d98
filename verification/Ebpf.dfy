/** The eBPF instruction set of ubpf/ebpf.h and the load-time checker of ubpf/ubpf_vm.c. */
module Ebpf {
  import opened Opcodes
  import opened Words

  datatype AluKind = Add | Sub | Mul | Div | Or | And | Lsh | Rsh | Neg | Mod | Xor | Mov | Arsh
  datatype Size = Size8 | Size16 | Size32 | Size64
  datatype Cond = Eq | Gt | Ge | Set | Ne | Sgt | Sge

  /** What an opcode byte means; `useReg` is the EBPF_SRC_REG bit. */
  datatype Op =
    | Alu(is64: bool, kind: AluKind, useReg: bool)
    | Endian(big: bool)
    | Ldx(size: Size)
    | St(size: Size)
    | Stx(size: Size)
    | Lddw
    | Ja
    | Jcond(cond: Cond, useReg: bool)
    | Call
    | Exit
    | Unknown

  type nibble = x: int | 0 <= x < 16

  datatype Inst = Inst(opcode: byte, dst: nibble, src: nibble, offset: int16, imm: int32) {
    function Op(): Op { OpOf(opcode) }
  }

  const MAX_INSTS := 65536
  const MAX_EXT_FUNCS := 64
  const STACK_SIZE := 16384

  function SizeBytes(s: Size): (n: nat)
    ensures n == 1 || n == 2 || n == 4 || n == 8
  {
    match s
    case Size8 => 1
    case Size16 => 2
    case Size32 => 4
    case Size64 => 8
  }

  function AluOf(is64: bool, code: int, useReg: bool): Op {
    if code == 0x0 then Alu(is64, Add, useReg)
    else if code == 0x1 then Alu(is64, Sub, useReg)
    else if code == 0x2 then Alu(is64, Mul, useReg)
    else if code == 0x3 then Alu(is64, Div, useReg)
    else if code == 0x4 then Alu(is64, Or, useReg)
    else if code == 0x5 then Alu(is64, And, useReg)
    else if code == 0x6 then Alu(is64, Lsh, useReg)
    else if code == 0x7 then Alu(is64, Rsh, useReg)
    else if code == 0x8 && !useReg then Alu(is64, Neg, false)
    else if code == 0x9 then Alu(is64, Mod, useReg)
    else if code == 0xa then Alu(is64, Xor, useReg)
    else if code == 0xb then Alu(is64, Mov, useReg)
    else if code == 0xc then Alu(is64, Arsh, useReg)
    else if code == 0xd && !is64 then Endian(useReg)
    else Unknown
  }

  function JumpOf(code: int, useReg: bool): Op {
    if code == 0x0 && !useReg then Ja
    else if code == 0x1 then Jcond(Eq, useReg)
    else if code == 0x2 then Jcond(Gt, useReg)
    else if code == 0x3 then Jcond(Ge, useReg)
    else if code == 0x4 then Jcond(Set, useReg)
    else if code == 0x5 then Jcond(Ne, useReg)
    else if code == 0x6 then Jcond(Sgt, useReg)
    else if code == 0x7 then Jcond(Sge, useReg)
    else if code == 0x8 && !useReg then Call
    else if code == 0x9 && !useReg then Exit
    else Unknown
  }

  function MemSizeOf(code: int): Size
    requires 0 <= code < 4
  {
    if code == 0 then Size32 else if code == 1 then Size16 else if code == 2 then Size8 else Size64
  }

  /** Opcode byte to operation: class in the low 3 bits, then the source bit and a 4-bit code,
      or for memory operations a size and the mode EBPF_MODE_MEM (0x60). */
  function OpOf(opcode: byte): Op {
    var cls, code, useReg := opcode % 8, opcode / 16, (opcode / 8) % 2 == 1;
    if cls == 4 then AluOf(false, code, useReg)
    else if cls == 7 then AluOf(true, code, useReg)
    else if cls == 5 then JumpOf(code, useReg)
    else if opcode == 0x18 then Lddw
    else if 0x60 <= opcode < 0x80 && cls == 1 then Ldx(MemSizeOf((opcode - 0x60) / 8))
    else if 0x60 <= opcode < 0x80 && cls == 2 then St(MemSizeOf((opcode - 0x60) / 8))
    else if 0x60 <= opcode < 0x80 && cls == 3 then Stx(MemSizeOf((opcode - 0x60) / 8))
    else Unknown
  }

  predicate IsShift(kind: AluKind) { kind == Lsh || kind == Rsh || kind == Arsh }
  predicate IsMulDivMod(kind: AluKind) { kind == Mul || kind == Div || kind == Mod }

  /** The slot after the instruction at slot i. */
  function FallThrough(prog: seq<Inst>, i: nat): nat
    requires i < |prog|
  {
    if prog[i].Op().Lddw? then i + 2 else i + 1
  }

  // ----- load-time validation -----

  /** Slot i is the second half of a 16-byte lddw. */
  predicate IsTail(prog: seq<Inst>, i: nat)
    requires i <= |prog|
  {
    i > 0 && prog[i - 1].Op().Lddw? && !IsTail(prog, i - 1)
  }

  /** The register test made after the switch: r10 may only be the base of a store. */
  predicate RegsOk(inst: Inst) {
    inst.src <= 10 && (inst.dst <= 9 || (inst.dst == 10 && (inst.Op().St? || inst.Op().Stx?)))
  }

  predicate JumpOk(prog: seq<Inst>, i: nat) requires i < |prog| {
    var target := i + 1 + prog[i].offset;
    prog[i].offset != -1 && 0 <= target < |prog| && prog[target].opcode != 0
  }

  /** What the checker demands of the instruction at slot i. */
  predicate InstOk(prog: seq<Inst>, funcs: set<int>, i: nat)
    requires i < |prog|
  {
    var inst := prog[i];
    RegsOk(inst) &&
    match inst.Op()
    case Alu(_, kind, useReg) => (kind == Div || kind == Mod) && !useReg ==> inst.imm != 0
    case Endian(_) => inst.imm == 16 || inst.imm == 32 || inst.imm == 64
    case Lddw => i + 1 < |prog| && prog[i + 1].opcode == 0
    case Ja => JumpOk(prog, i)
    case Jcond(_, _) => JumpOk(prog, i)
    case Call => 0 <= inst.imm < MAX_EXT_FUNCS && inst.imm in funcs
    case Unknown => false
    case _ => true
  }

  ghost predicate Validated(prog: seq<Inst>, funcs: set<int>) {
    |prog| < MAX_INSTS &&
    forall i :: 0 <= i < |prog| && !IsTail(prog, i) ==> InstOk(prog, funcs, i)
  }

  lemma {:induction false} ValidAt(prog: seq<Inst>, funcs: set<int>, i: nat)
    requires Validated(prog, funcs) && i < |prog| && !IsTail(prog, i)
    ensures |prog| < MAX_INSTS && InstOk(prog, funcs, i)
  {
    hide InstOk, IsTail;
  }

  // ----- the opcode table -----

  /** The opcodes, group by group: arithmetic on 32 bits, */
  lemma {:induction false} Sums32()
    ensures OpOf(ADD_IMM) == Alu(false, Add, false) && OpOf(ADD_REG) == Alu(false, Add, true)
    ensures OpOf(SUB_IMM) == Alu(false, Sub, false) && OpOf(SUB_REG) == Alu(false, Sub, true)
    ensures OpOf(MUL_IMM) == Alu(false, Mul, false) && OpOf(MUL_REG) == Alu(false, Mul, true)
    ensures OpOf(DIV_IMM) == Alu(false, Div, false) && OpOf(DIV_REG) == Alu(false, Div, true)
  {
  }

  lemma {:induction false} Logic32()
    ensures OpOf(OR_IMM) == Alu(false, Or, false) && OpOf(OR_REG) == Alu(false, Or, true)
    ensures OpOf(AND_IMM) == Alu(false, And, false) && OpOf(AND_REG) == Alu(false, And, true)
    ensures OpOf(LSH_IMM) == Alu(false, Lsh, false) && OpOf(LSH_REG) == Alu(false, Lsh, true)
    ensures OpOf(RSH_IMM) == Alu(false, Rsh, false) && OpOf(RSH_REG) == Alu(false, Rsh, true)
  {
  }

  /** and the byte swaps. */
  lemma {:induction false} Moves32()
    ensures OpOf(NEG) == Alu(false, Neg, false) && OpOf(MOD_IMM) == Alu(false, Mod, false)
    ensures OpOf(MOD_REG) == Alu(false, Mod, true) && OpOf(XOR_IMM) == Alu(false, Xor, false)
    ensures OpOf(XOR_REG) == Alu(false, Xor, true) && OpOf(MOV_IMM) == Alu(false, Mov, false)
    ensures OpOf(MOV_REG) == Alu(false, Mov, true) && OpOf(ARSH_IMM) == Alu(false, Arsh, false)
    ensures OpOf(ARSH_REG) == Alu(false, Arsh, true) && OpOf(LE) == Endian(false)
    ensures OpOf(BE) == Endian(true)
  {
  }

  /** Arithmetic on 64 bits. */
  lemma {:induction false} Sums64()
    ensures OpOf(ADD64_IMM) == Alu(true, Add, false) && OpOf(ADD64_REG) == Alu(true, Add, true)
    ensures OpOf(SUB64_IMM) == Alu(true, Sub, false) && OpOf(SUB64_REG) == Alu(true, Sub, true)
    ensures OpOf(MUL64_IMM) == Alu(true, Mul, false) && OpOf(MUL64_REG) == Alu(true, Mul, true)
    ensures OpOf(DIV64_IMM) == Alu(true, Div, false) && OpOf(DIV64_REG) == Alu(true, Div, true)
  {
  }

  lemma {:induction false} Logic64()
    ensures OpOf(OR64_IMM) == Alu(true, Or, false) && OpOf(OR64_REG) == Alu(true, Or, true)
    ensures OpOf(AND64_IMM) == Alu(true, And, false) && OpOf(AND64_REG) == Alu(true, And, true)
    ensures OpOf(LSH64_IMM) == Alu(true, Lsh, false) && OpOf(LSH64_REG) == Alu(true, Lsh, true)
    ensures OpOf(RSH64_IMM) == Alu(true, Rsh, false) && OpOf(RSH64_REG) == Alu(true, Rsh, true)
  {
  }

  lemma {:induction false} Moves64()
    ensures OpOf(NEG64) == Alu(true, Neg, false) && OpOf(MOD64_IMM) == Alu(true, Mod, false)
    ensures OpOf(MOD64_REG) == Alu(true, Mod, true) && OpOf(XOR64_IMM) == Alu(true, Xor, false)
    ensures OpOf(XOR64_REG) == Alu(true, Xor, true) && OpOf(MOV64_IMM) == Alu(true, Mov, false)
    ensures OpOf(MOV64_REG) == Alu(true, Mov, true) && OpOf(ARSH64_IMM) == Alu(true, Arsh, false)
    ensures OpOf(ARSH64_REG) == Alu(true, Arsh, true)
  {
  }

  /** Branches, calls and exit. */
  lemma {:induction false} UnsignedBranches()
    ensures OpOf(JA) == Ja && OpOf(JEQ_IMM) == Jcond(Eq, false)
    ensures OpOf(JEQ_REG) == Jcond(Eq, true) && OpOf(JGT_IMM) == Jcond(Gt, false)
    ensures OpOf(JGT_REG) == Jcond(Gt, true) && OpOf(JGE_IMM) == Jcond(Ge, false)
    ensures OpOf(JGE_REG) == Jcond(Ge, true)
  {
  }

  lemma {:induction false} OtherBranches()
    ensures OpOf(JSET_REG) == Jcond(Set, true) && OpOf(JSET_IMM) == Jcond(Set, false)
    ensures OpOf(JNE_IMM) == Jcond(Ne, false) && OpOf(JNE_REG) == Jcond(Ne, true)
    ensures OpOf(JSGT_IMM) == Jcond(Sgt, false) && OpOf(JSGT_REG) == Jcond(Sgt, true)
    ensures OpOf(JSGE_IMM) == Jcond(Sge, false) && OpOf(JSGE_REG) == Jcond(Sge, true)
    ensures OpOf(CALL) == Call && OpOf(EXIT) == Exit
  {
  }

  /** Loads, stores and the 64-bit constant. */
  lemma {:induction false} MemoryOpcodes()
    ensures OpOf(LDXW) == Ldx(Size32) && OpOf(LDXH) == Ldx(Size16)
    ensures OpOf(LDXB) == Ldx(Size8) && OpOf(LDXDW) == Ldx(Size64)
    ensures OpOf(STW) == St(Size32) && OpOf(STH) == St(Size16)
    ensures OpOf(STB) == St(Size8) && OpOf(STDW) == St(Size64)
    ensures OpOf(STXW) == Stx(Size32) && OpOf(STXH) == Stx(Size16)
    ensures OpOf(STXB) == Stx(Size8) && OpOf(STXDW) == Stx(Size64)
    ensures OpOf(LDDW) == Lddw
  {
  }

  // ----- the scan -----

  /** The cases of the switch that check nothing further: arithmetic other than division by an
      immediate, and loads. */
  predicate PlainCase(op: byte) {
    op == ADD_IMM || op == ADD_REG || op == SUB_IMM || op == SUB_REG || op == MUL_IMM || op == MUL_REG
    || op == DIV_REG || op == OR_IMM || op == OR_REG || op == AND_IMM || op == AND_REG || op == LSH_IMM
    || op == LSH_REG || op == RSH_IMM || op == RSH_REG || op == NEG || op == MOD_REG || op == XOR_IMM
    || op == XOR_REG || op == MOV_IMM || op == MOV_REG || op == ARSH_IMM || op == ARSH_REG || op == ADD64_IMM
    || op == ADD64_REG || op == SUB64_IMM || op == SUB64_REG || op == MUL64_IMM || op == MUL64_REG || op == DIV64_REG
    || op == OR64_IMM || op == OR64_REG || op == AND64_IMM || op == AND64_REG || op == LSH64_IMM || op == LSH64_REG
    || op == RSH64_IMM || op == RSH64_REG || op == NEG64 || op == MOD64_REG || op == XOR64_IMM || op == XOR64_REG
    || op == MOV64_IMM || op == MOV64_REG || op == ARSH64_IMM || op == ARSH64_REG || op == LDXW || op == LDXH
    || op == LDXB || op == LDXDW
  }

  predicate StoreCase(op: byte) {
    op == STW || op == STH || op == STB || op == STDW || op == STXW || op == STXH || op == STXB || op == STXDW
  }

  predicate BranchCase(op: byte) {
    op == JA || op == JEQ_IMM || op == JEQ_REG || op == JGT_IMM || op == JGT_REG || op == JGE_IMM
    || op == JGE_REG || op == JSET_REG || op == JSET_IMM || op == JNE_IMM || op == JNE_REG || op == JSGT_IMM
    || op == JSGT_REG || op == JSGE_IMM || op == JSGE_REG
  }

  predicate DivisionCase(op: byte) {
    op == DIV_IMM || op == MOD_IMM || op == DIV64_IMM || op == MOD64_IMM
  }

  lemma {:induction false} ByteParts(op: byte)
    ensures op == 16 * (op / 16) + 8 * ((op / 8) % 2) + op % 8 && 0 <= op / 16 < 16
  {
    assert op / 8 == 2 * (op / 16) + (op / 8) % 2;
  }

  predicate ByImmediate(o: Op) { o.Alu? && (o.kind == Div || o.kind == Mod) && !o.useReg }

  /** The cases are the operations they stand for. */
  predicate ArithmeticRight(op: byte) {
    (PlainCase(op) <==> OpOf(op).Ldx? || (OpOf(op).Alu? && !ByImmediate(OpOf(op)))) &&
    (DivisionCase(op) <==> ByImmediate(OpOf(op))) &&
    (op == LE || op == BE <==> OpOf(op).Endian?)
  }

  lemma {:induction false} ArithmeticCases(op: byte)
    ensures ArithmeticRight(op)
  {
    hide ArithmeticRight;
    if op % 8 == 4 {
      Cases32(op);
    } else if op % 8 == 7 {
      Cases64(op);
    } else if op % 8 == 5 {
      CasesJump(op);
    } else {
      CasesElse(op);
    }
  }

  lemma {:induction false} Cases32(op: byte)
    requires op % 8 == 4
    ensures ArithmeticRight(op)
  {
    ByteParts(op);
    assert op == 16 * (op / 16) + 4 || op == 16 * (op / 16) + 12;
  }

  lemma {:induction false} Cases64(op: byte)
    requires op % 8 == 7
    ensures ArithmeticRight(op)
  {
    ByteParts(op);
    assert op == 16 * (op / 16) + 7 || op == 16 * (op / 16) + 15;
  }

  lemma {:induction false} CasesJump(op: byte)
    requires op % 8 == 5
    ensures ArithmeticRight(op)
  {
  }

  lemma {:induction false} CasesElse(op: byte)
    requires op % 8 < 4 || op % 8 == 6
    ensures ArithmeticRight(op)
  {
    ByteParts(op);
  }

  lemma {:induction false} StoreCases(op: byte)
    ensures StoreCase(op) <==> OpOf(op).St? || OpOf(op).Stx?
    ensures op == LDDW <==> OpOf(op).Lddw?
  {
    ByteParts(op);
  }

  lemma {:induction false} BranchCases(op: byte)
    ensures BranchCase(op) <==> OpOf(op).Ja? || OpOf(op).Jcond?
  {
    ByteParts(op);
  }

  lemma {:induction false} EndCases(op: byte)
    ensures (op == CALL <==> OpOf(op).Call?) && (op == EXIT <==> OpOf(op).Exit?)
  {
    ByteParts(op);
  }

  /** The scan of `validate`: a switch on the opcode byte, then the register tests. */
  method Validate(prog: seq<Inst>, funcs: set<int>) returns (ok: bool)
    ensures ok <==> Validated(prog, funcs)
  {
    hide OpOf, PlainCase, StoreCase, BranchCase, DivisionCase;
    if |prog| >= MAX_INSTS {
      return false;
    }
    var i := 0;
    while i < |prog|
      invariant 0 <= i <= |prog| && !IsTail(prog, i)
      invariant forall j :: 0 <= j < i && !IsTail(prog, j) ==> InstOk(prog, funcs, j)
    {
      ArithmeticCases(prog[i].opcode);
      StoreCases(prog[i].opcode);
      BranchCases(prog[i].opcode);
      EndCases(prog[i].opcode);
      var inst, store, op, at := prog[i], false, prog[i].opcode, i;
      if PlainCase(op) || op == EXIT {
      } else if op == LE || op == BE {
        if inst.imm != 16 && inst.imm != 32 && inst.imm != 64 {
          return false;
        }
      } else if StoreCase(op) {
        store := true;
      } else if op == LDDW {
        if i + 1 >= |prog| || prog[i + 1].opcode != 0 {
          return false;
        }
        i := i + 1;
      } else if BranchCase(op) {
        if inst.offset == -1 {
          return false;
        }
        var newPc := i + 1 + inst.offset;
        if newPc < 0 || newPc >= |prog| || prog[newPc].opcode == 0 {
          return false;
        }
      } else if op == CALL {
        if inst.imm < 0 || inst.imm >= MAX_EXT_FUNCS || inst.imm !in funcs {
          return false;
        }
      } else if DivisionCase(op) {
        if inst.imm == 0 {
          return false;
        }
      } else {
        return false;
      }
      if inst.src > 10 || (inst.dst > 9 && !(store && inst.dst == 10)) {
        return false;
      }
      assert InstOk(prog, funcs, at);
      i := i + 1;
    }
    return true;
  }

  /** Every store through r10, the frame pointer, is accepted. */
  lemma {:induction false} StackStoreAccepted(op: byte, src: nibble, offset: int16, imm: int32)
    requires StoreCase(op) && src <= 10
    ensures Validated([Inst(op, 10, src, offset, imm), Inst(MOV64_IMM, 0, 0, 0, 0), Inst(EXIT, 0, 0, 0, 0)], {})
  {
    hide OpOf;
    var prog := [Inst(op, 10, src, offset, imm), Inst(MOV64_IMM, 0, 0, 0, 0), Inst(EXIT, 0, 0, 0, 0)];
    StoreCases(op);
    Moves64();
    OtherBranches();
    forall i | 0 <= i < |prog| && !IsTail(prog, i) ensures InstOk(prog, {}, i) {
    }
  }

  /** In an accepted program the opcode-0 slots are exactly the lddw tails. */
  lemma {:induction false} ZeroOpcodeIsTail(prog: seq<Inst>, funcs: set<int>, i: nat)
    requires Validated(prog, funcs) && i < |prog|
    ensures prog[i].opcode == 0 <==> IsTail(prog, i)
  {
    if IsTail(prog, i) {
      assert InstOk(prog, funcs, i - 1);
    } else {
      assert InstOk(prog, funcs, i);
    }
  }
}
