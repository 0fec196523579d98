/** The interpreter ubpf_exec (ubpf/ubpf_vm.c), one instruction at a time. */
module Interp {
  import opened Words
  import opened Memory
  import opened Ebpf

  type Regs = s: seq<u64> | |s| == 16 witness seq(16, _ => 0)

  datatype HelperResult = HelperResult(value: u64, mem: Mem)

  /** What the program runs against. `helper` stands for the registered functions: it sees the
      index, the arguments it declares (`arity` of them) and the memory, and may change the memory.
      `memBase`/`memLen` are the context buffer and `stackBase` the address of the local array. */
  datatype Env = Env(
    memBase: u64, memLen: nat, stackBase: u64,
    arity: int -> nat, helper: (int, seq<u64>, Mem) -> HelperResult)

  datatype State = State(pc: int, regs: Regs, mem: Mem)

  /** Done is `return reg[0]`; Failed is a reported error, where the C code returns UINT64_MAX;
      Undefined is behaviour the C standard leaves undefined (oversized shift, division by a zero
      half register, a pc outside the program). */
  datatype Outcome = Next(s: State) | Done(value: u64, mem: Mem) | Failed | Undefined

  datatype Value = Val(v: u64) | ZeroDivisor | NoValue

  function Shl(x: int, n: nat): int { x * Pow2(n) }
  function Shr(x: int, n: nat): int { x / Pow2(n) }   // floor, so arithmetic for negative x

  /** 32-bit operations: computed as the C code does, then masked with UINT32_MAX. */
  function Alu32(kind: AluKind, useReg: bool, d: u64, s: u64, imm: int32): Value {
    var b := if useReg then s else U64(imm);
    match kind
    case Add => Val(U32(U64(d + b)))
    case Sub => Val(U32(U64(d - b)))
    case Mul => Val(U32(U64(d * b)))
    case Div => if useReg && s == 0 then ZeroDivisor
                else if U32(b) == 0 then NoValue else Val(DivU(U32(d), U32(b)))
    case Or => Val(U32(Bitwise(BitOr, d, b)))
    case And => Val(U32(Bitwise(BitAnd, d, b)))
    case Xor => Val(U32(Bitwise(BitXor, d, b)))
    case Lsh => var n := if useReg then s else imm;
                if 0 <= n < 64 then Val(U32(U64(Shl(d, n)))) else NoValue
    case Rsh => var n := if useReg then s else imm;
                if 0 <= n < 32 then Val(U32(Shr(U32(d), n))) else NoValue
    case Neg => Val(U32(U64(0 - d)))
    case Mod => if useReg && s == 0 then ZeroDivisor
                else if U32(b) == 0 then NoValue else Val(ModU(U32(d), U32(b)))
    case Mov => Val(U32(b))
    case Arsh => var n := if useReg then U32(s) else imm;
                 if 0 <= n < 32 then Val(U32(Shr(S32(d), n))) else NoValue
  }

  function Alu64(kind: AluKind, useReg: bool, d: u64, s: u64, imm: int32): Value {
    var b := if useReg then s else U64(imm);
    match kind
    case Add => Val(U64(d + b))
    case Sub => Val(U64(d - b))
    case Mul => Val(U64(d * b))
    case Div => if useReg && s == 0 then ZeroDivisor
                else if b == 0 then NoValue else Val(DivU(d, b))
    case Or => Val(U64(Bitwise(BitOr, d, b)))
    case And => Val(U64(Bitwise(BitAnd, d, b)))
    case Xor => Val(U64(Bitwise(BitXor, d, b)))
    case Lsh => var n := if useReg then s else imm;
                if 0 <= n < 64 then Val(U64(Shl(d, n))) else NoValue
    case Rsh => var n := if useReg then s else imm;
                if 0 <= n < 64 then Val(U64(Shr(d, n))) else NoValue
    case Neg => Val(U64(0 - d))
    case Mod => if useReg && s == 0 then ZeroDivisor
                else if b == 0 then NoValue else Val(ModU(d, b))
    case Mov => Val(b)
    case Arsh => var n := if useReg then s else imm;
                 if 0 <= n < 64 then Val(U64(Shr(S64(d), n))) else NoValue
  }

  function Reverse(s: seq<byte>): (r: seq<byte>)
    ensures |r| == |s|
  {
    if s == [] then [] else Reverse(s[1..]) + [s[0]]
  }

  /** The low n bytes of x in the opposite order. */
  function SwapBytes(x: nat, n: nat): nat { FromLE(Reverse(ToLE(x, n))) }

  /** htole / htobe on a little-endian host; the argument type truncates. */
  function EndianVal(big: bool, imm: int32, x: u64): u64 {
    if imm == 16 then (if big then U64(SwapBytes(x % 0x1_0000, 2)) else x % 0x1_0000)
    else if imm == 32 then (if big then U64(SwapBytes(U32(x), 4)) else U32(x))
    else if imm == 64 then (if big then U64(SwapBytes(x, 8)) else x)
    else x
  }

  function Taken(cond: Cond, useReg: bool, d: u64, s: u64, imm: int32): bool {
    var b := if useReg then s else U64(imm);
    match cond
    case Eq => d == b
    case Gt => d > (if useReg then s else U32(imm))
    case Ge => d >= (if useReg then s else U32(imm))
    case Set => Bitwise(BitAnd, d, b) != 0
    case Ne => d != b
    case Sgt => S64(d) > S64(b)
    case Sge => S64(d) >= S64(b)
  }

  /** bounds_check, address sums taken as mathematical integers. */
  predicate InBounds(env: Env, addr: u64, size: nat) {
    (env.memBase != 0 && env.memBase <= addr && addr + size <= env.memBase + env.memLen)
    || (env.stackBase <= addr && addr + size <= env.stackBase + STACK_SIZE)
  }

  function NextPc(pc: int, offset: int): int { (pc + 1 + offset) % 0x1_0000 }

  /** A helper is passed r1 to r5 and no more. */
  function ArgCount(env: Env, imm: int32): (n: nat)
    ensures n <= 5
  {
    if env.arity(imm) <= 5 then env.arity(imm) else 5
  }

  function RunHelper(env: Env, imm: int32, regs: Regs, mem: Mem): (r: HelperResult)
    ensures r.mem.Keys == mem.Keys
  {
    var res := env.helper(imm, regs[1..1 + ArgCount(env, imm)], mem);
    HelperResult(res.value, map a | a in mem :: if a in res.mem then res.mem[a] else mem[a])
  }

  function StepLoad(env: Env, s: State, inst: Inst, size: Size): Outcome {
    var addr, n := U64(s.regs[inst.src] + inst.offset), SizeBytes(size);
    if !InBounds(env, addr, n) then Failed
    else if !Mapped(s.mem, addr, n) then Undefined
    else Next(State(NextPc(s.pc, 0), s.regs[inst.dst := U64(Load(s.mem, addr, n))], s.mem))
  }

  function StepStore(env: Env, s: State, inst: Inst, size: Size, v: u64): Outcome {
    var addr, n := U64(s.regs[inst.dst] + inst.offset), SizeBytes(size);
    if !InBounds(env, addr, n) then Failed
    else if !Mapped(s.mem, addr, n) then Undefined
    else Next(State(NextPc(s.pc, 0), s.regs, Store(s.mem, addr, v, n)))
  }

  function StepAlu(s: State, inst: Inst, is64: bool, kind: AluKind, useReg: bool): Outcome {
    var d, x := s.regs[inst.dst], s.regs[inst.src];
    match (if is64 then Alu64(kind, useReg, d, x, inst.imm) else Alu32(kind, useReg, d, x, inst.imm))
    case Val(v) => Next(State(NextPc(s.pc, 0), s.regs[inst.dst := v], s.mem))
    case ZeroDivisor => Failed
    case NoValue => Undefined
  }

  /** One turn of the interpreter loop. */
  function Step(env: Env, prog: seq<Inst>, s: State): Outcome {
    if !(0 <= s.pc < |prog|) then Undefined else
    var inst := prog[s.pc];
    match inst.Op()
    case Alu(is64, kind, useReg) => StepAlu(s, inst, is64, kind, useReg)
    case Endian(big) =>
      Next(State(NextPc(s.pc, 0), s.regs[inst.dst := EndianVal(big, inst.imm, s.regs[inst.dst])], s.mem))
    case Ldx(size) => StepLoad(env, s, inst, size)
    case St(size) => StepStore(env, s, inst, size, U64(inst.imm))
    case Stx(size) => StepStore(env, s, inst, size, s.regs[inst.src])
    case Lddw =>
      if s.pc + 1 >= |prog| then Undefined
      else Next(State(NextPc(s.pc, 1), s.regs[inst.dst := Wide(inst.imm, prog[s.pc + 1].imm)], s.mem))
    case Ja => Next(State(NextPc(s.pc, inst.offset), s.regs, s.mem))
    case Jcond(cond, useReg) =>
      var jump := Taken(cond, useReg, s.regs[inst.dst], s.regs[inst.src], inst.imm);
      Next(State(NextPc(s.pc, if jump then inst.offset else 0), s.regs, s.mem))
    case Call =>
      var r := RunHelper(env, inst.imm, s.regs, s.mem);
      Next(State(NextPc(s.pc, 0), s.regs[0 := r.value], r.mem))
    case Exit => Done(s.regs[0], s.mem)
    case Unknown => Next(State(NextPc(s.pc, 0), s.regs, s.mem))
  }

  /** The 64-bit constant of an lddw pair. */
  function Wide(lo: int32, hi: int32): u64 { U32(lo) + U32(hi) * 0x1_0000_0000 }

  /** n steps from s, stopping early when the run ends. */
  function Run(env: Env, prog: seq<Inst>, s: State, n: nat): Outcome
    decreases n
  {
    if n == 0 then Next(s)
    else match Step(env, prog, s)
      case Next(s') => Run(env, prog, s', n - 1)
      case other => other
  }
}
