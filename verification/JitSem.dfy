/** The meaning of a program as the compiled code runs it: the same state as the interpreter, plus
    the set of eBPF registers whose content is determined. It differs from ubpf_exec exactly where
    the emitted instructions do (see Agreement). */
module JitSem {
  import opened Words
  import opened Memory
  import opened Ebpf
  import opened Interp
  import X86
  import M = Machine

  /** A zero divisor or an access outside mapped memory stops the real program, and a register
      clobbered by a call (or never written) has no determined content: both are NoResult. */
  datatype JOutcome = JNext(s: State, known: set<int>) | JDone(value: u64, mem: Mem) | NoResult

  /** muldivmod takes the immediate whenever it is not zero, whatever the opcode says. */
  function Factor(s: u64, imm: int32): u64 { if imm != 0 then U64(imm) else s }

  function AluVal(is64: bool, kind: AluKind, useReg: bool, d: u64, s: u64, imm: int32): Value {
    var b := if useReg then s else U64(imm);
    var e := M.Trunc(is64, Factor(s, imm));
    var n := if useReg then s % 0x100 else imm % 0x100;
    match kind
    case Add => Val(M.AluResult(is64, X86.XAdd, d, b))
    case Sub => Val(M.AluResult(is64, X86.XSub, d, b))
    case Or => Val(M.AluResult(is64, X86.XOr, d, b))
    case And => Val(M.AluResult(is64, X86.XAnd, d, b))
    case Xor => Val(M.AluResult(is64, X86.XXor, d, b))
    case Mul => Val(M.Trunc(is64, M.Trunc(is64, d) * e))
    case Div => if e == 0 then NoValue else Val(DivU(M.Trunc(is64, d), e))
    case Mod => if e == 0 then NoValue else Val(ModU(M.Trunc(is64, d), e))
    case Lsh => Val(M.ShiftResult(is64, X86.XShl, d, n))
    case Rsh => Val(M.ShiftResult(is64, X86.XShr, d, n))
    case Arsh => Val(M.ShiftResult(is64, X86.XSar, d, n))
    case Neg => Val(M.Trunc(is64, 0 - M.Trunc(is64, d)))
    case Mov => Val(if useReg then s else M.Trunc(is64, U64(imm)))   // a full move even for the 32-bit form
  }

  /** LE is compiled to nothing. */
  function EndianVal(big: bool, imm: int32, x: u64): u64 {
    if !big then x
    else if imm == 16 then M.AluResult(false, X86.XAnd, M.Rol16Result(x, 8), 0xffff)
    else if imm == 32 then U64(M.SwapLE(U32(x), 4))
    else if imm == 64 then U64(M.SwapLE(x, 8))
    else x
  }

  /** Immediates are sign-extended for unsigned comparisons too. */
  function Taken(cond: Cond, useReg: bool, d: u64, s: u64, imm: int32): bool {
    var b := if useReg then s else U64(imm);
    match cond
    case Eq => d == b
    case Gt => d > b
    case Ge => d >= b
    case Set => Bitwise(BitAnd, d, b) != 0
    case Ne => d != b
    case Sgt => S64(d) > S64(b)
    case Sge => S64(d) >= S64(b)
  }

  function ArgRegs(arity: nat): set<int> {
    (if arity >= 1 then {1} else {}) + (if arity >= 2 then {2} else {}) + (if arity >= 3 then {3} else {})
    + (if arity >= 4 then {4} else {}) + (if arity >= 5 then {5} else {})
  }

  /** Registers an instruction needs; a helper needs as many arguments as it declares. */
  function Reads(inst: Inst, arity: nat): set<int> {
    var dst: int, src: int := inst.dst, inst.src;
    match inst.Op()
    case Alu(_, kind, useReg) =>
      if (kind == Mul || kind == Div || kind == Mod) then (if inst.imm != 0 then {dst} else {dst, src})
      else (if kind == Mov then {} else {dst}) + (if useReg then {src} else {})
    case Endian(big) => if big then {dst} else {}
    case Ldx(_) => {src}
    case St(_) => {dst}
    case Stx(_) => {dst, src}
    case Lddw => {}
    case Ja => {}
    case Jcond(_, useReg) => {dst} + (if useReg then {src} else {})
    case Call => ArgRegs(arity)
    case Exit => {0}
    case Unknown => {}
  }

  /** The instructions that read nothing, their source or their destination only. */
  lemma {:induction false} ReadsAtMostOne(inst: Inst, arity: nat)
    ensures inst.Op() in {Alu(false, Mov, false), Alu(true, Mov, false), Lddw, Ja, Endian(false)} ==> Reads(inst, arity) == {}
    ensures inst.Op() in {Alu(false, Mov, true), Alu(true, Mov, true)} || inst.Op().Ldx? ==> Reads(inst, arity) == {inst.src as int}
    ensures inst.Op() in {Alu(false, Neg, false), Alu(true, Neg, false), Endian(true)} || inst.Op().St? ==>
      Reads(inst, arity) == {inst.dst as int}
  {
    hide OpOf;
  }

  /** Nothing but the operands is read; a call reads the arguments it declares, EXIT reads r0. */
  lemma {:induction false} ReadsOperands(inst: Inst, arity: nat)
    ensures (inst.Op().Alu? || inst.Op().Jcond?) && !inst.Op().useReg && inst.imm != 0 ==> Reads(inst, arity) <= {inst.dst as int}
    ensures inst.Op().Alu? || inst.Op().Jcond? || inst.Op().Stx? ==> Reads(inst, arity) <= {inst.dst as int, inst.src as int}
    ensures inst.Op().Exit? ==> Reads(inst, arity) == {0}
    ensures inst.Op().Call? ==> forall r :: r in Reads(inst, arity) <==> 1 <= r <= 5 && r <= arity
  {
    hide OpOf;
  }

  ghost function StepLoad(s: State, known: set<int>, inst: Inst, size: Size): JOutcome {
    var addr, n := U64(s.regs[inst.src] + inst.offset), SizeBytes(size);
    if !Mapped(s.mem, addr, n) then NoResult
    else JNext(State(NextPc(s.pc, 0), s.regs[inst.dst := U64(Load(s.mem, addr, n))], s.mem), known + {inst.dst as int})
  }

  ghost function StepStore(s: State, known: set<int>, inst: Inst, size: Size, v: u64): JOutcome {
    var addr, n := U64(s.regs[inst.dst] + inst.offset), SizeBytes(size);
    if !Mapped(s.mem, addr, n) then NoResult
    else JNext(State(NextPc(s.pc, 0), s.regs, Store(s.mem, addr, v, n)), known)
  }

  ghost function Step(env: Env, prog: seq<Inst>, s: State, known: set<int>): JOutcome {
    if !(0 <= s.pc < |prog|) then NoResult else
    var inst := prog[s.pc];
    var d, x := s.regs[inst.dst], s.regs[inst.src];
    if !(Reads(inst, env.arity(inst.imm)) <= known) then NoResult else
    match inst.Op()
    case Alu(is64, kind, useReg) =>
      (match AluVal(is64, kind, useReg, d, x, inst.imm)
       case Val(v) => JNext(State(NextPc(s.pc, 0), s.regs[inst.dst := v], s.mem), known + {inst.dst as int})
       case _ => NoResult)
    case Endian(big) =>
      JNext(State(NextPc(s.pc, 0), s.regs[inst.dst := EndianVal(big, inst.imm, d)], s.mem), known)
    case Ldx(size) => StepLoad(s, known, inst, size)
    case St(size) => StepStore(s, known, inst, size, U64(inst.imm))
    case Stx(size) => StepStore(s, known, inst, size, x)
    case Lddw =>
      if s.pc + 1 >= |prog| then NoResult
      else JNext(State(NextPc(s.pc, 1), s.regs[inst.dst := Wide(inst.imm, prog[s.pc + 1].imm)], s.mem),
                 known + {inst.dst as int})
    case Ja => JNext(State(NextPc(s.pc, inst.offset), s.regs, s.mem), known)
    case Jcond(cond, useReg) =>
      JNext(State(NextPc(s.pc, if Taken(cond, useReg, d, x, inst.imm) then inst.offset else 0), s.regs, s.mem), known)
    case Call =>
      var r := RunHelper(env, inst.imm, s.regs, s.mem);
      JNext(State(NextPc(s.pc, 0), s.regs[0 := r.value], r.mem), (known - {1, 2, 3, 4, 5}) + {0})
    case Exit => JDone(s.regs[0], s.mem)
    case Unknown => NoResult
  }

  ghost function Run(env: Env, prog: seq<Inst>, s: State, known: set<int>, n: nat): JOutcome
    decreases n
  {
    if n == 0 then JNext(s, known)
    else match Step(env, prog, s, known)
      case JNext(s', known') => Run(env, prog, s', known', n - 1)
      case other => other
  }
}
