/** ubpf_exec as the source has it: a register array, a program counter and memory updated by a
    loop, proved to compute the runs of Interp. */
module Executor {
  import opened Words
  import opened Memory
  import opened Ebpf
  import opened Interp

  /** How one turn of the loop ends. */
  datatype Turn = Continue | Return(value: u64) | Error | NoMeaning

  /** The state ubpf_exec starts its loop in; all registers but r1 and r10 are whatever they were. */
  function Start(env: Env, regs: Regs, mem: Mem): State {
    State(0, regs[1 := env.memBase][10 := U64(env.stackBase + STACK_SIZE)], mem)
  }

  /** The context pointer in r1, the end of the stack in r10, everything else untouched. */
  lemma {:induction false} StartIs(env: Env, regs: Regs, mem: Mem)
    ensures var s := Start(env, regs, mem);
      s.pc == 0 && s.mem == mem && s.regs[1] == env.memBase &&
      (env.stackBase + STACK_SIZE < 0x1_0000_0000_0000_0000 ==> s.regs[10] == env.stackBase + STACK_SIZE) &&
      forall q :: 0 <= q < 16 && q != 1 && q != 10 ==> s.regs[q] == regs[q]
  {
  }

  /** The turn ended as the outcome says, with pc, registers and memory the outcome's. */
  ghost predicate Ends(o: Outcome, t: Turn, pc: int, regs: seq<u64>, mem: Mem) {
    match t
    case Continue => |regs| == 16 && o == Next(State(pc, regs, mem))
    case Return(v) => o == Done(v, mem)
    case Error => o == Failed
    case NoMeaning => o == Undefined
  }

  method ExecAlu(reg: array<u64>, inst: Inst, is64: bool, kind: AluKind, useReg: bool) returns (t: Turn)
    requires reg.Length == 16
    modifies reg
    ensures var d, s := old(reg[inst.dst]), old(reg[inst.src]);
      match (if is64 then Alu64(kind, useReg, d, s, inst.imm) else Alu32(kind, useReg, d, s, inst.imm))
      case Val(v) => t == Continue && reg[..] == old(reg[..])[inst.dst := v]
      case ZeroDivisor => t == Error
      case NoValue => t == NoMeaning
  {
    hide Alu32, Alu64;
    var r := if is64 then Alu64(kind, useReg, reg[inst.dst], reg[inst.src], inst.imm)
             else Alu32(kind, useReg, reg[inst.dst], reg[inst.src], inst.imm);
    match r
    case Val(v) =>
      reg[inst.dst] := v;
      return Continue;
    case ZeroDivisor => return Error;
    case NoValue => return NoMeaning;
  }

  /** bounds_check. */
  method BoundsCheck(env: Env, addr: u64, size: nat) returns (ok: bool)
    ensures ok == InBounds(env, addr, size)
  {
    if env.memBase != 0 && addr >= env.memBase && addr + size <= env.memBase + env.memLen {
      return true;   // context access
    } else if addr >= env.stackBase && addr + size <= env.stackBase + STACK_SIZE {
      return true;   // stack access
    }
    return false;
  }

  /** The memory cases: bounds check, then the access. */
  method ExecLoad(env: Env, reg: array<u64>, mem: Mem, inst: Inst, size: Size) returns (t: Turn)
    requires reg.Length == 16
    modifies reg
    ensures var addr := U64(old(reg[inst.src]) + inst.offset);
      if !InBounds(env, addr, SizeBytes(size)) then t == Error
      else if !Mapped(mem, addr, SizeBytes(size)) then t == NoMeaning
      else t == Continue && reg[..] == old(reg[..])[inst.dst := U64(Load(mem, addr, SizeBytes(size)))]
  {
    hide Load, InBounds, Mapped;
    var addr := U64(reg[inst.src] + inst.offset);
    var inside := BoundsCheck(env, addr, SizeBytes(size));
    if !inside {
      return Error;
    }
    if !Mapped(mem, addr, SizeBytes(size)) {
      return NoMeaning;
    }
    reg[inst.dst] := U64(Load(mem, addr, SizeBytes(size)));
    return Continue;
  }

  method ExecStore(env: Env, reg: array<u64>, mem: Mem, inst: Inst, size: Size, v: u64) returns (t: Turn, mem': Mem)
    requires reg.Length == 16
    ensures var addr := U64(reg[inst.dst] + inst.offset);
      if !InBounds(env, addr, SizeBytes(size)) then t == Error
      else if !Mapped(mem, addr, SizeBytes(size)) then t == NoMeaning
      else t == Continue && mem' == Store(mem, addr, v, SizeBytes(size))
  {
    hide Store, InBounds, Mapped;
    mem' := mem;
    var addr := U64(reg[inst.dst] + inst.offset);
    var inside := BoundsCheck(env, addr, SizeBytes(size));
    if !inside {
      return Error, mem;
    }
    if !Mapped(mem, addr, SizeBytes(size)) {
      return NoMeaning, mem;
    }
    mem' := Store(mem, addr, v, SizeBytes(size));
    return Continue, mem';
  }

  /** One turn: fetch with pc++, then the switch. */
  method ExecTurn(env: Env, prog: seq<Inst>, reg: array<u64>, pc0: int, mem0: Mem) returns (t: Turn, pc: int, mem: Mem)
    requires reg.Length == 16
    modifies reg
    ensures Ends(Step(env, prog, State(pc0, old(reg[..]), mem0)), t, pc, reg[..], mem)
  {
    hide OpOf, Alu32, Alu64, EndianVal, Taken, InBounds, Mapped, Load, Store, RunHelper, Wide;
    t, pc, mem := Continue, pc0, mem0;
    ghost var s := State(pc0, reg[..], mem0);
    if !(0 <= pc < |prog|) {
      t := NoMeaning;
      return;
    }
    var inst := prog[pc];
    pc := (pc + 1) % 0x1_0000;
    PcSum(pc0, inst.offset);
    match inst.Op()
    case Alu(is64, kind, useReg) =>
      t := ExecAlu(reg, inst, is64, kind, useReg);
    case Endian(big) =>
      reg[inst.dst] := EndianVal(big, inst.imm, reg[inst.dst]);
    case Ldx(size) =>
      t := ExecLoad(env, reg, mem, inst, size);
    case St(size) =>
      t, mem := ExecStore(env, reg, mem, inst, size, U64(inst.imm));
    case Stx(size) =>
      t, mem := ExecStore(env, reg, mem, inst, size, reg[inst.src]);
    case Lddw =>
      if pc0 + 1 >= |prog| {
        t := NoMeaning;
        return;
      }
      reg[inst.dst] := Wide(inst.imm, prog[pc0 + 1].imm);
      PcSum(pc0, 1);
      pc := (pc + 1) % 0x1_0000;
    case Ja =>
      pc := (pc + inst.offset) % 0x1_0000;
    case Jcond(cond, useReg) =>
      if Taken(cond, useReg, reg[inst.dst], reg[inst.src], inst.imm) {
        pc := (pc + inst.offset) % 0x1_0000;
      }
    case Call =>
      var r := RunHelper(env, inst.imm, reg[..], mem);
      reg[0] := r.value;
      mem := r.mem;
    case Exit =>
      t := Return(reg[0]);
    case Unknown =>
  }

  /** uint16_t arithmetic: pc++ followed by pc += offset. */
  lemma {:induction false} PcSum(pc: int, offset: int)
    ensures ((pc + 1) % 0x1_0000 + offset) % 0x1_0000 == NextPc(pc, offset)
    ensures (pc + 1) % 0x1_0000 == NextPc(pc, 0)
  {
  }

  /** The loop of ubpf_exec, cut off after `fuel` turns: it computes the run of that length. */
  method UbpfExec(env: Env, prog: seq<Inst>, regs: Regs, mem0: Mem, fuel: nat) returns (r: Outcome)
    ensures r == Run(env, prog, Start(env, regs, mem0), fuel)
  {
    hide Step;
    var reg := new u64[16](i requires 0 <= i < 16 => regs[i]);
    reg[1] := env.memBase;
    reg[10] := U64(env.stackBase + STACK_SIZE);
    var pc, mem, left := 0, mem0, fuel;
    assert reg[..] == Start(env, regs, mem0).regs;
    while left > 0
      invariant 0 <= left <= fuel
      invariant Run(env, prog, State(pc, reg[..], mem), left) == Run(env, prog, Start(env, regs, mem0), fuel)
    {
      var t;
      t, pc, mem := ExecTurn(env, prog, reg, pc, mem);
      match t
      case Continue => left := left - 1;
      case Return(v) => return Done(v, mem);
      case Error => return Failed;
      case NoMeaning => return Undefined;
    }
    return Next(State(pc, reg[..], mem));
  }
}
