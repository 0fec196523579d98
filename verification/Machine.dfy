/** Execution of the decoded x86-64 instructions. */
module Machine {
  import opened Words
  import opened Memory
  import opened X86

  type XRegs = s: seq<u64> | |s| == 16 witness seq(16, _ => 0)

  datatype Flags = NoFlags | Flags(zf: bool, cf: bool, sf: bool, of: bool)

  /** Everything but the instruction pointer. NoFlags: the last instruction left the flags in a
      state no later instruction may rely on. */
  datatype Core = Core(regs: XRegs, flags: Flags, mem: Mem)

  /** The outside world: `visible` is the memory a called function may touch. A call returns a
      value in RAX and new contents for the visible memory, computed from the target, the five
      integer argument registers and the visible memory (System V AMD64 ABI, section 3.2.3);
      `junk` and `junkMem` are what it leaves in the registers and stack bytes it may destroy. */
  datatype CallResult = CallResult(value: u64, mem: Mem)
  datatype World = World(
    visible: set<int>,
    call: (u64, seq<u64>, Mem) -> CallResult,
    junk: Core -> XRegs,
    junkMem: Core -> Mem)

  datatype MaybeCore = Stuck | Ok(c: Core)

  // ----- arithmetic of width w (64 bits when w, else 32) -----

  function Trunc(w: bool, x: int): u64 { if w then U64(x) else U32(x) }
  function Signed(w: bool, x: u64): int { if w then S64(x) else S32(x) }
  function Top(w: bool, x: u64): bool { Signed(w, x) < 0 }
  function InRange(w: bool, x: int): bool {
    if w then -0x8000_0000_0000_0000 <= x < 0x8000_0000_0000_0000 else -0x8000_0000 <= x < 0x8000_0000
  }

  /** Result written to the destination; a 32-bit result clears the upper half. */
  function AluResult(w: bool, op: AluOp, d: u64, s: u64): u64 {
    match op
    case XAdd => Trunc(w, Trunc(w, d) + Trunc(w, s))
    case XSub => Trunc(w, Trunc(w, d) - Trunc(w, s))
    case XOr => Trunc(w, Bitwise(BitOr, Trunc(w, d), Trunc(w, s)))
    case XAnd => Trunc(w, Bitwise(BitAnd, Trunc(w, d), Trunc(w, s)))
    case XXor => Trunc(w, Bitwise(BitXor, Trunc(w, d), Trunc(w, s)))
    case XMov => Trunc(w, s)
    case XCmp => d
    case XTest => d
  }

  function CmpFlags(w: bool, d: u64, s: u64): Flags {
    var a, b := Trunc(w, d), Trunc(w, s);
    Flags(a == b, a < b, Top(w, Trunc(w, a - b)), !InRange(w, Signed(w, a) - Signed(w, b)))
  }

  function TestFlags(w: bool, d: u64, s: u64): Flags {
    var r := Trunc(w, Bitwise(BitAnd, Trunc(w, d), Trunc(w, s)));
    Flags(r == 0, false, Top(w, r), false)
  }

  function AluExec(c: Core, w: bool, op: AluOp, d: reg, s: u64): Core {
    match op
    case XCmp => c.(flags := CmpFlags(w, c.regs[d], s))
    case XTest => c.(flags := TestFlags(w, c.regs[d], s))
    case XMov => c.(regs := c.regs[d := AluResult(w, op, c.regs[d], s)])
    case _ => c.(regs := c.regs[d := AluResult(w, op, c.regs[d], s)], flags := NoFlags)
  }

  function ShiftCount(w: bool, n: nat): nat { if w then n % 64 else n % 32 }

  function ShiftResult(w: bool, sh: ShiftOp, d: u64, n: nat): u64 {
    var a, k := Trunc(w, d), ShiftCount(w, n);
    match sh
    case XShl => Trunc(w, a * Pow2(k))
    case XShr => Trunc(w, a / Pow2(k))
    case XSar => Trunc(w, Signed(w, a) / Pow2(k))
    case XRol => Trunc(w, a * Pow2(k) + a / Pow2((if w then 64 else 32) - k))
  }

  function Rol16Result(d: u64, n: nat): u64 {
    var k, a := n % 16, d % 0x1_0000;
    U64(d - a + (a * Pow2(k) + a / Pow2(16 - k)) % 0x1_0000)
  }

  function SwapLE(x: nat, n: nat): nat { FromLE(Rev(ToLE(x, n))) }

  function Rev(s: seq<byte>): (r: seq<byte>)
    ensures |r| == |s|
  {
    seq(|s|, k requires 0 <= k < |s| => s[|s| - 1 - k])
  }

  function Holds(cc: CC, f: Flags): bool
    requires f.Flags?
  {
    match cc
    case CcE => f.zf
    case CcNE => !f.zf
    case CcA => !f.cf && !f.zf
    case CcAE => !f.cf
    case CcG => !f.zf && f.sf == f.of
    case CcGE => f.sf == f.of
  }

  // ----- memory operands -----

  function Sp(c: Core): int { c.regs[RSP] }

  function Ea(c: Core, base: reg, disp: int32): u64 { U64(c.regs[base] + disp) }

  ghost function PushVal(c: Core, v: u64): MaybeCore {
    var sp := U64(Sp(c) - 8);
    if !Mapped(c.mem, sp, 8) then Stuck
    else Ok(c.(regs := c.regs[RSP := sp], mem := Store(c.mem, sp, v, 8)))
  }

  ghost function PopTo(c: Core, r: reg): MaybeCore {
    var sp := c.regs[RSP];
    if !Mapped(c.mem, sp, 8) then Stuck
    else Ok(c.(regs := c.regs[RSP := U64(Sp(c) + 8)][r := U64(Load(c.mem, sp, 8))]))
  }

  ghost function DoLoad(c: Core, size: Width, base: reg, disp: int32, dst: reg): MaybeCore {
    var a, n := Ea(c, base, disp), WidthBytes(size);
    if !Mapped(c.mem, a, n) then Stuck else Ok(c.(regs := c.regs[dst := U64(Load(c.mem, a, n))]))
  }

  ghost function DoStore(c: Core, size: Width, base: reg, disp: int32, v: u64): MaybeCore {
    var a, n := Ea(c, base, disp), WidthBytes(size);
    if !Mapped(c.mem, a, n) then Stuck else Ok(c.(mem := Store(c.mem, a, v, n)))
  }

  /** mul: RDX:RAX := RAX * operand; the 32-bit form writes EDX and EAX. */
  function DoMul(c: Core, w: bool, r: reg): Core {
    var p := Trunc(w, c.regs[RAX]) * Trunc(w, c.regs[r]);
    var hi := if w then U64(p / 0x1_0000_0000_0000_0000) else U32(p / 0x1_0000_0000);
    c.(regs := c.regs[RAX := Trunc(w, p)][RDX := hi], flags := NoFlags)
  }

  /** div: RDX:RAX / operand, quotient to RAX and remainder to RDX. It faults (the machine is
      stuck) on a zero divisor or when the quotient does not fit. */
  function DoDiv(c: Core, w: bool, r: reg): MaybeCore {
    var hi, lo, v := Trunc(w, c.regs[RDX]), Trunc(w, c.regs[RAX]), Trunc(w, c.regs[r]);
    if hi >= v then Stuck
    else
      var n: int := if w then hi * 0x1_0000_0000_0000_0000 + lo else hi * 0x1_0000_0000 + lo;
      Ok(c.(regs := c.regs[RAX := Trunc(w, Quot(n, v))][RDX := Trunc(w, Rem(n, v))], flags := NoFlags))
  }

  /** The registers a called function preserves (System V AMD64 ABI, section 3.2.1). */
  predicate CalleeSaved(r: reg) { r == 3 || r == 4 || r == 5 || 12 <= r }

  ghost function Visible(w: World, m: Mem): Mem { map a | a in m && a in w.visible :: m[a] }

  function RegAfterCall(c: Core, value: u64, junk: XRegs, r: reg): u64 {
    if r == RAX then value else if CalleeSaved(r) then c.regs[r] else junk[r]
  }

  ghost function AfterCall(w: World, c: Core, res: CallResult): Core {
    var junk := w.junk(c);
    var below := w.junkMem(c);
    Core(seq(16, r requires 0 <= r < 16 => RegAfterCall(c, res.value, junk, r)),
         NoFlags,
         map a | a in c.mem ::
           if a in w.visible then (if a in res.mem then res.mem[a] else c.mem[a])
           else if a < c.regs[RSP] && a in below then below[a] else c.mem[a])
  }

  /** callq *%rax: the stack must be 16-byte aligned (section 3.2.2) and hold the return address. */
  ghost function DoCall(w: World, c: Core): MaybeCore {
    if c.regs[RSP] % 16 != 0 || !Mapped(c.mem, Sp(c) - 8, 8) then Stuck
    else
      var args := [c.regs[RDI], c.regs[RSI], c.regs[RDX], c.regs[RCX], c.regs[R8]];
      Ok(AfterCall(w, c, w.call(c.regs[RAX], args, Visible(w, c.mem))))
  }

  /** Straight-line instructions; jumps and ret are handled by Step. */
  ghost function Exec(w: World, i: Instr, c: Core): MaybeCore {
    match i
    case Push(r) => PushVal(c, c.regs[r])
    case Pop(r) => PopTo(c, r)
    case AluRR(wd, op, src, dst) => Ok(AluExec(c, wd, op, dst, c.regs[src]))
    case AluRI(wd, op, dst, imm) => Ok(AluExec(c, wd, op, dst, U64(imm)))
    case MovAbs(dst, v) => Ok(c.(regs := c.regs[dst := v]))
    case ShiftRI(wd, sh, dst, n) =>
      Ok(c.(regs := c.regs[dst := ShiftResult(wd, sh, c.regs[dst], n)], flags := NoFlags))
    case ShiftRC(wd, sh, dst) =>
      Ok(c.(regs := c.regs[dst := ShiftResult(wd, sh, c.regs[dst], c.regs[RCX] % 0x100)], flags := NoFlags))
    case Rol16(dst, n) => Ok(c.(regs := c.regs[dst := Rol16Result(c.regs[dst], n)], flags := NoFlags))
    case NegR(wd, dst) =>
      Ok(c.(regs := c.regs[dst := Trunc(wd, 0 - Trunc(wd, c.regs[dst]))], flags := NoFlags))
    case MulR(wd, r) => Ok(DoMul(c, wd, r))
    case DivR(wd, r) => DoDiv(c, wd, r)
    case Bswap(wd, dst) =>
      Ok(c.(regs := c.regs[dst := U64(SwapLE(Trunc(wd, c.regs[dst]), if wd then 8 else 4))]))
    case LoadM(size, base, disp, dst) => DoLoad(c, size, base, disp, dst)
    case StoreM(size, src, base, disp) => DoStore(c, size, base, disp, c.regs[src])
    case StoreI(size, base, disp, imm) => DoStore(c, size, base, disp, U64(imm))
    case CallRax => DoCall(w, c)
    case _ => Stuck
  }

  // ----- running code -----

  datatype Cpu = Cpu(rip: int, core: Core)

  /** Halted: `ret` was executed and the caller resumes at `ra`. */
  datatype Result = Running(m: Cpu) | Halted(core: Core, ra: u64) | Crashed

  ghost function StepDecoded(w: World, i: Instr, next: int, c: Core): Result {
    match i
    case Jmp(rel) => Running(Cpu(next + rel, c))
    case Jcc(cc, rel) =>
      if c.flags.NoFlags? then Crashed
      else Running(Cpu(if Holds(cc, c.flags) then next + rel else next, c))
    case Ret =>
      if !Mapped(c.mem, c.regs[RSP], 8) then Crashed
      else Halted(c.(regs := c.regs[RSP := U64(Sp(c) + 8)]), U64(Load(c.mem, c.regs[RSP], 8)))
    case _ =>
      match Exec(w, i, c)
      case Stuck => Crashed
      case Ok(c') => Running(Cpu(next, c'))
  }

  /** Fetch, decode and execute one instruction. */
  ghost function Step(w: World, code: seq<byte>, m: Cpu): Result {
    if !(0 <= m.rip < |code|) then Crashed
    else match Decode(code[m.rip..])
      case Bad => Crashed
      case Good(i, len) => StepDecoded(w, i, m.rip + len, m.core)
  }

  ghost function Steps(w: World, code: seq<byte>, m: Cpu, n: nat): Result
    decreases n
  {
    if n == 0 then Running(m)
    else match Step(w, code, m)
      case Running(m') => Steps(w, code, m', n - 1)
      case other => other
  }

  lemma {:induction false} StepsAdd(w: World, code: seq<byte>, m: Cpu, a: nat, b: nat)
    requires Steps(w, code, m, a).Running?
    ensures Steps(w, code, m, a + b) == Steps(w, code, Steps(w, code, m, a).m, b)
    decreases a
  {
    hide Step;
    if a > 0 {
      StepsAdd(w, code, Step(w, code, m).m, a - 1, b);
    }
  }
  lemma {:induction false} StepsPrefix(w: World, code: seq<byte>, m: Cpu, a: nat, b: nat)
    requires b <= a && Steps(w, code, m, a).Running?
    ensures Steps(w, code, m, b).Running?
    decreases a
  {
    hide Step;
    if b > 0 { StepsPrefix(w, code, Step(w, code, m).m, a - 1, b - 1); }
  }
}
