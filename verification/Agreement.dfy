/** When does compiled code compute what the interpreter computes? For every instruction the two
    are compared, the exact condition is given, and whole runs are put together. */
module Agreement {
  import opened Words
  import opened Memory
  import opened Ebpf
  import opened Interp
  import opened Safety
  import X86
  import M = Machine
  import J = JitSem

  // ----- ALU values -----

  function InterpAlu(is64: bool, kind: AluKind, useReg: bool, d: u64, s: u64, imm: int32): Value {
    if is64 then Alu64(kind, useReg, d, s, imm) else Alu32(kind, useReg, d, s, imm)
  }

  /** muldivmod looks at the immediate, not at the opcode: they must point to the same operand. */
  predicate OperandSelected(useReg: bool, imm: int32) { (imm != 0) == !useReg }

  /** Shift count of an LSH as the source reads it. */
  function Count(useReg: bool, s: u64, imm: int32): int { if useReg then s else imm }

  /** The guard, per instruction: a 32-bit register move needs a source below 2^32; a 32-bit left
      shift by 32..63 needs the surviving low bits to be zero; a register divisor must not be zero;
      multiplications and divisions need the selected operand. */
  predicate AluAgrees(is64: bool, kind: AluKind, useReg: bool, d: u64, s: u64, imm: int32) {
    match kind
    case Mov => !is64 && useReg ==> s < 0x1_0000_0000
    case Lsh => var n := Count(useReg, s, imm);
                !is64 && 32 <= n < 64 ==> U32(d) % Pow2(64 - n) == 0
    case Mul => OperandSelected(useReg, imm)
    case Div => OperandSelected(useReg, imm) && (useReg ==> s != 0)
    case Mod => OperandSelected(useReg, imm) && (useReg ==> s != 0)
    case _ => true
  }

  lemma {:induction false} SmallWord(x: u64)
    ensures U64(x) == x && U32(U64(x)) == U32(x)
  {
  }

  lemma {:induction false} ShiftMod(x: int, k: int)
    ensures U32(x - 0x1_0000_0000 * k) == U32(x)
  {
  }

  /** Low halves may be taken before adding or subtracting. */
  lemma {:induction false} ModSum(a: int, b: int)
    ensures U32(U32(a) + U32(b)) == U32(U64(a + b))
    ensures U32(U32(a) - U32(b)) == U32(U64(a - b))
  {
    var qa, qb := a / 0x1_0000_0000, b / 0x1_0000_0000;
    assert U32(a) == a - 0x1_0000_0000 * qa && U32(b) == b - 0x1_0000_0000 * qb;
    hide U32, U64;
    ShiftMod(a + b, qa + qb);
    ShiftMod(a - b, qa - qb);
    U32OfU64(a + b);
    U32OfU64(a - b);
  }

  lemma {:induction false} SimpleAgree(is64: bool, kind: AluKind, useReg: bool, d: u64, s: u64, imm: int32)
    requires kind == Add || kind == Sub || kind == Neg
    ensures J.AluVal(is64, kind, useReg, d, s, imm) == InterpAlu(is64, kind, useReg, d, s, imm)
  {
    hide U32, U64;
    var b := if useReg then s else U64(imm);
    SmallWord(d);
    SmallWord(b);
    ModSum(d, b);
    ModSum(0, d);
    assert U32(0) == 0 by { ZeroWord(); }
  }

  lemma {:induction false} ZeroWord()
    ensures U32(0) == 0
  {
  }

  /** A bitwise operation on 64 bits, masked, is the operation on the low 32 bits. */
  lemma {:induction false} BitwiseAgree(is64: bool, op: BitOp, d: u64, b: u64)
    ensures !is64 ==> U32(Bitwise(op, U32(d), U32(b))) == U32(Bitwise(op, d, b))
  {
    hide Bitwise, Pow2;
    Pow2Facts();
    BitwiseLow(op, d, b, 32);
    BitwiseBound(op, U32(d), U32(b), 32);
  }

  lemma {:induction false} LogicAgree(is64: bool, kind: AluKind, useReg: bool, d: u64, s: u64, imm: int32)
    requires kind == Or || kind == And || kind == Xor
    ensures J.AluVal(is64, kind, useReg, d, s, imm) == InterpAlu(is64, kind, useReg, d, s, imm)
  {
    hide Bitwise;
    var b := if useReg then s else U64(imm);
    BitwiseAgree(is64, BitOr, d, b);
    BitwiseAgree(is64, BitAnd, d, b);
    BitwiseAgree(is64, BitXor, d, b);
  }

  lemma {:induction false} U32OfU64Mul(a: int, b: int)
    ensures U32(U32(a) * U32(b)) == U32(U64(a * b))
  {
    MulModBoth(a, b, 0x1_0000_0000);
    U32OfU64(a * b);
  }

  lemma {:induction false} MulAgree(is64: bool, useReg: bool, d: u64, s: u64, imm: int32)
    requires OperandSelected(useReg, imm)
    ensures J.AluVal(is64, Mul, useReg, d, s, imm) == InterpAlu(is64, Mul, useReg, d, s, imm)
  {
    hide U32, U64;
    var b := if useReg then s else U64(imm);
    SmallWord(d);
    SmallWord(b);
    U32OfU64Mul(d, b);
  }

  lemma {:induction false} DivAgree(is64: bool, kind: AluKind, useReg: bool, d: u64, s: u64, imm: int32)
    requires OperandSelected(useReg, imm) && (kind == Div || kind == Mod)
    requires InterpAlu(is64, kind, useReg, d, s, imm).Val?
    ensures J.AluVal(is64, kind, useReg, d, s, imm) == InterpAlu(is64, kind, useReg, d, s, imm)
  {
    hide DivU, ModU;
  }

  /** A register divisor whose used half is zero: the compiled code faults; the interpreter reports an
      error if the whole register is zero and otherwise divides by zero, which C leaves undefined. */
  lemma {:induction false} ZeroDivisorFaults(is64: bool, kind: AluKind, d: u64, s: u64, imm: int32)
    requires (kind == Div || kind == Mod) && OperandSelected(true, imm) && M.Trunc(is64, s) == 0
    ensures J.AluVal(is64, kind, true, d, s, imm).NoValue?
    ensures InterpAlu(is64, kind, true, d, s, imm) == if s == 0 then ZeroDivisor else NoValue
  {
    hide DivU, ModU;
  }

  // ----- shifts -----

  lemma {:induction false} ByteModWidth(n: int)
    ensures (n % 0x100) % 64 == n % 64 && (n % 0x100) % 32 == n % 32
  {
    var q, r := n / 0x100, n % 0x100;
    DivModUnique(n, 64, 4 * q + r / 64, r % 64);
    DivModUnique(n, 32, 8 * q + r / 32, r % 32);
  }

  lemma {:induction false} ShiftAgree(is64: bool, kind: AluKind, useReg: bool, d: u64, s: u64, imm: int32)
    requires kind == Rsh || kind == Arsh
    requires InterpAlu(is64, kind, useReg, d, s, imm).Val?
    ensures J.AluVal(is64, kind, useReg, d, s, imm) == InterpAlu(is64, kind, useReg, d, s, imm)
  {
    hide Pow2, S32, S64, U64, Shr;
    var n := if useReg && !is64 && kind == Arsh then U32(s) else Count(useReg, s, imm);
    assert (if useReg then s % 0x100 else imm % 0x100) == n % 0x100 by { LowByte(s); }
    SmallCount(n);
    SmallWord(d);
    S32OfLow(d);
    ShrIsDiv(d, n);
    ShrIsDiv(U32(d), n);
    ShrIsDiv(S32(d), n);
    ShrIsDiv(S64(d), n);
  }

  lemma {:induction false} LowByte(s: u64)
    ensures U32(s) % 0x100 == s % 0x100
  {
  }

  lemma {:induction false} SmallCount(n: int)
    ensures 0 <= n < 64 ==> M.ShiftCount(true, n % 0x100) == n
    ensures 0 <= n < 32 ==> M.ShiftCount(false, n % 0x100) == n
  {
  }

  lemma {:induction false} S32OfLow(d: u64)
    ensures S32(U32(d)) == S32(d)
  {
  }

  lemma {:induction false} ShrIsDiv(x: int, n: int)
    ensures n >= 0 ==> Shr(x, n) == x / Pow2(n)
  {
  }

  /** 64-bit left shifts always agree where C defines them; 32-bit ones exactly under the guard. */
  lemma {:induction false} LshExact(is64: bool, useReg: bool, d: u64, s: u64, imm: int32)
    requires InterpAlu(is64, Lsh, useReg, d, s, imm).Val?
    ensures J.AluVal(is64, Lsh, useReg, d, s, imm) == InterpAlu(is64, Lsh, useReg, d, s, imm)
            <==> AluAgrees(is64, Lsh, useReg, d, s, imm)
  {
    hide Pow2, U64, U32;
    var n := Count(useReg, s, imm);
    var m := n % 0x100;
    SmallCount(n);
    SmallWord(d);
    if is64 {
      assert M.ShiftCount(true, m) == n;
    } else if n < 32 {
      LshLow(d, n);
    } else {
      ByteModWidth(n);
      LshHigh(d, n);
    }
  }

  lemma {:induction false} LshLow(d: u64, n: nat)
    ensures U32(U32(d) * Pow2(n)) == U32(U64(d * Pow2(n)))
  {
    MulMod(d, Pow2(n), 0x1_0000_0000);
    U32OfU64(d * Pow2(n));
  }

  lemma {:induction false} MultipleMod(a: int, p: int)
    requires p > 0
    ensures (a * p) % p == 0
  {
    DivModUnique(a * p, p, a, 0);
  }

  lemma {:induction false} MulBetween(r: nat, p: nat, q: nat)
    requires p > 0 && r < q
    ensures 0 <= r * p < q * p && (r * p == 0 <==> r == 0)
  {
    assert q * p == r * p + (q - r) * p;
    MulAtLeast(q - r, p);
    if r > 0 { MulAtLeast(r, p); }
  }

  /** p divides out of both sides of a residue test. */
  lemma {:induction false} CancelMod(x: nat, p: nat, q: nat)
    requires p > 0 && q > 0
    ensures q * p > 0
    ensures (x * p) % (q * p) == 0 <==> x % q == 0
  {
    var h, r := x / q, x % q;
    MulBetween(r, p, q);
    assert x * p == (q * p) * h + r * p by { Distribute(x, p, q, h, r); }
    DivModUnique(x * p, q * p, h, r * p);
  }

  lemma {:induction false} Distribute(x: nat, p: nat, q: nat, h: nat, r: nat)
    requires x == q * h + r
    ensures x * p == (q * p) * h + r * p
  {
    assert (q * h) * p == (q * p) * h;
  }

  lemma {:induction false} LshHigh(d: u64, n: nat)
    requires 32 <= n < 64
    ensures U32(U64(d * Pow2(n))) == 0
    ensures U32(U32(d) * Pow2(n % 32)) == 0 <==> U32(d) % Pow2(64 - n) == 0
  {
    LshHighZero(d, n);
    LshHighRest(U32(d), n - 32);
    assert n % 32 == n - 32;
  }

  lemma {:induction false} LshHighZero(d: u64, n: nat)
    requires 32 <= n
    ensures U32(U64(d * Pow2(n))) == 0
  {
    hide Pow2, U64;
    Pow2Facts();
    Pow2Add(n - 32, 32);
    var p := Pow2(n - 32);
    assert d * (p * 0x1_0000_0000) == (d * p) * 0x1_0000_0000;
    MultipleMod(d * p, 0x1_0000_0000);
    U32OfU64(d * Pow2(n));
  }

  lemma {:induction false} LshHighRest(x: u32, k: nat)
    requires k < 32
    ensures U32(x * Pow2(k)) == 0 <==> x % Pow2(32 - k) == 0
  {
    hide Pow2;
    Pow2Facts();
    Pow2Add(32 - k, k);
    CancelMod(x, Pow2(k), Pow2(32 - k));
  }

  lemma {:induction false} MovExact(is64: bool, useReg: bool, d: u64, s: u64, imm: int32)
    ensures J.AluVal(is64, Mov, useReg, d, s, imm) == InterpAlu(is64, Mov, useReg, d, s, imm)
            <==> AluAgrees(is64, Mov, useReg, d, s, imm)
  {
  }

  /** Where C defines the result (and, for multiplication and division, the operand is the selected
      one), the two values are equal exactly under the guard. */
  lemma {:induction false} AluExact(is64: bool, kind: AluKind, useReg: bool, d: u64, s: u64, imm: int32)
    requires InterpAlu(is64, kind, useReg, d, s, imm) != NoValue && (kind == Neg ==> !useReg)
    requires IsMulDivMod(kind) ==> OperandSelected(useReg, imm)
    ensures J.AluVal(is64, kind, useReg, d, s, imm) == InterpAlu(is64, kind, useReg, d, s, imm)
            <==> AluAgrees(is64, kind, useReg, d, s, imm)
  {
    hide J.AluVal, Bitwise, Pow2, DivU, ModU;
    if kind == Add || kind == Sub || kind == Neg { SimpleAgree(is64, kind, useReg, d, s, imm); }
    else if kind == Or || kind == And || kind == Xor { LogicAgree(is64, kind, useReg, d, s, imm); }
    else if kind == Mul { MulAgree(is64, useReg, d, s, imm); }
    else if kind == Div || kind == Mod {
      if useReg && s == 0 { ZeroDivisorFaults(is64, kind, d, s, imm); } else { DivAgree(is64, kind, useReg, d, s, imm); }
    }
    else if kind == Rsh || kind == Arsh { ShiftAgree(is64, kind, useReg, d, s, imm); }
    else if kind == Lsh { LshExact(is64, useReg, d, s, imm); }
    else { MovExact(is64, useReg, d, s, imm); }
  }

  /** With the wrong operand selected, some registers give different results: the guard on the
      immediate field cannot be dropped for any multiplication or division. */
  lemma {:induction false} WrongOperandDiverges(is64: bool, kind: AluKind, useReg: bool, imm: int32) returns (d: u64, s: u64)
    requires IsMulDivMod(kind) && !OperandSelected(useReg, imm) && (kind != Mul ==> useReg)
    ensures InterpAlu(is64, kind, useReg, d, s, imm).Val?
    ensures J.AluVal(is64, kind, useReg, d, s, imm) != InterpAlu(is64, kind, useReg, d, s, imm)
  {
    if kind == Mul {
      d, s := 1, if imm == 1 then 2 else 1;
      MulOne(is64, useReg, s, imm);
    } else {
      var e := M.Trunc(is64, U64(imm));
      assert imm != 1 ==> e > 1;
      d := if imm == 1 && kind == Div then 2 else 1;
      s := if imm == 1 then 2 else 1;
      DivSmall(d, s);
      DivSmall(d, e);
      hide DivU, ModU, U32, U64;
      assert U32(d) == d && U32(s) == s && U64(d) == d && U64(s) == s by { SmallTrunc(d); SmallTrunc(s); }
      assert U32(U64(1)) == 1 && U64(1) == 1 by { SmallTrunc(1); }
    }
  }

  lemma {:induction false} SmallTrunc(x: u64)
    requires x < 0x1_0000_0000
    ensures U32(x) == x && U64(x) == x
  {
  }

  lemma {:induction false} DivSmall(x: u64, y: u64)
    requires y > 0
    ensures x < y ==> DivU(x, y) == 0 && ModU(x, y) == x
    ensures DivU(2, 1) == 2 && DivU(2, 2) == 1 && ModU(1, 1) == 0 && DivU(1, 1) == 1
  {
    if x < y {
      DivModUnique(x, y, 0, x);
    }
  }

  lemma {:induction false} MulOne(is64: bool, useReg: bool, s: u64, imm: int32)
    requires !OperandSelected(useReg, imm) && s == if imm == 1 then 2 else 1
    ensures J.AluVal(is64, Mul, useReg, 1, s, imm) != InterpAlu(is64, Mul, useReg, 1, s, imm)
  {
  }

  // ----- byte order -----

  lemma {:induction false} ReverseIsRev(s: seq<byte>)
    ensures Reverse(s) == M.Rev(s)
  {
    if s != [] {
      ReverseIsRev(s[1..]);
      var r := Reverse(s);
      forall k | 0 <= k < |s|
        ensures r[k] == s[|s| - 1 - k]
      {
        if k < |s| - 1 {
          assert M.Rev(s[1..])[k] == s[1..][|s| - 2 - k];
        }
      }
    }
  }

  lemma {:induction false} SwapSame(x: nat, n: nat)
    ensures SwapBytes(x, n) == M.SwapLE(x, n)
  {
    ReverseIsRev(ToLE(x, n));
  }

  /** rol by 8 in 16 bits, then and with 0xffff, is the 16-bit byte swap. */
  lemma {:induction false} Swap16(x: u64)
    ensures M.AluResult(false, X86.XAnd, M.Rol16Result(x, 8), 0xffff) == U64(SwapBytes(x % 0x1_0000, 2))
  {
    hide M.AluResult, M.Rol16Result, SwapBytes;
    SwapTwo(x % 0x1_0000);
    Rol8(x);
    MaskLow16(M.Rol16Result(x, 8));
  }

  lemma {:induction false} SwapTwo(a: nat)
    requires a < 0x1_0000
    ensures SwapBytes(a, 2) == (a % 0x100) * 0x100 + a / 0x100
  {
    var t := ToLE(a, 2);
    assert ToLE(a / 0x100, 1) == [a / 0x100];
    assert t == [a % 0x100, a / 0x100];
    var r := [a / 0x100, a % 0x100];
    ReverseIsRev(t);
    assert M.Rev(t) == r;
    assert r[1..] == [a % 0x100] && FromLE(r[1..]) == a % 0x100 by { OneFromLE(a % 0x100); }
  }

  lemma {:induction false} OneFromLE(b: byte)
    ensures FromLE([b]) == b
  {
    assert FromLE([b][1..]) == 0;
  }

  lemma {:induction false} Rol8(x: u64)
    ensures var a := x % 0x1_0000;
      M.Rol16Result(x, 8) % 0x1_0000 == (a % 0x100) * 0x100 + a / 0x100
  {
    hide Pow2;
    Pow2Facts();
    var a := x % 0x1_0000;
    RolByte(a);
    LowReplaced(x, (a % 0x100) * 0x100 + a / 0x100);
    hide U64;
  }

  lemma {:induction false} RolByte(a: nat)
    requires a < 0x1_0000
    ensures (a * 0x100 + a / 0x100) % 0x1_0000 == (a % 0x100) * 0x100 + a / 0x100
  {
    var h, l := a / 0x100, a % 0x100;
    assert a * 0x100 + h == 0x1_0000 * h + (l * 0x100 + h);
  }

  lemma {:induction false} LowReplaced(x: u64, v: nat)
    requires v < 0x1_0000
    ensures U64(x - x % 0x1_0000 + v) % 0x1_0000 == v
  {
    var h := x / 0x1_0000;
    assert x - x % 0x1_0000 + v == 0x1_0000 * h + v;
  }

  lemma {:induction false} MaskLow16(r: u64)
    ensures M.AluResult(false, X86.XAnd, r, 0xffff) == r % 0x1_0000
  {
    hide Bitwise, Pow2;
    Pow2Facts();
    AndMask(U32(r), 16);
    Low16Of32(r);
    assert M.Trunc(false, 0xffff) == 0xffff;
  }

  lemma {:induction false} Low16Of32(r: u64)
    ensures U32(r) % 0x1_0000 == r % 0x1_0000 && U32(r % 0x1_0000) == r % 0x1_0000
  {
  }

  /** LE is compiled to nothing: it agrees exactly on values that fit already. BE always agrees. */
  predicate EndianAgrees(big: bool, imm: int32, x: u64) {
    big || ((imm == 16 ==> x < 0x1_0000) && (imm == 32 ==> x < 0x1_0000_0000))
  }

  lemma {:induction false} EndianExact(big: bool, imm: int32, x: u64)
    ensures J.EndianVal(big, imm, x) == EndianVal(big, imm, x) <==> EndianAgrees(big, imm, x)
  {
    hide SwapBytes, M.SwapLE, M.Rol16Result, M.AluResult;
    SwapSame(U32(x), 4);
    SwapSame(x, 8);
    Swap16(x);
  }

  // ----- comparisons -----

  /** An unsigned comparison with a negative immediate agrees unless the register lies between the
      zero-extended and the sign-extended immediate. */
  predicate JumpAgrees(cond: Cond, useReg: bool, d: u64, imm: int32) {
    !useReg && imm < 0 ==>
      (cond == Gt ==> !(U32(imm) < d <= U64(imm))) && (cond == Ge ==> !(U32(imm) <= d < U64(imm)))
  }

  lemma {:induction false} JumpExact(cond: Cond, useReg: bool, d: u64, s: u64, imm: int32)
    ensures J.Taken(cond, useReg, d, s, imm) == Taken(cond, useReg, d, s, imm) <==> JumpAgrees(cond, useReg, d, imm)
  {
    hide Bitwise;
    assert imm >= 0 ==> U32(imm) == U64(imm);
    assert imm < 0 ==> U32(imm) < U64(imm);
  }

  // ----- steps -----

  predicate SelectedAt(inst: Inst) {
    match inst.Op()
    case Alu(_, kind, useReg) => IsMulDivMod(kind) ==> OperandSelected(useReg, inst.imm)
    case _ => true
  }

  /** The guard for one step: what a caller could check about the instruction and its registers. */
  predicate StepAgrees(env: Env, inst: Inst, regs: Regs) {
    var d, x := regs[inst.dst], regs[inst.src];
    match inst.Op()
    case Alu(is64, kind, useReg) => AluAgrees(is64, kind, useReg, d, x, inst.imm)
    case Endian(big) => EndianAgrees(big, inst.imm, d)
    case Ldx(size) => InBounds(env, U64(x + inst.offset), SizeBytes(size))
    case St(size) => InBounds(env, U64(d + inst.offset), SizeBytes(size))
    case Stx(size) => InBounds(env, U64(d + inst.offset), SizeBytes(size))
    case Jcond(cond, useReg) => inst.offset == 0 || JumpAgrees(cond, useReg, d, inst.imm)
    case _ => true
  }

  /** Registers the step reads have a determined content. */
  ghost predicate ReadsKnown(env: Env, inst: Inst, known: set<int>) {
    J.Reads(inst, env.arity(inst.imm)) <= known
  }

  /** Same next state, or same result and memory. An interpreter error is matched by nothing. */
  ghost predicate SameOutcome(a: Outcome, b: J.JOutcome) {
    match a
    case Next(s) => b.JNext? && b.s == s
    case Done(v, m) => b == J.JDone(v, m)
    case Failed => false
    case Undefined => true
  }

  lemma {:induction false} AluStepExact(env: Env, prog: seq<Inst>, s: State, known: set<int>)
    requires 0 <= s.pc < |prog| && prog[s.pc].Op().Alu? && SelectedAt(prog[s.pc])
    requires ReadsKnown(env, prog[s.pc], known) && Step(env, prog, s) != Undefined
    ensures SameOutcome(Step(env, prog, s), J.Step(env, prog, s, known)) <==> StepAgrees(env, prog[s.pc], s.regs)
  {
    hide OpOf, J.AluVal, Alu32, Alu64, AluAgrees, NextPc, J.Reads;
    var inst := prog[s.pc];
    var Alu(is64, kind, useReg) := inst.Op();
    NegNoReg(inst.opcode);
    var d, x := s.regs[inst.dst], s.regs[inst.src];
    AluExact(is64, kind, useReg, d, x, inst.imm);
    var a, b := InterpAlu(is64, kind, useReg, d, x, inst.imm), J.AluVal(is64, kind, useReg, d, x, inst.imm);
    if a.Val? && b.Val? {
      var ra, rb := s.regs[inst.dst := a.v], s.regs[inst.dst := b.v];
      assert ra[inst.dst] == a.v && rb[inst.dst] == b.v;
    } else if a.ZeroDivisor? {
      AluZero(is64, kind, useReg, d, x, inst.imm);
    }
  }

  /** A reported zero divisor is outside the guard. */
  lemma {:induction false} AluZero(is64: bool, kind: AluKind, useReg: bool, d: u64, s: u64, imm: int32)
    requires InterpAlu(is64, kind, useReg, d, s, imm).ZeroDivisor?
    ensures !AluAgrees(is64, kind, useReg, d, s, imm)
  {
    hide DivU, ModU, Bitwise, Pow2;
  }

  lemma {:induction false} NegNoReg(opcode: byte)
    ensures OpOf(opcode).Alu? && OpOf(opcode).kind == Neg ==> !OpOf(opcode).useReg
  {
  }

  lemma {:induction false} EndianStepExact(env: Env, prog: seq<Inst>, s: State, known: set<int>)
    requires 0 <= s.pc < |prog| && prog[s.pc].Op().Endian?
    requires ReadsKnown(env, prog[s.pc], known)
    ensures SameOutcome(Step(env, prog, s), J.Step(env, prog, s, known)) <==> StepAgrees(env, prog[s.pc], s.regs)
  {
    hide OpOf, J.EndianVal, EndianVal, EndianAgrees, NextPc, J.Reads;
    var inst := prog[s.pc];
    var big := inst.Op().big;
    var a, b := EndianVal(big, inst.imm, s.regs[inst.dst]), J.EndianVal(big, inst.imm, s.regs[inst.dst]);
    EndianExact(big, inst.imm, s.regs[inst.dst]);
    var ra, rb := s.regs[inst.dst := a], s.regs[inst.dst := b];
    assert ra[inst.dst] == a && rb[inst.dst] == b;
    var sa, sb := State(NextPc(s.pc, 0), ra, s.mem), State(NextPc(s.pc, 0), rb, s.mem);
    assert Step(env, prog, s) == Next(sa);
    assert J.Step(env, prog, s, known) == J.JNext(sb, known);
    assert sa.regs == ra && sb.regs == rb;
    assert sa == sb <==> a == b;
  }

  lemma {:induction false} MemStepExact(env: Env, prog: seq<Inst>, s: State, known: set<int>)
    requires 0 <= s.pc < |prog| && (prog[s.pc].Op().Ldx? || prog[s.pc].Op().St? || prog[s.pc].Op().Stx?)
    requires ReadsKnown(env, prog[s.pc], known) && Step(env, prog, s) != Undefined
    ensures SameOutcome(Step(env, prog, s), J.Step(env, prog, s, known)) <==> StepAgrees(env, prog[s.pc], s.regs)
  {
    hide OpOf, InBounds, Load, Store, NextPc, J.Reads, Mapped;
  }

  /** A branch decision only matters when the jump leads elsewhere than to the next slot. */
  lemma {:induction false} JumpStepExact(env: Env, prog: seq<Inst>, s: State, known: set<int>)
    requires 0 <= s.pc < |prog| < MAX_INSTS && prog[s.pc].Op().Jcond? && ReadsKnown(env, prog[s.pc], known)
    requires 0 <= s.pc + 1 + prog[s.pc].offset < |prog|
    ensures SameOutcome(Step(env, prog, s), J.Step(env, prog, s, known)) <==> StepAgrees(env, prog[s.pc], s.regs)
  {
    hide OpOf, Taken, J.Taken, JumpAgrees, J.Reads;
    var inst := prog[s.pc];
    JumpExact(inst.Op().cond, inst.Op().useReg, s.regs[inst.dst], s.regs[inst.src], inst.imm);
    assert NextPc(s.pc, inst.offset) == s.pc + 1 + inst.offset && NextPc(s.pc, 0) == s.pc + 1;
  }

  lemma {:induction false} OtherStepAgrees(env: Env, prog: seq<Inst>, s: State, known: set<int>)
    requires 0 <= s.pc < |prog| && ReadsKnown(env, prog[s.pc], known)
    requires var op := prog[s.pc].Op(); op.Lddw? || op.Ja? || op.Call? || op.Exit?
    ensures SameOutcome(Step(env, prog, s), J.Step(env, prog, s, known))
  {
    hide OpOf, Wide, NextPc, RunHelper;
  }

  /** That its registers are determined cannot be dropped from the guard: otherwise the compiled code
      has no determined result. */
  lemma {:induction false} UnknownReads(env: Env, prog: seq<Inst>, s: State, known: set<int>)
    requires 0 <= s.pc < |prog| && !ReadsKnown(env, prog[s.pc], known)
    ensures J.Step(env, prog, s, known) == J.NoResult
  {
    hide OpOf, J.AluVal, J.EndianVal, J.Taken, RunHelper, J.Reads;
  }

  /** The exact condition, for every instruction of a validated program: where C defines the step,
      its registers are determined and the operand is the selected one, the compiled code does what
      the interpreter does if and only if the guard holds. */
  lemma {:induction false} StepExact(env: Env, prog: seq<Inst>, funcs: set<int>, s: State, known: set<int>)
    requires Validated(prog, funcs) && 0 <= s.pc < |prog| && !IsTail(prog, s.pc)
    requires ReadsKnown(env, prog[s.pc], known) && SelectedAt(prog[s.pc])
    requires Step(env, prog, s) != Undefined
    ensures SameOutcome(Step(env, prog, s), J.Step(env, prog, s, known)) <==> StepAgrees(env, prog[s.pc], s.regs)
  {
    hide OpOf, Step, J.Step, SameOutcome, ReadsKnown, SelectedAt, IsTail, Validated, AluAgrees, JumpAgrees, EndianAgrees, RegsOk;
    ValidAt(prog, funcs, s.pc);
    match prog[s.pc].Op()
    case Alu(_, _, _) => AluStepExact(env, prog, s, known);
    case Endian(_) => EndianStepExact(env, prog, s, known);
    case Ldx(_) => MemStepExact(env, prog, s, known);
    case St(_) => MemStepExact(env, prog, s, known);
    case Stx(_) => MemStepExact(env, prog, s, known);
    case Jcond(_, _) => JumpStepExact(env, prog, s, known);
    case Unknown =>
    case _ => OtherStepAgrees(env, prog, s, known);
  }

  lemma {:induction false} SelectedByGuard(env: Env, inst: Inst, regs: Regs)
    requires inst.Op().Alu? && StepAgrees(env, inst, regs)
    ensures SelectedAt(inst)
  {
    hide OpOf;
  }

  /** A defined interpreter step that meets the guard is a step of the compiled code. */
  lemma {:induction false} StepRefines(env: Env, prog: seq<Inst>, funcs: set<int>, s: State, known: set<int>)
    requires Validated(prog, funcs) && 0 <= s.pc < |prog| && !IsTail(prog, s.pc) && ReadsKnown(env, prog[s.pc], known)
    requires Step(env, prog, s) != Undefined && StepAgrees(env, prog[s.pc], s.regs)
    ensures SameOutcome(Step(env, prog, s), J.Step(env, prog, s, known))
  {
    hide OpOf, Step, J.Step, SameOutcome, ReadsKnown, IsTail, Validated, StepAgrees;
    if prog[s.pc].Op().Alu? { SelectedByGuard(env, prog[s.pc], s.regs); }
    StepExact(env, prog, funcs, s, known);
  }

  // ----- runs -----

  /** Every step of the run meets the guard and reads determined registers only. */
  ghost predicate AgreesAlong(env: Env, prog: seq<Inst>, s: State, known: set<int>, n: nat)
    decreases n
  {
    n > 0 && 0 <= s.pc < |prog| ==>
      ReadsKnown(env, prog[s.pc], known) && StepAgrees(env, prog[s.pc], s.regs) &&
      (J.Step(env, prog, s, known).JNext? ==>
        AgreesAlong(env, prog, J.Step(env, prog, s, known).s, J.Step(env, prog, s, known).known, n - 1))
  }

  /** An interpreter run that meets the guard throughout and reports no error is a run of the compiled
      code: with the same result and memory if it is finished, in the same state if it is not. */
  lemma {:induction false} RunRefines(env: Env, prog: seq<Inst>, funcs: set<int>, s: State, known: set<int>, n: nat)
    requires Validated(prog, funcs) && PcOk(prog, s.pc)
    requires (Run(env, prog, s, n).Done? || Run(env, prog, s, n).Next?) && AgreesAlong(env, prog, s, known, n)
    ensures var r, j := Run(env, prog, s, n), J.Run(env, prog, s, known, n);
      if r.Done? then j == J.JDone(r.value, r.mem) else j.JNext? && j.s == r.s
    decreases n
  {
    hide Step, J.Step, OpOf, StepAgrees, ReadsKnown, Validated, IsTail;
    if n > 0 {
      PcInside(env, prog, s);
      StepRefines(env, prog, funcs, s, known);
      if Step(env, prog, s).Next? {
        StepSafe(env, prog, funcs, s);
        RunRefines(env, prog, funcs, Step(env, prog, s).s, J.Step(env, prog, s, known).known, n - 1);
      }
    }
  }

  /** At a register division whose used divisor half is zero the interpreter reports an error if the
      whole register is zero; otherwise C leaves the step undefined. */
  lemma {:induction false} ZeroDivisorStep(env: Env, prog: seq<Inst>, s: State)
    requires 0 <= s.pc < |prog| && prog[s.pc].Op().Alu? && (prog[s.pc].Op().kind == Div || prog[s.pc].Op().kind == Mod)
    requires prog[s.pc].Op().useReg && prog[s.pc].imm == 0 && M.Trunc(prog[s.pc].Op().is64, s.regs[prog[s.pc].src]) == 0
    ensures Step(env, prog, s) == if s.regs[prog[s.pc].src] == 0 then Failed else Undefined
  {
    hide OpOf, M.Trunc, Alu32, Alu64;
    var inst := prog[s.pc];
    ZeroDivisorFaults(inst.Op().is64, inst.Op().kind, s.regs[inst.dst], s.regs[inst.src], inst.imm);
  }

  lemma {:induction false} PcInside(env: Env, prog: seq<Inst>, s: State)
    ensures Step(env, prog, s) != Undefined ==> 0 <= s.pc < |prog|
  {
    hide OpOf;
  }
}
