/** Running the installed bytes: a slot's bytes execute as its body followed by its jump. */
module CodeRun {
  import opened Words
  import opened Ebpf
  import opened X86
  import opened Machine
  import opened Encoding
  import opened Jit
  import opened Simulation
  import opened SlotSim
  import Interp

  lemma {:induction false} FetchOne(w: World, code: seq<byte>, i: Instr, m: Cpu)
    requires Encodable(i) && CodeAt(code, m.rip, Encode(i)) && |Encode(i)| > 0
    ensures Step(w, code, m) == StepDecoded(w, i, m.rip + |Encode(i)|, m.core)
  {
    hide Decode, Encode, StepDecoded, Encodable;
    var rest := code[m.rip + |Encode(i)|..];
    DecodeEncode(i, rest);
    assert code[m.rip..] == Encode(i) + rest;
  }

  lemma {:induction false} EncodeNonEmpty(i: Instr)
    ensures |Encode(i)| > 0
  {
  }

  predicate AllEncodable(xs: seq<Instr>) { forall k :: 0 <= k < |xs| ==> Encodable(xs[k]) }

  /** Instructions that Exec accepts are straight-line. */
  lemma {:induction false} ExecIsStep(w: World, i: Instr, next: int, c: Core)
    requires Exec(w, i, c).Ok?
    ensures StepDecoded(w, i, next, c) == Running(Cpu(next, Exec(w, i, c).c))
  {
    hide DoCall, DoDiv, DoMul, DoLoad, DoStore, PushVal, PopTo, AluExec, ShiftResult, Rol16Result, SwapLE;
  }

  lemma {:induction false} BlockSteps(w: World, code: seq<byte>, xs: seq<Instr>, m: Cpu)
    requires AllEncodable(xs) && CodeAt(code, m.rip, EncodeAll(xs)) && RunBlock(w, xs, m.core).Ok?
    ensures Steps(w, code, m, |xs|) == Running(Cpu(m.rip + |EncodeAll(xs)|, RunBlock(w, xs, m.core).c))
    decreases |xs|
  {
    hide Exec, Encode, Encodable, Step, StepDecoded;
    if xs != [] {
      var x, e := xs[0], Encode(xs[0]);
      EncodeNonEmpty(x);
      assert EncodeAll(xs) == e + EncodeAll(xs[1..]);
      var all := code[m.rip..m.rip + |EncodeAll(xs)|];
      assert code[m.rip..m.rip + |e|] == all[..|e|];
      FetchOne(w, code, x, m);
      ExecIsStep(w, x, m.rip + |e|, m.core);
      var m' := Cpu(m.rip + |e|, Exec(w, x, m.core).c);
      assert code[m'.rip..m'.rip + |EncodeAll(xs[1..])|] == all[|e|..];
      BlockSteps(w, code, xs[1..], m');
    }
  }

  predicate Straight(i: Instr) { !i.Jmp? && !i.Jcc? && !i.Ret? }

  lemma {:induction false} StuckIsCrash(w: World, i: Instr, next: int, c: Core)
    requires Straight(i) && Exec(w, i, c).Stuck?
    ensures StepDecoded(w, i, next, c) == Crashed
  {
    hide Exec;
  }

  /** A block that gets stuck crashes the machine. */
  lemma {:induction false} BlockCrashes(w: World, code: seq<byte>, xs: seq<Instr>, m: Cpu) returns (k: nat)
    requires AllEncodable(xs) && CodeAt(code, m.rip, EncodeAll(xs)) && RunBlock(w, xs, m.core).Stuck?
    requires forall i :: 0 <= i < |xs| ==> Straight(xs[i])
    ensures Steps(w, code, m, k) == Crashed
    decreases |xs|
  {
    hide Exec, Encode, Encodable, Step, StepDecoded, Straight;
    var x, e := xs[0], Encode(xs[0]);
    EncodeNonEmpty(x);
    assert EncodeAll(xs) == e + EncodeAll(xs[1..]);
    var all := code[m.rip..m.rip + |EncodeAll(xs)|];
    assert code[m.rip..m.rip + |e|] == all[..|e|];
    FetchOne(w, code, x, m);
    if Exec(w, x, m.core).Stuck? {
      StuckIsCrash(w, x, m.rip + |e|, m.core);
      k := 1;
    } else {
      ExecIsStep(w, x, m.rip + |e|, m.core);
      var m' := Cpu(m.rip + |e|, Exec(w, x, m.core).c);
      assert code[m'.rip..m'.rip + |EncodeAll(xs[1..])|] == all[|e|..];
      k := BlockCrashes(w, code, xs[1..], m');
      k := k + 1;
    }
  }

  /** A slot placed in the code: its body runs, then its jump (if any) decides the next location. */
  lemma {:induction false} SlotRuns(w: World, code: seq<byte>, s: Slot, rel: int32, m: Cpu) returns (k: nat)
    requires AllEncodable(s.body) && CodeAt(code, m.rip, SlotBytes(s, rel))
    requires RunBlock(w, s.body, m.core).Ok? && JumpReady(s.jump, RunBlock(w, s.body, m.core).c)
    ensures var c' := RunBlock(w, s.body, m.core).c;
      var end := m.rip + |SlotBytes(s, rel)|;
      Steps(w, code, m, k) == Running(Cpu(if JumpTaken(s.jump, c') then end + rel else end, c'))
    ensures k == |s.body| + (if s.jump.NoJump? then 0 else 1)
  {
    hide RunBlock, Encode, Step, Holds, EncodeAll, AllEncodable;
    var c' := RunBlock(w, s.body, m.core).c;
    var b := EncodeAll(s.body);
    var all := code[m.rip..m.rip + |SlotBytes(s, rel)|];
    assert code[m.rip..m.rip + |b|] == all[..|b|];
    BlockSteps(w, code, s.body, m);
    k := |s.body|;
    if !s.jump.NoJump? {
      var i := JumpInstr(s.jump, rel);
      var m' := Cpu(m.rip + |b|, c');
      assert code[m'.rip..m'.rip + |Encode(i)|] == all[|b|..];
      EncodeNonEmpty(i);
      FetchOne(w, code, i, m');
      StepsAdd(w, code, m, |s.body|, 1);
      assert Steps(w, code, m', 1) == Step(w, code, m') by {
        assert Step(w, code, m').Running? ==> Steps(w, code, Step(w, code, m').m, 0) == Step(w, code, m');
      }
      k := |s.body| + 1;
    }
  }

  /** Everything the compiler emits for a mapped program has a unique encoding: no SIB byte is ever
      needed because no eBPF register is mapped to RSP or R12. */
  lemma {:induction false} SlotEncodable(rm: RegMap, link: Link, prog: seq<Inst>, i: nat)
    requires ValidMap(rm) && i < |prog|
    ensures AllEncodable(SlotOf(rm, link, prog, i).body)
  {
    hide OpOf, LoadImm, Interp.Wide;
    var inst := prog[i];
    assert Mappable(rm[inst.dst % 11]) && Mappable(rm[inst.src % 11]);
    match inst.Op()
    case Alu(is64, kind, useReg) =>
      AluEncodable(is64, kind, useReg, MapReg(rm, inst.src), MapReg(rm, inst.dst), inst.imm);
    case Lddw => LoadImmEncodable(MapReg(rm, inst.dst), Interp.Wide(inst.imm, if i + 1 < |prog| then prog[i + 1].imm else 0));
    case Call => LoadImmEncodable(RAX, link.func(inst.imm));
    case _ =>
  }

  lemma {:induction false} LoadImmEncodable(dst: reg, v: u64)
    ensures Encodable(LoadImm(dst, v))
  {
  }

  lemma {:induction false} AluEncodable(is64: bool, kind: AluKind, useReg: bool, src: reg, dst: reg, imm: int32)
    ensures AllEncodable(AluBody(is64, kind, useReg, src, dst, imm))
  {
    hide LoadImm;
    LoadImmEncodable(RCX, U64(imm));
    LoadImmEncodable(dst, U64(imm));
    if IsMulDivMod(kind) {
      InOutEncodable(is64, kind, src, dst, imm);
    }
  }

  lemma {:induction false} InOutEncodable(is64: bool, kind: AluKind, src: reg, dst: reg, imm: int32)
    ensures AllEncodable(MulDivMod(is64, kind, src, dst, imm))
  {
    LoadImmEncodable(RCX, U64(imm));
    hide LoadImm;
    forall k | 0 <= k < |MulDivModIn(is64, kind, src, dst, imm)|
      ensures Encodable(MulDivModIn(is64, kind, src, dst, imm)[k])
    {
    }
    forall k | 0 <= k < |MulDivModOut(kind, dst)|
      ensures Encodable(MulDivModOut(kind, dst)[k])
    {
    }
  }
}
