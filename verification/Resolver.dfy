/** resolve_jumps and ubpf_compile: the holes left by the emitter are patched in place and the buffer
    then holds exactly the code the simulation theorems are about. */
module Resolver {
  import opened Words
  import opened Ebpf
  import opened Encoding
  import opened Jit
  import opened Emitter
  import opened Translator
  import Compile

  // ----- the buffer between two patches -----

  /** The first k slots with the first i jumps resolved and the other holes open. */
  function Mixed(slots: seq<Slot>, n: nat, k: nat, i: nat): (s: seq<byte>)
    requires |slots| == n + 3 && k <= |slots|
    ensures |s| == Loc(slots, k)
  {
    if k == 0 then [] else
    var rel := if |Records(slots, k - 1)| < i then RelOf(slots, n, k - 1) else 0;
    SlotLenSame(slots[k - 1], rel);
    Mixed(slots, n, k - 1, i) + SlotBytes(slots[k - 1], rel)
  }

  lemma {:induction false} NoJumpBytes(s: Slot, r1: int32, r2: int32)
    requires s.jump.NoJump?
    ensures SlotBytes(s, r1) == SlotBytes(s, r2)
  {
  }

  lemma {:induction false} MixedNone(slots: seq<Slot>, n: nat, k: nat)
    requires |slots| == n + 3 && k <= |slots|
    ensures Mixed(slots, n, k, 0) == Holes(slots, k)
  {
    hide SlotBytes, SlotLen, RelOf;
    if k > 0 { MixedNone(slots, n, k - 1); }
  }

  lemma {:induction false} RecordsGrow(slots: seq<Slot>, k: nat)
    requires k < |slots|
    ensures |Records(slots, k + 1)| == |Records(slots, k)| + (if slots[k].jump.NoJump? then 0 else 1)
    ensures Records(slots, k) <= Records(slots, k + 1)
    ensures !slots[k].jump.NoJump? ==>
      Records(slots, k + 1)[|Records(slots, k)|] == JumpRec(Loc(slots, k + 1) - 4, slots[k].jump.target)
  {
    hide SlotLen;
  }

  lemma {:induction false} MixedAll(slots: seq<Slot>, n: nat, k: nat, i: nat)
    requires |slots| == n + 3 && k <= |slots| && i >= |Records(slots, k)|
    ensures Mixed(slots, n, k, i) == Resolved(slots, n, k)
  {
    hide SlotBytes, SlotLen, RelOf, Records;
    if k > 0 {
      RecordsGrow(slots, k - 1);
      MixedAll(slots, n, k - 1, i);
      if slots[k - 1].jump.NoJump? { NoJumpBytes(slots[k - 1], RelOf(slots, n, k - 1), 0); }
    }
  }

  /** bs written over code at the given offset. */
  function Patch(code: seq<byte>, at: int, bs: seq<byte>): (r: seq<byte>)
    ensures |r| == |code|
  {
    if 0 <= at && at + |bs| <= |code| then code[..at] + bs + code[at + |bs|..] else code
  }

  /** Filling the hole at the end of a slot is re-encoding its jump with that displacement. */
  lemma {:induction false} PatchSlot(s: Slot, rel: int32)
    requires !s.jump.NoJump?
    ensures SlotLen(s) >= 4 && Patch(SlotBytes(s, 0), SlotLen(s) - 4, ToLE(U32(rel), 4)) == SlotBytes(s, rel)
  {
    hide EncodeAll, ToLE, U32, CcByte;
    var a := EncodeAll(s.body) + (if s.jump.Always? then [0xe9] else [0x0f, CcByte(s.jump.cc)]);
    assert SlotBytes(s, 0) == a + ToLE(U32(0), 4);
    assert SlotBytes(s, rel) == a + ToLE(U32(rel), 4);
  }

  lemma {:induction false} PatchFront(a: seq<byte>, b: seq<byte>, at: int, bs: seq<byte>)
    requires 0 <= at && at + |bs| <= |a|
    ensures Patch(a + b, at, bs) == Patch(a, at, bs) + b
  {
  }

  lemma {:induction false} PatchBack(a: seq<byte>, b: seq<byte>, at: int, bs: seq<byte>)
    requires 0 <= at && at + |bs| <= |b|
    ensures Patch(a + b, |a| + at, bs) == a + Patch(b, at, bs)
  {
  }

  /** The slot a record belongs to. */
  function Owner(slots: seq<Slot>, k: nat, i: nat): nat
    requires k <= |slots|
  {
    if k == 0 then 0 else if i < |Records(slots, k - 1)| then Owner(slots, k - 1, i) else k - 1
  }

  lemma {:induction false} OwnerFacts(slots: seq<Slot>, k: nat, i: nat)
    requires k <= |slots| && i < |Records(slots, k)|
    ensures var j := Owner(slots, k, i);
      j < k && !slots[j].jump.NoJump? && SlotLen(slots[j]) >= 4 &&
      Records(slots, k)[i] == JumpRec(Loc(slots, j + 1) - 4, slots[j].jump.target) &&
      4 <= Loc(slots, j + 1) <= Loc(slots, k)
  {
    hide SlotLen, Records, Loc;
    RecordsGrow(slots, k - 1);
    JumpSlotLen(slots[k - 1]);
    if i < |Records(slots, k - 1)| {
      OwnerFacts(slots, k - 1, i);
      LocMono(slots, k - 1, k);
    } else {
      LocLow(slots, k - 1);
    }
  }

  lemma {:induction false} PatchStep(slots: seq<Slot>, n: nat, k: nat, i: nat, j: nat)
    requires |slots| == n + 3 && k <= |slots| && i < |Records(slots, k)| && j == Owner(slots, k, i) < k
    ensures Patch(Mixed(slots, n, k, i), Loc(slots, j + 1) - 4, ToLE(U32(RelOf(slots, n, j)), 4)) == Mixed(slots, n, k, i + 1)
  {
    hide SlotBytes, SlotLen, RelOf, Records, Patch, ToLE, U32, Loc;
    RecordsGrow(slots, k - 1);
    LocStep(slots, k - 1);
    OwnerFacts(slots, k, i);
    var s := slots[k - 1];
    var bs := ToLE(U32(RelOf(slots, n, j)), 4);
    SlotLenSame(s, 0);
    if i < |Records(slots, k - 1)| {
      OwnerFacts(slots, k - 1, i);
      PatchStep(slots, n, k - 1, i, j);
      PatchFront(Mixed(slots, n, k - 1, i), SlotBytes(s, 0), Loc(slots, j + 1) - 4, bs);
    } else {
      MixedAll(slots, n, k - 1, i);
      MixedAll(slots, n, k - 1, i + 1);
      PatchSlot(s, RelOf(slots, n, j));
      PatchBack(Mixed(slots, n, k - 1, i), SlotBytes(s, 0), SlotLen(s) - 4, bs);
    }
  }

  lemma {:induction false} LocLow(slots: seq<Slot>, j: nat)
    requires j < |slots| && SlotLen(slots[j]) >= 4
    ensures Loc(slots, j + 1) >= 4
  {
    hide SlotLen;
  }

  // ----- the jumps of a validated program -----

  /** What a record may point at: the epilogue, the division handler or an instruction. */
  predicate TargetOk(prog: seq<Inst>, t: u32) {
    t == TARGET_EXIT || t == TARGET_DIV_BY_ZERO || (t < |prog| && !IsTail(prog, t))
  }

  ghost predicate SlotTargetsOk(prog: seq<Inst>, slots: seq<Slot>) {
    forall k :: 0 <= k < |slots| && !slots[k].jump.NoJump? ==> TargetOk(prog, slots[k].jump.target)
  }

  lemma {:induction false} SlotTargetOk(rm: RegMap, link: Link, prog: seq<Inst>, funcs: set<int>, i: nat)
    requires Validated(prog, funcs) && i < |prog| && !IsTail(prog, i)
    ensures var j := SlotOf(rm, link, prog, i).jump; !j.NoJump? ==> TargetOk(prog, j.target)
  {
    hide OpOf, IsTail, Validated, AluBody, EndianBody, CallBody, TestFor, LoadImm;
    ValidAt(prog, funcs, i);
    var inst := prog[i];
    if inst.Op().Ja? || inst.Op().Jcond? {
      ZeroOpcodeIsTail(prog, funcs, i + 1 + inst.offset);
    }
  }

  /** Every jump of a validated program goes to an instruction, never to the tail of an lddw. */
  lemma {:induction false} TargetsOk(rm: RegMap, link: Link, prog: seq<Inst>, funcs: set<int>)
    requires Validated(prog, funcs)
    ensures SlotTargetsOk(prog, AllSlots(rm, link, prog))
  {
    hide AllSlots, SlotOf, TargetOk, IsTail, Validated;
    var slots := AllSlots(rm, link, prog);
    FrameSlots(rm, link, prog);
    assert TargetOk(prog, TARGET_EXIT) by { ExitOk(prog); }
    forall k | 0 <= k < |slots| && !slots[k].jump.NoJump? ensures TargetOk(prog, slots[k].jump.target) {
      if 0 < k <= |prog| {
        SlotAtIndex(rm, link, prog, k - 1);
        if !IsTail(prog, k - 1) { SlotTargetOk(rm, link, prog, funcs, k - 1); }
      }
    }
  }

  lemma {:induction false} ExitOk(prog: seq<Inst>)
    ensures TargetOk(prog, TARGET_EXIT)
  {
  }

  // ----- resolve_jumps -----

  /** memcpy of a displacement into the buffer. */
  method WriteRel(st: JitState, at: nat, rel: u32)
    requires st.Valid() && at + 4 <= st.offset
    modifies st.buf
    ensures st.Valid() && st.Code() == Patch(old(st.Code()), at, ToLE(rel, 4))
  {
    hide ToLE;
    var bs := ToLE(rel, 4);
    forall k | 0 <= k < 4 {
      st.buf[at + k] := bs[k];
    }
  }

  lemma {:induction false} U32S32(x: int)
    ensures U32(S32(x)) == U32(x)
  {
  }

  method ResolveOne(st: JitState, prog: seq<Inst>, ghost slots: seq<Slot>, i: nat)
    requires |slots| == |prog| + 3 && st.Valid() && st.Jumps() == Records(slots, |prog| + 3) && i < st.numJumps
    requires SlotTargetsOk(prog, slots) && LocsBelow(prog, slots, st.pcLocs[..], |prog|)
    requires st.exitLoc == Loc(slots, |prog| + 1) && st.divByZeroLoc == Loc(slots, |prog| + 2)
    requires st.Code() == Mixed(slots, |prog|, |prog| + 3, i)
    modifies st.buf
    ensures st.Valid() && st.Code() == Mixed(slots, |prog|, |prog| + 3, i + 1)
  {
    hide Records, Loc, Mixed, Patch, SlotLen, IsTail, ToLE;
    ghost var n := |prog|;
    var jump := st.jumps[i];
    assert jump == Records(slots, n + 3)[i];
    ghost var j := Owner(slots, n + 3, i);
    OwnerFacts(slots, n + 3, i);
    assert TargetOk(prog, jump.targetPc);
    var targetLoc;
    if jump.targetPc == TARGET_EXIT {
      targetLoc := st.exitLoc;
    } else if jump.targetPc == TARGET_DIV_BY_ZERO {
      targetLoc := st.divByZeroLoc;
    } else {
      targetLoc := st.pcLocs[jump.targetPc];
    }
    assert targetLoc == TargetLoc(slots, n, jump.targetPc);
    U32S32(targetLoc - Loc(slots, j + 1));
    PatchStep(slots, n, n + 3, i, j);
    WriteRel(st, jump.offsetLoc, U32(targetLoc - (jump.offsetLoc + 4)));
  }

  /** Patches every recorded hole, and nothing else: the buffer ends up as the resolved code. */
  method ResolveJumps(st: JitState, prog: seq<Inst>, ghost slots: seq<Slot>)
    requires |slots| == |prog| + 3 && Reached(st, slots, |prog| + 3)
    requires SlotTargetsOk(prog, slots) && LocsBelow(prog, slots, st.pcLocs[..], |prog|)
    requires st.exitLoc == Loc(slots, |prog| + 1) && st.divByZeroLoc == Loc(slots, |prog| + 2)
    modifies st.buf
    ensures st.Valid() && st.Code() == Resolved(slots, |prog|, |prog| + 3)
  {
    hide Records, Loc, Mixed, Holes, Resolved, SlotTargetsOk, LocsBelow;
    ghost var n := |prog|;
    MixedNone(slots, n, n + 3);
    var i := 0;
    while i < st.numJumps
      invariant 0 <= i <= st.numJumps && st.Valid() && st.Jumps() == Records(slots, n + 3)
      invariant st.Code() == Mixed(slots, n, n + 3, i)
    {
      ResolveOne(st, prog, slots, i);
      i := i + 1;
    }
    MixedAll(slots, n, n + 3, i);
  }

  // ----- ubpf_compile -----

  /** ubpf_compile for a VM without compiled code: the bytes it would map executable. */
  method CompileProgram(rm: RegMap, link: Link, prog: seq<Inst>, ghost funcs: set<int>) returns (code: seq<byte>)
    requires Validated(prog, funcs) && CodeSize(rm, link, prog) <= Compile.CODE_BUFFER
    ensures code == Compiled(rm, link, prog)
  {
    hide AllSlots, Validated, Records, Loc, Holes, Resolved, LocsBelow, SlotTargetsOk, IsTail, CodeSize;
    ghost var slots := AllSlots(rm, link, prog);
    ValidProgram(prog, funcs);
    TargetsOk(rm, link, prog, funcs);
    var st := new JitState(Compile.CODE_BUFFER, MAX_INSTS);
    var ok := TranslateProgram(st, rm, link, prog);
    Finish(st, rm, link, prog);
    ResolveJumps(st, prog, slots);
    code := st.buf[..st.offset];
  }

  lemma {:induction false} ValidProgram(prog: seq<Inst>, funcs: set<int>)
    requires Validated(prog, funcs)
    ensures |prog| < MAX_INSTS && LddwComplete(prog) && KnownBelow(prog, |prog|)
  {
    hide OpOf, IsTail;
    forall i | 0 <= i < |prog| && !IsTail(prog, i) ensures !prog[i].Op().Unknown? && (prog[i].Op().Lddw? ==> i + 1 < |prog|) {
      ValidAt(prog, funcs, i);
    }
  }
}
