/** What 64-bit constants load, and what the loader's relocations make the interpreter do. */
module Relocation {
  import opened Words
  import opened Ebpf
  import opened Loader
  import Interp
  import Opcodes

  // ----- lddw -----

  lemma {:induction false} WideBytes(lo: int32, hi: int32)
    ensures ToLE(Interp.Wide(lo, hi), 8) == ToLE(U32(lo), 4) + ToLE(U32(hi), 4)
  {
    hide ToLE;
    Pow2Facts();
    ToLEJoin(U32(lo), U32(hi), 4, 4);
  }

  /** An lddw leaves in its register the four bytes of its own immediate followed by the four bytes of
      the next slot's, changes nothing else and continues after both slots. */
  lemma {:induction false} LddwLoads(env: Interp.Env, prog: seq<Inst>, s: Interp.State)
    requires 0 <= s.pc && s.pc + 1 < |prog| && prog[s.pc].opcode == Opcodes.LDDW
    ensures var r := Interp.Step(env, prog, s);
      var d := prog[s.pc].dst;
      r.Next? && r.s.pc == (s.pc + 2) % 0x1_0000 && r.s.mem == s.mem
      && ToLE(r.s.regs[d], 8) == ToLE(U32(prog[s.pc].imm), 4) + ToLE(U32(prog[s.pc + 1].imm), 4)
      && forall q :: 0 <= q < 16 && q != d ==> r.s.regs[q] == s.regs[q]
  {
    hide Interp.Wide, ToLE;
    WideBytes(prog[s.pc].imm, prog[s.pc + 1].imm);
  }

  /** Eight bytes name one 64-bit value. */
  lemma {:induction false} SameBytes(x: u64, y: u64)
    requires ToLE(x, 8) == ToLE(y, 8)
    ensures x == y
  {
    Pow2Facts();
    FromToLE(x, 8);
    FromToLE(y, 8);
  }

  lemma {:induction false} LddwValue(env: Interp.Env, prog: seq<Inst>, s: Interp.State, a: u64)
    requires 0 <= s.pc && s.pc + 1 < |prog| && prog[s.pc].opcode == Opcodes.LDDW
    requires U32(prog[s.pc].imm) == a % 0x1_0000_0000 && U32(prog[s.pc + 1].imm) == a / 0x1_0000_0000
    ensures var r := Interp.Step(env, prog, s);
      r.Next? && r.s == Interp.State((s.pc + 2) % 0x1_0000, s.regs[prog[s.pc].dst := a], s.mem)
  {
    hide ToLE, Interp.Step;
    var d := prog[s.pc].dst;
    var r := Interp.Step(env, prog, s);
    LddwLoads(env, prog, s);
    Pow2Facts();
    ToLEJoin(a % 0x1_0000_0000, a / 0x1_0000_0000, 4, 4);
    SameBytes(r.s.regs[d], a);
    assert r.s.regs == s.regs[d := a];
  }

  // ----- relocated programs -----

  lemma {:induction false} Halves(a: u64)
    ensures U32(Low(a)) == a % 0x1_0000_0000 && U32(High(a)) == a / 0x1_0000_0000
  {
  }

  /** Nothing from relocation k on writes slot i. */
  predicate Untouched(rs: seq<Reloc>, k: nat, i: nat) { forall j :: k <= j < |rs| ==> !Writes(rs[j], i) }

  lemma {:induction false} SameInstructions(tables: map<Name, TableEntry>, funcs: map<seq<byte>, int32>, text: seq<Inst>, r: Reloc)
    requires RelocOk(tables, funcs, text, r)
    ensures var t := Relocated(tables, funcs, text, r);
      |t| == |text| && forall i :: 0 <= i < |t| ==> t[i].opcode == text[i].opcode && t[i].dst == text[i].dst
  {
    hide MapName, Low, High;
  }

  /** All but the first j relocations of a successful sequence, from the text they find. */
  lemma {:induction false} SplitAt(tables: map<Name, TableEntry>, funcs: map<seq<byte>, int32>, text: seq<Inst>, rs: seq<Reloc>, j: nat)
      returns (t: seq<Inst>)
    requires RelocateAll(tables, funcs, text, rs).Some? && j < |rs|
    ensures RelocOk(tables, funcs, t, rs[j]) && |t| == |text|
    ensures forall i :: 0 <= i < |t| ==> t[i].opcode == text[i].opcode && t[i].dst == text[i].dst
    ensures RelocateAll(tables, funcs, text, rs) == RelocateAll(tables, funcs, Relocated(tables, funcs, t, rs[j]), rs[j + 1..])
    decreases j
  {
    hide MapName, RelocOk, Relocated;
    if j == 0 {
      t := text;
    } else {
      SameInstructions(tables, funcs, text, rs[0]);
      t := SplitAt(tables, funcs, Relocated(tables, funcs, text, rs[0]), rs[1..], j - 1);
      assert rs[1..][j - 1] == rs[j] && rs[1..][j..] == rs[j + 1..];
    }
  }

  lemma {:induction false} LaterLeave(tables: map<Name, TableEntry>, funcs: map<seq<byte>, int32>, text: seq<Inst>, rs: seq<Reloc>, k: nat, i: nat)
    requires k <= |rs| && i < |text| && RelocateAll(tables, funcs, text, rs[k..]).Some? && Untouched(rs, k, i)
    ensures RelocateAll(tables, funcs, text, rs[k..]).value[i] == text[i]
  {
    hide RelocateAll, Writes;
    assert forall j :: 0 <= j < |rs| - k ==> rs[k..][j] == rs[k + j];
    OnlyNamedSlots(tables, funcs, text, rs[k..], i);
  }

  /** The relocation finds what it needs in the text as it was loaded. */
  predicate Applies(tables: map<Name, TableEntry>, funcs: map<seq<byte>, int32>, text: seq<Inst>, r: Reloc) {
    if r.slot >= |text| then false
    else match r
      case MapReloc(i, n) => text[i].opcode == 0x18 && exists m :: m in tables && m == MapName(n)
      case StringReloc(i, _) => text[i].opcode == 0x18 && i + 2 <= |text|
      case CallReloc(_, n) => n in funcs.Keys
      case BadReloc(_) => false
  }

  /** The relocations succeed exactly if each of them applies to the text as it was loaded, whatever the
      others have done to it by then. */
  lemma {:induction false} RelocateExactly(tables: map<Name, TableEntry>, funcs: map<seq<byte>, int32>, text: seq<Inst>, rs: seq<Reloc>)
    ensures RelocateAll(tables, funcs, text, rs).Some? <==> forall j :: 0 <= j < |rs| ==> Applies(tables, funcs, text, rs[j])
    decreases |rs|
  {
    hide MapName, Relocated, RelocOk, Applies;
    if rs != [] {
      OkApplies(tables, funcs, text, rs[0]);
      assert forall j :: 0 <= j < |rs| - 1 ==> rs[1..][j] == rs[j + 1];
      if RelocOk(tables, funcs, text, rs[0]) {
        var t := Relocated(tables, funcs, text, rs[0]);
        SameInstructions(tables, funcs, text, rs[0]);
        RelocateExactly(tables, funcs, t, rs[1..]);
        forall j | 0 < j < |rs| ensures Applies(tables, funcs, t, rs[j]) <==> Applies(tables, funcs, text, rs[j]) {
          AppliesLater(tables, funcs, text, t, rs[j]);
        }
        AllFromFirst(tables, funcs, text, t, rs);
      }
    }
  }

  lemma {:induction false} OkApplies(tables: map<Name, TableEntry>, funcs: map<seq<byte>, int32>, text: seq<Inst>, r: Reloc)
    ensures RelocOk(tables, funcs, text, r) <==> Applies(tables, funcs, text, r)
  {
    hide MapName;
  }

  lemma {:induction false} AppliesLater(tables: map<Name, TableEntry>, funcs: map<seq<byte>, int32>, text: seq<Inst>, t: seq<Inst>, r: Reloc)
    requires |t| == |text| && forall i :: 0 <= i < |t| ==> t[i].opcode == text[i].opcode
    ensures Applies(tables, funcs, t, r) <==> Applies(tables, funcs, text, r)
  {
    hide MapName;
  }

  lemma {:induction false} AllFromFirst(tables: map<Name, TableEntry>, funcs: map<seq<byte>, int32>, text: seq<Inst>, t: seq<Inst>, rs: seq<Reloc>)
    requires rs != [] && Applies(tables, funcs, text, rs[0])
    requires forall j :: 0 < j < |rs| ==> (Applies(tables, funcs, t, rs[j]) <==> Applies(tables, funcs, text, rs[j]))
    ensures (forall j :: 0 <= j < |rs| - 1 ==> Applies(tables, funcs, t, rs[1..][j]))
       <==> (forall j :: 0 <= j < |rs| ==> Applies(tables, funcs, text, rs[j]))
  {
    hide Applies;
    if forall j :: 0 <= j < |rs| - 1 ==> Applies(tables, funcs, t, rs[1..][j]) {
      forall j | 0 <= j < |rs| ensures Applies(tables, funcs, text, rs[j]) {
        if j > 0 { assert rs[1..][j - 1] == rs[j]; }
      }
    }
  }

  /** A string relocation that no later one overwrites makes its lddw load exactly the address. */
  lemma {:induction false} StringLoads(tables: map<Name, TableEntry>, funcs: map<seq<byte>, int32>, text: seq<Inst>, rs: seq<Reloc>, j: nat,
                                       env: Interp.Env, s: Interp.State)
    requires RelocateAll(tables, funcs, text, rs).Some? && j < |rs| && rs[j].StringReloc? && s.pc == rs[j].slot
    requires Untouched(rs, j + 1, s.pc) && Untouched(rs, j + 1, s.pc + 1)
    ensures var prog := RelocateAll(tables, funcs, text, rs).value;
      s.pc < |text| &&
      Interp.Step(env, prog, s) == Interp.Next(Interp.State((s.pc + 2) % 0x1_0000, s.regs[text[s.pc].dst := rs[j].address], s.mem))
  {
    hide Interp.Step, RelocateAll, Low, High, MapName, Untouched;
    var i, a := rs[j].slot, rs[j].address;
    var t := SplitAt(tables, funcs, text, rs, j);
    var t' := Relocated(tables, funcs, t, rs[j]);
    LaterLeave(tables, funcs, t', rs, j + 1, i);
    LaterLeave(tables, funcs, t', rs, j + 1, i + 1);
    Halves(a);
    LddwValue(env, RelocateAll(tables, funcs, text, rs).value, s, a);
  }

  /** A map relocation that no later one overwrites, in front of a slot that is zero and stays so, makes
      its lddw load exactly the fd bound to the name. */
  lemma {:induction false} MapLoads(vm: Vm, funcs: map<seq<byte>, int32>, text: seq<Inst>, rs: seq<Reloc>, j: nat,
                                    env: Interp.Env, s: Interp.State)
    requires NamesOk(vm) && RelocateAll(vm.tables, funcs, text, rs).Some?
    requires j < |rs| && rs[j].MapReloc? && s.pc == rs[j].slot && s.pc + 1 < |text| && text[s.pc + 1].imm == 0
    requires Untouched(rs, j + 1, s.pc) && Untouched(rs, 0, s.pc + 1)
    ensures var prog := RelocateAll(vm.tables, funcs, text, rs).value;
      MapName(rs[j].name) in vm.tables &&
      Interp.Step(env, prog, s)
      == Interp.Next(Interp.State((s.pc + 2) % 0x1_0000, s.regs[text[s.pc].dst := vm.tables[MapName(rs[j].name)].fd], s.mem))
  {
    hide Interp.Step, RelocateAll, Low, High, MapName;
    var i := rs[j].slot;
    var t := SplitAt(vm.tables, funcs, text, rs, j);
    var t' := Relocated(vm.tables, funcs, t, rs[j]);
    LaterLeave(vm.tables, funcs, t', rs, j + 1, i);
    OnlyNamedSlots(vm.tables, funcs, text, rs, i + 1);
    LddwValue(env, RelocateAll(vm.tables, funcs, text, rs).value, s, vm.tables[MapName(rs[j].name)].fd);
  }

  /** A call relocation that no later one overwrites makes its CALL run the function registered under
      the name. */
  lemma {:induction false} CallRuns(tables: map<Name, TableEntry>, funcs: map<seq<byte>, int32>, text: seq<Inst>, rs: seq<Reloc>, j: nat,
                                    env: Interp.Env, s: Interp.State)
    requires RelocateAll(tables, funcs, text, rs).Some? && j < |rs| && rs[j].CallReloc? && s.pc == rs[j].slot < |text|
    requires text[s.pc].opcode == Opcodes.CALL && Untouched(rs, j + 1, s.pc)
    ensures var prog := RelocateAll(tables, funcs, text, rs).value;
      rs[j].name in funcs &&
      var h := Interp.RunHelper(env, funcs[rs[j].name], s.regs, s.mem);
      Interp.Step(env, prog, s) == Interp.Next(Interp.State((s.pc + 1) % 0x1_0000, s.regs[0 := h.value], h.mem))
  {
    hide RelocateAll, Low, High, MapName, Untouched, Interp.RunHelper;
    var t := SplitAt(tables, funcs, text, rs, j);
    LaterLeave(tables, funcs, Relocated(tables, funcs, t, rs[j]), rs, j + 1, s.pc);
  }
}
