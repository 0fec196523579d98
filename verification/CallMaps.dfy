/** The register maps under which compiled calls work, exactly. */
module CallMaps {
  import opened Words
  import opened Memory
  import opened X86
  import opened Machine
  import opened Jit
  import opened Simulation
  import opened SlotSim
  import Interp

  /** With five arguments r0 to r5 must be where the initial map has them; r6 to r10 then fall to the
      registers a function preserves, in any order. */
  lemma {:induction false} FirstSixDecide(rm: RegMap)
    requires ValidMap(rm)
    ensures CallMap(rm, 5) <==> forall i :: 0 <= i <= 5 ==> rm[i] == DEFAULT_MAP[i]
  {
    if forall i :: 0 <= i <= 5 ==> rm[i] == DEFAULT_MAP[i] {
      forall i | 6 <= i <= 10 ensures CalleeSaved(rm[i]) {
        assert Mappable(rm[i]);
        assert rm[i] != rm[0] && rm[i] != rm[1] && rm[i] != rm[2] && rm[i] != rm[3] && rm[i] != rm[4] && rm[i] != rm[5];
      }
    }
  }

  const FRAME := Frame(4096, 12, seq(48, _ => 0))
  const LINK := Link(_ => 0, 0, 0, 0)
  const ALL: set<int> := set r | 0 <= r <= 10

  /** Register q holds q, except for the stack pointer; mapped are the stack, the 16 bytes below it and
      the 48 saved bytes above it. */
  function Start(): Core {
    Core(seq<u64>(16, q requires 0 <= q < 16 => if q == RSP then 4096 else q), NoFlags, Zeros(4080, 20528))
  }

  function StartReg(rm: RegMap, i: nat): u64
    requires i < 16
  {
    if i < 11 then Start().regs[rm[i]] else 0
  }

  function StartRegs(rm: RegMap): Interp.Regs { seq<u64>(16, i requires 0 <= i < 16 => StartReg(rm, i)) }

  /** A helper of n arguments that returns the one at `pick`, or 50 if there is none. */
  function Answer(pick: nat, n: nat, args: seq<u64>): u64 {
    if 1 <= pick <= n && pick <= |args| then args[pick - 1] else 50
  }

  function PickEnv(pick: nat, n: nat): Interp.Env {
    Interp.Env(0, 0, 0, _ => n, (imm, args, m) => Interp.HelperResult(Answer(pick, n, args), m))
  }

  /** Where its code runs, it leaves 99 in every register it may destroy. */
  function PickWorld(pick: nat, n: nat): World {
    World({}, (f, args, m) => CallResult(Answer(pick, n, args), m), _ => seq(16, _ => 99), _ => map[])
  }

  lemma {:induction false} Started(rm: RegMap, pick: nat, n: nat)
    requires ValidMap(rm)
    ensures Related(rm, PickWorld(pick, n), FRAME, ALL, StartRegs(rm), map[], Start())
    ensures forall i :: 0 <= i < 11 ==> StartRegs(rm)[i] == rm[i]
  {
    forall i | 0 <= i < 11 ensures StartRegs(rm)[i] == rm[i] {
      assert Mappable(rm[i]);
    }
    var c := Start();
    assert TopOf(FRAME) == 20480;
    assert forall a :: 20480 <= a < 20528 ==> a in c.mem && c.mem[a] == FRAME.saved[a - 20480];
  }

  lemma {:induction false} PickLinked(pick: nat, n: nat)
    requires n <= 5
    ensures Linked(PickWorld(pick, n), PickEnv(pick, n), LINK, {0})
  {
  }

  /** The value the helper returns to the program, and what the x86 registers hold afterwards. */
  lemma {:induction false} PickCalled(rm: RegMap, pick: nat, n: nat)
    requires ValidMap(rm) && n <= 5 && pick <= n
    ensures var r := RunBlock(PickWorld(pick, n), CallBody(LINK, 0), Start());
      r.Ok? && r.c.regs[RAX] == (if pick >= 1 then DEFAULT_MAP[pick] else 50)
      && forall q :: 0 < q < 16 ==> r.c.regs[q] == if CalleeSaved(q) then Start().regs[q] else 99
    ensures Interp.RunHelper(PickEnv(pick, n), 0, StartRegs(rm), map[]).value == if pick >= 1 then rm[pick] else 50
  {
    hide RunBlock, CallBody, ValidMap;
    Started(rm, pick, n);
    CallRuns(PickWorld(pick, n), LINK, 0, Start());
  }

  /** Under any other map some call goes wrong: from a state in which every register is in place, a
      correctly linked helper of n arguments leaves r0 or one of r6 to r10 with another value than the
      program's. */
  lemma {:induction false} OtherMapsFail(rm: RegMap, n: nat) returns (w: World, env: Interp.Env, r: nat)
    requires ValidMap(rm) && n <= 5 && !CallMap(rm, n)
    ensures env.arity(0) == n && Linked(w, env, LINK, {0})
    ensures Related(rm, w, FRAME, ALL, StartRegs(rm), map[], Start())
    ensures r == 0 || 6 <= r <= 10
    ensures var b := RunBlock(w, CallBody(LINK, 0), Start());
      var h := Interp.RunHelper(env, 0, StartRegs(rm), map[]);
      b.Ok? && b.c.regs[rm[r]] != StartRegs(rm)[0 := h.value][r]
  {
    hide RunBlock, CallBody, Linked, Related, Interp.RunHelper;
    var pick: nat := 0;
    r := 0;
    if rm[0] == RAX {
      if i :| 1 <= i <= 5 && i <= n && rm[i] != DEFAULT_MAP[i] {
        pick := i;
      } else {
        r :| 6 <= r <= 10 && !CalleeSaved(rm[r]);
      }
    }
    w, env := PickWorld(pick, n), PickEnv(pick, n);
    Started(rm, pick, n);
    PickLinked(pick, n);
    PickCalled(rm, pick, n);
  }
}
