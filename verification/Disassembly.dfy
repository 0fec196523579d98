/** The decoder reads the compiled bytes back as exactly the instructions the compiler meant. */
module Disassembly {
  import opened Words
  import opened Ebpf
  import opened X86
  import opened Encoding
  import opened Jit
  import opened Simulation
  import opened CodeRun
  import opened Wrappers
  import Compile

  /** Reads instructions until the bytes are used up; None if some bytes mean nothing. */
  function DecodeAll(code: seq<byte>): Option<seq<Instr>>
    decreases |code|
  {
    if code == [] then Some([])
    else match Decode(code)
      case Bad => None
      case Good(i, n) =>
        if 0 < n <= |code| then
          match DecodeAll(code[n..])
          case None => None
          case Some(rest) => Some([i] + rest)
        else None
  }

  /** Any sequence of encodable instructions is recovered from its bytes. */
  lemma {:induction false} DecodeEncodeAll(xs: seq<Instr>)
    requires AllEncodable(xs)
    ensures DecodeAll(EncodeAll(xs)) == Some(xs)
    decreases |xs|
  {
    hide Decode, Encode, Encodable;
    if xs == [] {
      assert EncodeAll(xs) == [];
    } else {
      var code, rest, n := EncodeAll(xs), EncodeAll(xs[1..]), |Encode(xs[0])|;
      assert code == Encode(xs[0]) + rest;
      DecodeEncode(xs[0], rest);
      EncodeNonEmpty(xs[0]);
      DecodeEncodeAll(xs[1..]);
      assert code[n..] == rest && Decode(code) == Good(xs[0], n) && 0 < n <= |code|;
      assert DecodeAll(code) == Some([xs[0]] + xs[1..]);
      assert [xs[0]] + xs[1..] == xs;
    }
  }

  /** The instructions of the first k slots, jumps with their resolved displacements. */
  function Instructions(slots: seq<Slot>, n: nat, k: nat): seq<Instr>
    requires |slots| == n + 3 && k <= |slots|
  {
    if k == 0 then [] else
    Instructions(slots, n, k - 1) + slots[k - 1].body
    + (if slots[k - 1].jump.NoJump? then [] else [JumpInstr(slots[k - 1].jump, RelOf(slots, n, k - 1))])
  }

  lemma {:induction false} ResolvedIsEncoded(slots: seq<Slot>, n: nat, k: nat)
    requires |slots| == n + 3 && k <= |slots|
    ensures Resolved(slots, n, k) == EncodeAll(Instructions(slots, n, k))
  {
    hide Encode, RelOf, SlotLen;
    if k > 0 {
      ResolvedIsEncoded(slots, n, k - 1);
      var s := slots[k - 1];
      var jump := if s.jump.NoJump? then [] else [JumpInstr(s.jump, RelOf(slots, n, k - 1))];
      EncodeAllAppend(Instructions(slots, n, k - 1), s.body);
      EncodeAllAppend(Instructions(slots, n, k - 1) + s.body, jump);
      if jump != [] { EncodeFew(jump[0], jump[0], jump[0]); }
      Regroup(EncodeAll(Instructions(slots, n, k - 1)), EncodeAll(s.body), EncodeAll(jump));
    }
  }

  lemma {:induction false} Regroup(a: seq<byte>, b: seq<byte>, c: seq<byte>)
    ensures a + b + c == a + (b + c)
  {
  }

  lemma {:induction false} AllSlotsEncodable(rm: RegMap, link: Link, prog: seq<Inst>, k: nat)
    requires ValidMap(rm) && k < |prog| + 3
    ensures AllEncodable(AllSlots(rm, link, prog)[k].body)
  {
    hide AllSlots, SlotOf, AllEncodable, ValidMap, IsTail;
    FrameEncodable(rm, link);
    if k == 0 || k > |prog| {
      FrameSlots(rm, link, prog);
    } else {
      SlotAtIndex(rm, link, prog, k - 1);
      SlotEncodable(rm, link, prog, k - 1);
    }
  }

  lemma {:induction false} FrameEncodable(rm: RegMap, link: Link)
    ensures AllEncodable(Prologue(rm)) && AllEncodable(Epilogue(rm)) && AllEncodable(DivHandler(rm, link).body)
    ensures AllEncodable([])
  {
    Compile.EntryEncodable(rm);
    LoadImmEncodable(RDI, link.stderrAddr);
    LoadImmEncodable(RSI, link.formatAddr);
    LoadImmEncodable(RAX, link.fprintfAddr);
    LoadImmEncodable(rm[0], U64(-1));
    hide LoadImm;
  }

  lemma {:induction false} InstructionsEncodable(rm: RegMap, link: Link, prog: seq<Inst>, k: nat)
    requires ValidMap(rm) && k <= |prog| + 3
    ensures AllEncodable(Instructions(AllSlots(rm, link, prog), |prog|, k))
  {
    hide AllSlots, ValidMap, RelOf;
    if k > 0 {
      InstructionsEncodable(rm, link, prog, k - 1);
      AllSlotsEncodable(rm, link, prog, k - 1);
    }
  }

  /** The whole of the compiled code decodes to the intended instruction list, for every program and
      every register map. */
  lemma {:induction false} CompiledDecodes(rm: RegMap, link: Link, prog: seq<Inst>)
    requires ValidMap(rm)
    ensures DecodeAll(Compiled(rm, link, prog)) == Some(Instructions(AllSlots(rm, link, prog), |prog|, |prog| + 3))
  {
    hide AllSlots, ValidMap, Instructions, Resolved, DecodeAll, AllEncodable;
    InstructionsEncodable(rm, link, prog, |prog| + 3);
    ResolvedIsEncoded(AllSlots(rm, link, prog), |prog|, |prog| + 3);
    DecodeEncodeAll(Instructions(AllSlots(rm, link, prog), |prog|, |prog| + 3));
  }
}
