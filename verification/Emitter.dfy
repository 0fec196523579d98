/** The code generator as the source has it: a buffer written in place by emit_* calls, jump holes
    recorded on the way and patched at the end. Each method is tied to the byte strings of Encoding
    and the slots of Jit. */
module Emitter {
  import opened Words
  import opened X86
  import opened Encoding
  import opened Jit

  datatype JumpRec = JumpRec(offsetLoc: int, targetPc: u32)

  function Prefix16(size: Width): (s: seq<byte>)
    ensures |s| <= 1
  {
    if size == B2 then [0x66] else []
  }

  function StoreRex(size: Width, src: reg, dst: reg): (s: seq<byte>)
    ensures |s| <= 1
  {
    if size == B8 || src >= 8 || dst >= 8 || size == B1 then [RexByte(size == B8, src >= 8, dst >= 8)] else []
  }

  function LoadOpcode(size: Width): seq<byte> {
    if size == B1 then [0x0f, 0xb6] else if size == B2 then [0x0f, 0xb7] else [0x8b]
  }

  lemma {:induction false} LoadParts(size: Width, src: reg, dst: reg, off: int32)
    ensures LoadBytesOf(size, src, dst, off) == BasicRex(size == B8, dst, src) + LoadOpcode(size) + Operand(dst, src, off)
  {
  }

  lemma {:induction false} StoreParts(size: Width, src: reg, dst: reg, off: int32)
    ensures StoreBytesOf(size, src, dst, off)
         == Prefix16(size) + StoreRex(size, src, dst) + [if size == B1 then 0x88 else 0x89] + Operand(src, dst, off)
  {
  }

  lemma {:induction false} StoreImmParts(size: Width, dst: reg, off: int32, imm: int32)
    ensures StoreImmBytes(size, dst, off, imm)
         == Prefix16(size) + BasicRex(size == B8, 0, dst) + [if size == B1 then 0xc6 else 0xc7] + Operand(0, dst, off)
            + ImmBytes(size, imm)
  {
  }

  lemma {:induction false} Join2(c: seq<byte>, p: seq<byte>, q: seq<byte>)
    ensures c + p + q == c + (p + q)
  {
  }

  lemma {:induction false} Join3(c: seq<byte>, p: seq<byte>, q: seq<byte>, r: seq<byte>)
    ensures c + p + q + r == c + (p + q + r)
  {
  }

  lemma {:induction false} Join4(c: seq<byte>, p: seq<byte>, q: seq<byte>, r: seq<byte>, t: seq<byte>)
    ensures c + p + q + r + t == c + (p + q + r + t)
  {
  }

  /** struct jit_state. */
  class JitState {
    const buf: array<byte>
    var offset: nat
    const pcLocs: array<nat>
    var exitLoc: nat
    var divByZeroLoc: nat
    const jumps: array<JumpRec>
    var numJumps: nat

    ghost predicate Valid()
      reads this
    {
      offset <= buf.Length && numJumps <= jumps.Length && (buf as object) != pcLocs
    }

    /** The code emitted so far. */
    ghost function Code(): seq<byte>
      reads this, buf
      requires Valid()
    {
      buf[..offset]
    }

    ghost function Jumps(): seq<JumpRec>
      reads this, jumps
      requires Valid()
    {
      jumps[..numJumps]
    }

    constructor (size: nat, maxInsts: nat)
      ensures Valid() && Code() == [] && Jumps() == []
      ensures buf.Length == size && pcLocs.Length == maxInsts + 1 && jumps.Length == maxInsts
      ensures forall i :: 0 <= i < pcLocs.Length ==> pcLocs[i] == 0
      ensures fresh(buf) && fresh(pcLocs) && fresh(jumps)
    {
      buf := new byte[size](_ => 0);
      pcLocs := new nat[maxInsts + 1](_ => 0);
      jumps := new JumpRec[maxInsts](_ => JumpRec(0, 0));
      offset, exitLoc, divByZeroLoc, numJumps := 0, 0, 0, 0;
    }

    /** The assertion of emit_bytes: there is room for n more bytes. */
    ghost predicate Room(n: nat)
      reads this
    {
      Valid() && offset + n <= buf.Length
    }

    /** data was appended and nothing else changed. */
    twostate predicate Emitted(data: seq<byte>)
      reads this, buf
    {
      old(Valid()) && Valid() && Code() == old(Code()) + data && numJumps == old(numJumps)
      && exitLoc == old(exitLoc) && divByZeroLoc == old(divByZeroLoc)
    }

    method EmitBytes(data: seq<byte>)
      requires Room(|data|)
      modifies this`offset, buf
      ensures Emitted(data)
    {
      forall k | 0 <= k < |data| {
        buf[offset + k] := data[k];
      }
      offset := offset + |data|;
    }

    method Emit1(x: int)
      requires Room(1)
      modifies this`offset, buf
      ensures Emitted([x % 0x100])
    {
      EmitBytes([x % 0x100]);
    }

    method Emit2(x: int)
      requires Room(2)
      modifies this`offset, buf
      ensures Emitted(ToLE(x % 0x1_0000, 2))
    {
      EmitBytes(ToLE(x % 0x1_0000, 2));
    }

    method Emit4(x: int)
      requires Room(4)
      modifies this`offset, buf
      ensures Emitted(ToLE(U32(x), 4))
    {
      EmitBytes(ToLE(U32(x), 4));
    }

    method Emit8(x: u64)
      requires Room(8)
      modifies this`offset, buf
      ensures Emitted(ToLE(x, 8))
    {
      EmitBytes(ToLE(x, 8));
    }

    /** A hole at the end of the jump instruction, recorded for resolve_jumps. */
    method EmitJumpOffset(target: u32)
      requires Room(4) && numJumps < jumps.Length
      modifies this`offset, this`numJumps, buf, jumps
      ensures Valid() && Code() == old(Code()) + ToLE(0, 4)
      ensures Jumps() == old(Jumps()) + [JumpRec(old(offset), target)]
      ensures exitLoc == old(exitLoc) && divByZeroLoc == old(divByZeroLoc)
    {
      jumps[numJumps] := JumpRec(offset, target);
      numJumps := numJumps + 1;
      Emit4(0);
    }

    method EmitRex(w: bool, r: bool, b: bool)
      requires Room(1)
      modifies this`offset, buf
      ensures Emitted([RexByte(w, r, b)])
    {
      Emit1(RexByte(w, r, b));
    }

    method EmitBasicRex(w: bool, src: reg, dst: reg)
      requires Room(|BasicRex(w, src, dst)|)
      modifies this`offset, buf
      ensures Emitted(BasicRex(w, src, dst))
    {
      if w || src >= 8 || dst >= 8 {
        EmitRex(w, src >= 8, dst >= 8);
      } else {
        assert Code() + [] == Code();
      }
    }

    method EmitModRM(mod: int, r: reg, m: reg)
      requires Room(1) && (mod == 0 || mod == 0x40 || mod == 0x80 || mod == 0xc0)
      modifies this`offset, buf
      ensures Emitted([ModRMByte(mod, r, m)])
    {
      hide ModRMByte;
      Emit1(ModRMByte(mod, r, m));
    }

    method EmitModRMAndDisplacement(r: reg, m: reg, d: int32)
      requires Room(|Operand(r, m, d)|)
      modifies this`offset, buf
      ensures Emitted(Operand(r, m, d))
    {
      ghost var c := Code();
      if d == 0 && m % 8 != RBP {
        EmitModRM(0x00, r, m);
      } else if -128 <= d <= 127 {
        EmitModRM(0x40, r, m);
        Emit1(d);
        Join2(c, [ModRMByte(0x40, r, m)], [d % 0x100]);
      } else {
        EmitModRM(0x80, r, m);
        Emit4(d);
        Join2(c, [ModRMByte(0x80, r, m)], ToLE(U32(d), 4));
      }
    }

    method EmitPush(r: reg)
      requires Room(|Encode(Push(r))|)
      modifies this`offset, buf
      ensures Emitted(Encode(Push(r)))
    {
      ghost var c := Code();
      EmitBasicRex(false, 0, r);
      Emit1(0x50 + r % 8);
      Join2(c, BasicRex(false, 0, r), [0x50 + r % 8]);
    }

    method EmitPop(r: reg)
      requires Room(|Encode(Pop(r))|)
      modifies this`offset, buf
      ensures Emitted(Encode(Pop(r)))
    {
      ghost var c := Code();
      EmitBasicRex(false, 0, r);
      Emit1(0x58 + r % 8);
      Join2(c, BasicRex(false, 0, r), [0x58 + r % 8]);
    }

    /** emit_alu32 (w false) and emit_alu64 (w true). */
    method EmitAlu(w: bool, op: byte, src: reg, dst: reg)
      requires Room(|AluBytes(w, op, src, dst)|)
      modifies this`offset, buf
      ensures Emitted(AluBytes(w, op, src, dst))
    {
      ghost var c := Code();
      EmitBasicRex(w, src, dst);
      Emit1(op);
      EmitModRM(0xc0, src, dst);
      assert c + BasicRex(w, src, dst) + [op] + [ModRMByte(0xc0, src, dst)]
          == c + (BasicRex(w, src, dst) + [op, ModRMByte(0xc0, src, dst)]);
    }

    method EmitAluImm32(w: bool, op: byte, src: reg, dst: reg, imm: int32)
      requires Room(|AluImm32Bytes(w, op, src, dst, imm)|)
      modifies this`offset, buf
      ensures Emitted(AluImm32Bytes(w, op, src, dst, imm))
    {
      ghost var c := Code();
      EmitAlu(w, op, src, dst);
      Emit4(imm);
      Join2(c, AluBytes(w, op, src, dst), ToLE(U32(imm), 4));
    }

    method EmitAluImm8(w: bool, op: byte, src: reg, dst: reg, imm: int32)
      requires Room(|AluImm8Bytes(w, op, src, dst, imm)|)
      modifies this`offset, buf
      ensures Emitted(AluImm8Bytes(w, op, src, dst, imm))
    {
      ghost var c := Code();
      EmitAlu(w, op, src, dst);
      Emit1(imm);
      Join2(c, AluBytes(w, op, src, dst), [imm % 0x100]);
    }

    method EmitMov(src: reg, dst: reg)
      requires Room(|Encode(MovRR(src, dst))|)
      modifies this`offset, buf
      ensures Emitted(Encode(MovRR(src, dst)))
    {
      EmitAlu(true, 0x89, src, dst);
    }

    method EmitCmpImm32(dst: reg, imm: int32)
      requires Room(|Encode(AluRI(true, XCmp, dst, imm))|)
      modifies this`offset, buf
      ensures Emitted(Encode(AluRI(true, XCmp, dst, imm)))
    {
      EmitAluImm32(true, 0x81, 7, dst, imm);
    }

    method EmitCmp(src: reg, dst: reg)
      requires Room(|Encode(AluRR(true, XCmp, src, dst))|)
      modifies this`offset, buf
      ensures Emitted(Encode(AluRR(true, XCmp, src, dst)))
    {
      EmitAlu(true, 0x39, src, dst);
    }

    method EmitLoadImm(dst: reg, imm: u64)
      requires Room(|LoadImmBytes(dst, imm)|)
      modifies this`offset, buf
      ensures Emitted(LoadImmBytes(dst, imm))
    {
      hide BasicRex, ToLE, AluImm32Bytes;
      ghost var c := Code();
      var v := S64(imm);
      if -0x8000_0000 <= v < 0x8000_0000 {
        EmitAluImm32(true, 0xc7, 0, dst, v);
      } else {
        EmitBasicRex(true, 0, dst);
        Emit1(0xb8 + dst % 8);
        Emit8(imm);
        Join3(c, BasicRex(true, 0, dst), [0xb8 + dst % 8], ToLE(imm, 8));
      }
    }

    /** movzx for bytes and 16-bit words, mov otherwise. */
    method EmitLoadOpcode(size: Width)
      requires Room(|LoadOpcode(size)|)
      modifies this`offset, buf
      ensures Emitted(LoadOpcode(size))
    {
      ghost var c := Code();
      if size == B1 || size == B2 {
        Emit1(0x0f);
        Emit1(if size == B1 then 0xb6 else 0xb7);
        assert c + [0x0f] + [if size == B1 then 0xb6 else 0xb7] == c + LoadOpcode(size);
      } else {
        Emit1(0x8b);
      }
    }

    method EmitLoad(size: Width, src: reg, dst: reg, off: int32)
      requires Room(|LoadBytesOf(size, src, dst, off)|)
      modifies this`offset, buf
      ensures Emitted(LoadBytesOf(size, src, dst, off))
    {
      hide BasicRex, Operand, LoadOpcode, LoadBytesOf;
      LoadParts(size, src, dst, off);
      ghost var c := Code();
      EmitBasicRex(size == B8, dst, src);
      EmitLoadOpcode(size);
      EmitModRMAndDisplacement(dst, src, off);
      Join2(c, BasicRex(size == B8, dst, src), LoadOpcode(size));
      Join2(c, BasicRex(size == B8, dst, src) + LoadOpcode(size), Operand(dst, src, off));
    }

    /** The 16-bit operand-size prefix. */
    method EmitPrefix16(size: Width)
      requires Room(|Prefix16(size)|)
      modifies this`offset, buf
      ensures Emitted(Prefix16(size))
    {
      if size == B2 {
        Emit1(0x66);
      } else {
        assert Code() + [] == Code();
      }
    }

    method EmitStoreRex(size: Width, src: reg, dst: reg)
      requires Room(|StoreRex(size, src, dst)|)
      modifies this`offset, buf
      ensures Emitted(StoreRex(size, src, dst))
    {
      var rexw := size == B8;
      if rexw || src >= 8 || dst >= 8 || size == B1 {
        EmitRex(rexw, src >= 8, dst >= 8);
      } else {
        assert Code() + [] == Code();
      }
    }

    method EmitStore(size: Width, src: reg, dst: reg, off: int32)
      requires Room(|StoreBytesOf(size, src, dst, off)|)
      modifies this`offset, buf
      ensures Emitted(StoreBytesOf(size, src, dst, off))
    {
      hide Operand, RexByte, StoreRex, Prefix16, StoreBytesOf;
      StoreParts(size, src, dst, off);
      ghost var c := Code();
      ghost var b: byte := if size == B1 then 0x88 else 0x89;
      EmitPrefix16(size);
      EmitStoreRex(size, src, dst);
      Emit1(if size == B1 then 0x88 else 0x89);
      EmitModRMAndDisplacement(src, dst, off);
      Join4(c, Prefix16(size), StoreRex(size, src, dst), [b], Operand(src, dst, off));
    }

    method EmitImm(size: Width, imm: int32)
      requires Room(|ImmBytes(size, imm)|)
      modifies this`offset, buf
      ensures Emitted(ImmBytes(size, imm))
    {
      if size == B4 || size == B8 {
        Emit4(imm);
      } else if size == B2 {
        Emit2(imm);
      } else {
        Emit1(imm);
      }
    }

    /** Everything in front of the immediate. */
    method EmitStoreImmHead(size: Width, dst: reg, off: int32)
      requires Room(|Prefix16(size) + BasicRex(size == B8, 0, dst) + [0] + Operand(0, dst, off)|)
      modifies this`offset, buf
      ensures Emitted(Prefix16(size) + BasicRex(size == B8, 0, dst) + [if size == B1 then 0xc6 else 0xc7] + Operand(0, dst, off))
    {
      hide BasicRex, Operand, Prefix16;
      ghost var c := Code();
      ghost var b: byte := if size == B1 then 0xc6 else 0xc7;
      EmitPrefix16(size);
      EmitBasicRex(size == B8, 0, dst);
      Emit1(if size == B1 then 0xc6 else 0xc7);
      EmitModRMAndDisplacement(0, dst, off);
      Join4(c, Prefix16(size), BasicRex(size == B8, 0, dst), [b], Operand(0, dst, off));
    }

    method EmitStoreImm32(size: Width, dst: reg, off: int32, imm: int32)
      requires Room(|StoreImmBytes(size, dst, off, imm)|)
      modifies this`offset, buf
      ensures Emitted(StoreImmBytes(size, dst, off, imm))
    {
      hide BasicRex, Operand, ImmBytes, Prefix16, StoreImmBytes;
      StoreImmParts(size, dst, off, imm);
      ghost var c := Code();
      ghost var b: byte := if size == B1 then 0xc6 else 0xc7;
      EmitStoreImmHead(size, dst, off);
      EmitImm(size, imm);
      Join2(c, Prefix16(size) + BasicRex(size == B8, 0, dst) + [b] + Operand(0, dst, off), ImmBytes(size, imm));
    }

    /** emit_call: the target goes to RAX, then callq *%rax. */
    method EmitCall(target: u64)
      requires Room(|LoadImmBytes(RAX, target) + [0xff, 0xd0]|)
      modifies this`offset, buf
      ensures Emitted(LoadImmBytes(RAX, target) + [0xff, 0xd0])
    {
      hide LoadImmBytes;
      ghost var c := Code();
      ghost var l := LoadImmBytes(RAX, target);
      EmitLoadImm(RAX, target);
      Emit1(0xff);
      Emit1(0xd0);
      Join3(c, l, [0xff], [0xd0]);
      Join2(l, [0xff], [0xd0]);
    }
  }
}
