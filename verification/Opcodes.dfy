/** The opcode bytes of ubpf/ebpf.h. */
module Opcodes {
  import opened Words

  const ADD_IMM: byte := 0x04
  const ADD_REG: byte := 0x0c
  const SUB_IMM: byte := 0x14
  const SUB_REG: byte := 0x1c
  const MUL_IMM: byte := 0x24
  const MUL_REG: byte := 0x2c
  const DIV_IMM: byte := 0x34
  const DIV_REG: byte := 0x3c
  const OR_IMM: byte := 0x44
  const OR_REG: byte := 0x4c
  const AND_IMM: byte := 0x54
  const AND_REG: byte := 0x5c
  const LSH_IMM: byte := 0x64
  const LSH_REG: byte := 0x6c
  const RSH_IMM: byte := 0x74
  const RSH_REG: byte := 0x7c
  const NEG: byte := 0x84
  const MOD_IMM: byte := 0x94
  const MOD_REG: byte := 0x9c
  const XOR_IMM: byte := 0xa4
  const XOR_REG: byte := 0xac
  const MOV_IMM: byte := 0xb4
  const MOV_REG: byte := 0xbc
  const ARSH_IMM: byte := 0xc4
  const ARSH_REG: byte := 0xcc
  const LE: byte := 0xd4
  const BE: byte := 0xdc
  const ADD64_IMM: byte := 0x07
  const ADD64_REG: byte := 0x0f
  const SUB64_IMM: byte := 0x17
  const SUB64_REG: byte := 0x1f
  const MUL64_IMM: byte := 0x27
  const MUL64_REG: byte := 0x2f
  const DIV64_IMM: byte := 0x37
  const DIV64_REG: byte := 0x3f
  const OR64_IMM: byte := 0x47
  const OR64_REG: byte := 0x4f
  const AND64_IMM: byte := 0x57
  const AND64_REG: byte := 0x5f
  const LSH64_IMM: byte := 0x67
  const LSH64_REG: byte := 0x6f
  const RSH64_IMM: byte := 0x77
  const RSH64_REG: byte := 0x7f
  const NEG64: byte := 0x87
  const MOD64_IMM: byte := 0x97
  const MOD64_REG: byte := 0x9f
  const XOR64_IMM: byte := 0xa7
  const XOR64_REG: byte := 0xaf
  const MOV64_IMM: byte := 0xb7
  const MOV64_REG: byte := 0xbf
  const ARSH64_IMM: byte := 0xc7
  const ARSH64_REG: byte := 0xcf
  const LDXW: byte := 0x61
  const LDXH: byte := 0x69
  const LDXB: byte := 0x71
  const LDXDW: byte := 0x79
  const STW: byte := 0x62
  const STH: byte := 0x6a
  const STB: byte := 0x72
  const STDW: byte := 0x7a
  const STXW: byte := 0x63
  const STXH: byte := 0x6b
  const STXB: byte := 0x73
  const STXDW: byte := 0x7b
  const LDDW: byte := 0x18
  const JA: byte := 0x05
  const JEQ_IMM: byte := 0x15
  const JEQ_REG: byte := 0x1d
  const JGT_IMM: byte := 0x25
  const JGT_REG: byte := 0x2d
  const JGE_IMM: byte := 0x35
  const JGE_REG: byte := 0x3d
  const JSET_REG: byte := 0x4d
  const JSET_IMM: byte := 0x45
  const JNE_IMM: byte := 0x55
  const JNE_REG: byte := 0x5d
  const JSGT_IMM: byte := 0x65
  const JSGT_REG: byte := 0x6d
  const JSGE_IMM: byte := 0x75
  const JSGE_REG: byte := 0x7d
  const CALL: byte := 0x85
  const EXIT: byte := 0x95
}
