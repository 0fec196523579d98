/** Facts about 32-bit shifts and exclusive or. */
module Shifts {
  lemma {:induction false} XorLaws(x: bv32, y: bv32, z: bv32)
    ensures x ^ y == y ^ x && x ^ 0 == x && x ^ x == 0 && (x ^ y) ^ z == x ^ (y ^ z)
  {
  }

  lemma {:induction false} LeftXor(x: bv32, y: bv32)
    ensures (x ^ y) << 1 == (x << 1) ^ (y << 1)
  {
  }

  lemma {:induction false} TopXor(x: bv32, y: bv32)
    ensures (x ^ y) & 0x8000_0000 != 0 <==> (x & 0x8000_0000 != 0) != (y & 0x8000_0000 != 0)
  {
  }

  lemma {:induction false} SplitTop(c: bv32, b: bv32)
    requires b < 256
    ensures c ^ (b << 24) == (c & 0x00ff_ffff) ^ (((c >> 24) ^ b) << 24) && (c >> 24) ^ b < 256
    ensures (c & 0x00ff_ffff) << 8 == c << 8 && (c & 0x00ff_ffff) & 0xff00_0000 == 0
  {
  }

  /** The bits of a byte may enter together or one by one: the first may enter alone, the others wait. */
  lemma {:induction false} FirstBit(b: bv32)
    requires b < 256
    ensures b << 24 == ((b & 0x80) << 24) ^ ((((b & 0x7f) << 1) << 24) >> 1)
    ensures ((((b & 0x7f) << 1) << 24) >> 1) & 0x8000_0000 == 0 && (b & 0x7f) << 1 < 256
    ensures (b & 0x80) << 24 == if b & 0x80 != 0 then 0x8000_0000 else 0
    ensures ((((b & 0x7f) << 1) << 24) >> 1) << 1 == ((b & 0x7f) << 1) << 24
  {
  }

  /** The bytes of a word, most significant first. */
  lemma {:induction false} FourBytes(w: bv32)
    ensures (w >> 16) & 0xff == (w << 8) >> 24 && (w >> 8) & 0xff == ((w << 8) << 8) >> 24
    ensures w & 0xff == (((w << 8) << 8) << 8) >> 24 && ((((w << 8) << 8) << 8) << 8) == 0
    ensures (w >> 16) & 0xff < 256 && (w >> 8) & 0xff < 256 && w & 0xff < 256 && w >> 24 < 256
  {
  }

  lemma {:induction false} Complement(c: bv32)
    ensures c ^ !c == 0xffff_ffff
  {
  }

  /** Eight bits and no more. */
  lemma {:induction false} NoneLeft(b: bv32, b4: bv32, b8: bv32)
    requires b < 256 && b4 == Fourth(b) && b8 == Fourth(b4)
    ensures b8 == 0
  {
  }

  function Fourth(b: bv32): bv32 {
    (((((((b & 0x7f) << 1) & 0x7f) << 1) & 0x7f) << 1) & 0x7f) << 1
  }
}

/** The CRC hash of bpfmap/libghthash/hash_functions.c: one table lookup per byte computes what the
    shift register of IEEE 802.3 (section 3.2.9, unreflected, preset to ones, complemented) computes
    bit by bit. */
module Crc {
  import Shifts

  /** x^32 + x^26 + x^23 + ... + 1, without the leading term. */
  const POLYNOMIAL: bv32 := 0x04c1_1db7

  type octet = b: bv32 | b < 256

  // ----- the shift register -----

  function Xor(x: bv32, y: bv32): bv32 { x ^ y }
  function Left(c: bv32): bv32 { c << 1 }
  predicate Top(c: bv32) { c & 0x8000_0000 != 0 }

  /** One shift: the bit that falls out decides whether the polynomial is subtracted. */
  function Shift(c: bv32): bv32 { Xor(Left(c), if Top(c) then POLYNOMIAL else 0) }

  function TopBit(bit: bool): bv32 { if bit then 0x8000_0000 else 0 }

  /** One message bit enters at the top. */
  function FeedBit(c: bv32, bit: bool): bv32 { Shift(Xor(c, TopBit(bit))) }

  function FeedBits(c: bv32, bits: seq<bool>): bv32
    decreases |bits|
  {
    if bits == [] then c else FeedBits(FeedBit(c, bits[0]), bits[1..])
  }

  predicate Msb(b: octet) { b & 0x80 != 0 }
  function Next(b: octet): octet { (b & 0x7f) << 1 }

  function BitsFrom(b: octet, n: nat): (r: seq<bool>)
    ensures |r| == n
    decreases n
  {
    if n == 0 then [] else [Msb(b)] + BitsFrom(Next(b), n - 1)
  }

  /** The bits of a byte, most significant first. */
  function Bits(b: octet): seq<bool> { BitsFrom(b, 8) }

  function MessageBits(key: seq<octet>): seq<bool> {
    if key == [] then [] else Bits(key[0]) + MessageBits(key[1..])
  }

  /** The checksum, one message bit at a time. */
  function BitwiseCrc(key: seq<octet>): bv32 { !FeedBits(0xffff_ffff, MessageBits(key)) }

  // ----- the table -----

  /** The 256 table entries, sixteen to a row. */
  function Row(high: bv32): (r: seq<bv32>)
    ensures |r| == 16
  {
    match high
    case 0x0 => [0x00000000, 0x04c11db7, 0x09823b6e, 0x0d4326d9, 0x130476dc, 0x17c56b6b, 0x1a864db2, 0x1e475005,
                0x2608edb8, 0x22c9f00f, 0x2f8ad6d6, 0x2b4bcb61, 0x350c9b64, 0x31cd86d3, 0x3c8ea00a, 0x384fbdbd]
    case 0x1 => [0x4c11db70, 0x48d0c6c7, 0x4593e01e, 0x4152fda9, 0x5f15adac, 0x5bd4b01b, 0x569796c2, 0x52568b75,
                0x6a1936c8, 0x6ed82b7f, 0x639b0da6, 0x675a1011, 0x791d4014, 0x7ddc5da3, 0x709f7b7a, 0x745e66cd]
    case 0x2 => [0x9823b6e0, 0x9ce2ab57, 0x91a18d8e, 0x95609039, 0x8b27c03c, 0x8fe6dd8b, 0x82a5fb52, 0x8664e6e5,
                0xbe2b5b58, 0xbaea46ef, 0xb7a96036, 0xb3687d81, 0xad2f2d84, 0xa9ee3033, 0xa4ad16ea, 0xa06c0b5d]
    case 0x3 => [0xd4326d90, 0xd0f37027, 0xddb056fe, 0xd9714b49, 0xc7361b4c, 0xc3f706fb, 0xceb42022, 0xca753d95,
                0xf23a8028, 0xf6fb9d9f, 0xfbb8bb46, 0xff79a6f1, 0xe13ef6f4, 0xe5ffeb43, 0xe8bccd9a, 0xec7dd02d]
    case 0x4 => [0x34867077, 0x30476dc0, 0x3d044b19, 0x39c556ae, 0x278206ab, 0x23431b1c, 0x2e003dc5, 0x2ac12072,
                0x128e9dcf, 0x164f8078, 0x1b0ca6a1, 0x1fcdbb16, 0x018aeb13, 0x054bf6a4, 0x0808d07d, 0x0cc9cdca]
    case 0x5 => [0x7897ab07, 0x7c56b6b0, 0x71159069, 0x75d48dde, 0x6b93dddb, 0x6f52c06c, 0x6211e6b5, 0x66d0fb02,
                0x5e9f46bf, 0x5a5e5b08, 0x571d7dd1, 0x53dc6066, 0x4d9b3063, 0x495a2dd4, 0x44190b0d, 0x40d816ba]
    case 0x6 => [0xaca5c697, 0xa864db20, 0xa527fdf9, 0xa1e6e04e, 0xbfa1b04b, 0xbb60adfc, 0xb6238b25, 0xb2e29692,
                0x8aad2b2f, 0x8e6c3698, 0x832f1041, 0x87ee0df6, 0x99a95df3, 0x9d684044, 0x902b669d, 0x94ea7b2a]
    case 0x7 => [0xe0b41de7, 0xe4750050, 0xe9362689, 0xedf73b3e, 0xf3b06b3b, 0xf771768c, 0xfa325055, 0xfef34de2,
                0xc6bcf05f, 0xc27dede8, 0xcf3ecb31, 0xcbffd686, 0xd5b88683, 0xd1799b34, 0xdc3abded, 0xd8fba05a]
    case 0x8 => [0x690ce0ee, 0x6dcdfd59, 0x608edb80, 0x644fc637, 0x7a089632, 0x7ec98b85, 0x738aad5c, 0x774bb0eb,
                0x4f040d56, 0x4bc510e1, 0x46863638, 0x42472b8f, 0x5c007b8a, 0x58c1663d, 0x558240e4, 0x51435d53]
    case 0x9 => [0x251d3b9e, 0x21dc2629, 0x2c9f00f0, 0x285e1d47, 0x36194d42, 0x32d850f5, 0x3f9b762c, 0x3b5a6b9b,
                0x0315d626, 0x07d4cb91, 0x0a97ed48, 0x0e56f0ff, 0x1011a0fa, 0x14d0bd4d, 0x19939b94, 0x1d528623]
    case 0xa => [0xf12f560e, 0xf5ee4bb9, 0xf8ad6d60, 0xfc6c70d7, 0xe22b20d2, 0xe6ea3d65, 0xeba91bbc, 0xef68060b,
                0xd727bbb6, 0xd3e6a601, 0xdea580d8, 0xda649d6f, 0xc423cd6a, 0xc0e2d0dd, 0xcda1f604, 0xc960ebb3]
    case 0xb => [0xbd3e8d7e, 0xb9ff90c9, 0xb4bcb610, 0xb07daba7, 0xae3afba2, 0xaafbe615, 0xa7b8c0cc, 0xa379dd7b,
                0x9b3660c6, 0x9ff77d71, 0x92b45ba8, 0x9675461f, 0x8832161a, 0x8cf30bad, 0x81b02d74, 0x857130c3]
    case 0xc => [0x5d8a9099, 0x594b8d2e, 0x5408abf7, 0x50c9b640, 0x4e8ee645, 0x4a4ffbf2, 0x470cdd2b, 0x43cdc09c,
                0x7b827d21, 0x7f436096, 0x7200464f, 0x76c15bf8, 0x68860bfd, 0x6c47164a, 0x61043093, 0x65c52d24]
    case 0xd => [0x119b4be9, 0x155a565e, 0x18197087, 0x1cd86d30, 0x029f3d35, 0x065e2082, 0x0b1d065b, 0x0fdc1bec,
                0x3793a651, 0x3352bbe6, 0x3e119d3f, 0x3ad08088, 0x2497d08d, 0x2056cd3a, 0x2d15ebe3, 0x29d4f654]
    case 0xe => [0xc5a92679, 0xc1683bce, 0xcc2b1d17, 0xc8ea00a0, 0xd6ad50a5, 0xd26c4d12, 0xdf2f6bcb, 0xdbee767c,
                0xe3a1cbc1, 0xe760d676, 0xea23f0af, 0xeee2ed18, 0xf0a5bd1d, 0xf464a0aa, 0xf9278673, 0xfde69bc4]
    case _ => [0x89b8fd09, 0x8d79e0be, 0x803ac667, 0x84fbdbd0, 0x9abc8bd5, 0x9e7d9662, 0x933eb0bb, 0x97ffad0c,
                0xafb010b1, 0xab710d06, 0xa6322bdf, 0xa2f33668, 0xbcb4666d, 0xb8757bda, 0xb5365d03, 0xb1f740b4]
  }

  function TableEntry(b: octet): bv32 { Row(b >> 4)[(b & 15) as nat] }

  function AtTop(b: octet): bv32 { b << 24 }

  function Shift8(c: bv32): bv32 { Shift(Shift(Shift(Shift(Shift(Shift(Shift(Shift(c)))))))) }

  /** The low half of an index, as a number. */
  lemma {:induction false} Nibble(x: bv32)
    requires x < 16
    ensures (x == 0 ==> x as nat == 0) && (x == 1 ==> x as nat == 1) && (x == 2 ==> x as nat == 2) && (x == 3 ==> x as nat == 3)
    ensures (x == 4 ==> x as nat == 4) && (x == 5 ==> x as nat == 5) && (x == 6 ==> x as nat == 6) && (x == 7 ==> x as nat == 7)
    ensures (x == 8 ==> x as nat == 8) && (x == 9 ==> x as nat == 9) && (x == 10 ==> x as nat == 10) && (x == 11 ==> x as nat == 11)
    ensures (x == 12 ==> x as nat == 12) && (x == 13 ==> x as nat == 13) && (x == 14 ==> x as nat == 14) && (x == 15 ==> x as nat == 15)
  {
  }

  lemma {:induction false} Row0(b: octet)
    requires b >> 4 == 0x0
    ensures TableEntry(b) == Shift8(AtTop(b))
  {
    Nibble(b & 15);
  }

  lemma {:induction false} Row1(b: octet)
    requires b >> 4 == 0x1
    ensures TableEntry(b) == Shift8(AtTop(b))
  {
    Nibble(b & 15);
  }

  lemma {:induction false} Row2(b: octet)
    requires b >> 4 == 0x2
    ensures TableEntry(b) == Shift8(AtTop(b))
  {
    Nibble(b & 15);
  }

  lemma {:induction false} Row3(b: octet)
    requires b >> 4 == 0x3
    ensures TableEntry(b) == Shift8(AtTop(b))
  {
    Nibble(b & 15);
  }

  lemma {:induction false} Row4(b: octet)
    requires b >> 4 == 0x4
    ensures TableEntry(b) == Shift8(AtTop(b))
  {
    Nibble(b & 15);
  }

  lemma {:induction false} Row5(b: octet)
    requires b >> 4 == 0x5
    ensures TableEntry(b) == Shift8(AtTop(b))
  {
    Nibble(b & 15);
  }

  lemma {:induction false} Row6(b: octet)
    requires b >> 4 == 0x6
    ensures TableEntry(b) == Shift8(AtTop(b))
  {
    Nibble(b & 15);
  }

  lemma {:induction false} Row7(b: octet)
    requires b >> 4 == 0x7
    ensures TableEntry(b) == Shift8(AtTop(b))
  {
    Nibble(b & 15);
  }

  lemma {:induction false} Row8(b: octet)
    requires b >> 4 == 0x8
    ensures TableEntry(b) == Shift8(AtTop(b))
  {
    Nibble(b & 15);
  }

  lemma {:induction false} Row9(b: octet)
    requires b >> 4 == 0x9
    ensures TableEntry(b) == Shift8(AtTop(b))
  {
    Nibble(b & 15);
  }

  lemma {:induction false} RowA(b: octet)
    requires b >> 4 == 0xa
    ensures TableEntry(b) == Shift8(AtTop(b))
  {
    Nibble(b & 15);
  }

  lemma {:induction false} RowB(b: octet)
    requires b >> 4 == 0xb
    ensures TableEntry(b) == Shift8(AtTop(b))
  {
    Nibble(b & 15);
  }

  lemma {:induction false} RowC(b: octet)
    requires b >> 4 == 0xc
    ensures TableEntry(b) == Shift8(AtTop(b))
  {
    Nibble(b & 15);
  }

  lemma {:induction false} RowD(b: octet)
    requires b >> 4 == 0xd
    ensures TableEntry(b) == Shift8(AtTop(b))
  {
    Nibble(b & 15);
  }

  lemma {:induction false} RowE(b: octet)
    requires b >> 4 == 0xe
    ensures TableEntry(b) == Shift8(AtTop(b))
  {
    Nibble(b & 15);
  }

  lemma {:induction false} RowF(b: octet)
    requires b >> 4 == 0xf
    ensures TableEntry(b) == Shift8(AtTop(b))
  {
    Nibble(b & 15);
  }

  /** Every entry is its index shifted through the register. */
  lemma {:induction false} TableIsShift8(b: octet)
    ensures TableEntry(b) == Shift8(AtTop(b))
  {
    hide TableEntry, Shift8;
    match b >> 4
    case 0x0 => Row0(b);
    case 0x1 => Row1(b);
    case 0x2 => Row2(b);
    case 0x3 => Row3(b);
    case 0x4 => Row4(b);
    case 0x5 => Row5(b);
    case 0x6 => Row6(b);
    case 0x7 => Row7(b);
    case 0x8 => Row8(b);
    case 0x9 => Row9(b);
    case 0xa => RowA(b);
    case 0xb => RowB(b);
    case 0xc => RowC(b);
    case 0xd => RowD(b);
    case 0xe => RowE(b);
    case _ => RowF(b);
  }

  // ----- a byte at a time -----

  lemma {:induction false} XorLaws(x: bv32, y: bv32, z: bv32)
    ensures Xor(x, y) == Xor(y, x) && Xor(x, 0) == x && Xor(x, x) == 0
    ensures Xor(Xor(x, y), z) == Xor(x, Xor(y, z))
  {
    Shifts.XorLaws(x, y, z);
  }

  lemma {:induction false} PartsXor(x: bv32, y: bv32)
    ensures Left(Xor(x, y)) == Xor(Left(x), Left(y))
    ensures Top(Xor(x, y)) <==> Top(x) != Top(y)
  {
    Shifts.LeftXor(x, y);
    Shifts.TopXor(x, y);
  }

  /** The shift is linear over exclusive or. */
  lemma {:induction false} ShiftXor(x: bv32, y: bv32)
    ensures Shift(Xor(x, y)) == Xor(Shift(x), Shift(y))
  {
    hide Xor, Left, Top;
    PartsXor(x, y);
    var a, b, p := Left(x), Left(y), POLYNOMIAL;
    XorLaws(Xor(a, b), 0, 0);
    XorLaws(a, 0, 0);
    XorLaws(b, 0, 0);
    XorLaws(a, b, p);
    XorLaws(a, p, b);
    XorLaws(p, b, b);
    XorLaws(a, p, Xor(b, p));
    XorLaws(p, b, p);
    XorLaws(p, p, b);
    XorLaws(p, Xor(b, p), a);
    XorLaws(b, p, p);
  }

  lemma {:induction false} Shift8Xor(x: bv32, y: bv32)
    ensures Shift8(Xor(x, y)) == Xor(Shift8(x), Shift8(y))
  {
    hide Shift, Xor;
    var x1, y1 := Shift(x), Shift(y);
    var x2, y2 := Shift(x1), Shift(y1);
    var x3, y3 := Shift(x2), Shift(y2);
    var x4, y4 := Shift(x3), Shift(y3);
    var x5, y5 := Shift(x4), Shift(y4);
    var x6, y6 := Shift(x5), Shift(y5);
    var x7, y7 := Shift(x6), Shift(y6);
    ShiftXor(x, y);
    ShiftXor(x1, y1);
    ShiftXor(x2, y2);
    ShiftXor(x3, y3);
    ShiftXor(x4, y4);
    ShiftXor(x5, y5);
    ShiftXor(x6, y6);
    ShiftXor(x7, y7);
  }

  /** Without the top byte eight shifts lose nothing. */
  lemma {:induction false} Shift8Low(x: bv32)
    requires x & 0xff00_0000 == 0
    ensures Shift8(x) == x << 8
  {
  }

  /** The update of the table-driven loop. */
  function TableUpdate(c: bv32, b: octet): bv32 { Xor(c << 8, TableEntry(Index(c, b))) }

  function Index(c: bv32, b: octet): octet
  {
    Shifts.SplitTop(c, b);
    (c >> 24) ^ b
  }

  function LowPart(c: bv32): bv32 { c & 0x00ff_ffff }

  /** A whole byte enters at the top of the register. */
  function Enter(c: bv32, b: octet): bv32 { Xor(c, AtTop(b)) }

  lemma {:induction false} SplitTop(c: bv32, b: octet)
    ensures Enter(c, b) == Xor(LowPart(c), AtTop(Index(c, b)))
  {
    Shifts.SplitTop(c, b);
  }

  lemma {:induction false} LowFacts(c: bv32)
    ensures LowPart(c) << 8 == c << 8 && LowPart(c) & 0xff00_0000 == 0
  {
    Shifts.SplitTop(c, 0);
  }

  /** It is eight shifts after the byte entered at the top. */
  lemma {:induction false} TableStep(c: bv32, b: octet)
    ensures TableUpdate(c, b) == Shift8(Enter(c, b))
  {
    hide Shift8, TableEntry, Enter, Xor, Index, LowPart, AtTop;
    var top, low := Index(c, b), LowPart(c);
    TableIsShift8(top);
    SplitTop(c, b);
    LowFacts(c);
    Shift8Low(low);
    Shift8Xor(low, AtTop(top));
  }

  /** Entering the first bit and shifting leaves the others to enter later. */
  lemma {:induction false} BitEnters(c: bv32, b: octet)
    ensures Enter(FeedBit(c, Msb(b)), Next(b)) == Shift(Enter(c, b))
  {
    hide Xor, Shift, TopBit, AtTop;
    var wait := Waiting(b);
    FirstBit(b);
    ShiftXor(Xor(c, TopBit(Msb(b))), wait);
    XorLaws(c, TopBit(Msb(b)), wait);
  }

  /** What the other bits look like just before the first one shifts. */
  function Waiting(b: octet): bv32 { AtTop(Next(b)) >> 1 }

  lemma {:induction false} FirstBit(b: octet)
    ensures AtTop(b) == Xor(TopBit(Msb(b)), Waiting(b)) && Shift(Waiting(b)) == AtTop(Next(b))
  {
    Shifts.FirstBit(b);
    XorLaws(Left(Waiting(b)), 0, 0);
  }

  lemma {:induction false} FeedOne(c: bv32, b: octet, n: nat)
    requires n > 0
    ensures FeedBits(c, BitsFrom(b, n)) == FeedBits(FeedBit(c, Msb(b)), BitsFrom(Next(b), n - 1))
  {
    hide FeedBit, Msb, Next;
    assert ([Msb(b)] + BitsFrom(Next(b), n - 1))[1..] == BitsFrom(Next(b), n - 1);
  }

  function ShiftN(c: bv32, n: nat): bv32
    decreases n
  {
    if n == 0 then c else ShiftN(Shift(c), n - 1)
  }

  function NextN(b: octet, n: nat): octet
    decreases n
  {
    if n == 0 then b else NextN(Next(b), n - 1)
  }

  /** Feeding n bits of a byte and letting the rest enter is entering the byte and shifting n times. */
  lemma {:induction false} FeedSome(c: bv32, b: octet, n: nat)
    ensures Enter(FeedBits(c, BitsFrom(b, n)), NextN(b, n)) == ShiftN(Enter(c, b), n)
    decreases n
  {
    hide FeedBit, Msb, Next, Enter, Shift;
    if n == 0 {
      assert BitsFrom(b, 0) == [];
    } else {
      FeedOne(c, b, n);
      FeedSome(FeedBit(c, Msb(b)), Next(b), n - 1);
      BitEnters(c, b);
    }
  }

  lemma {:induction false} ShiftFour(c: bv32, b: octet, n: nat)
    ensures ShiftN(c, n + 4) == ShiftN(Shift(Shift(Shift(Shift(c)))), n)
    ensures NextN(b, n + 4) == NextN(Next(Next(Next(Next(b)))), n)
  {
    hide Shift, Next;
    var c1, b1 := Shift(c), Next(b);
    var c2, b2 := Shift(c1), Next(b1);
    var c3, b3 := Shift(c2), Next(b2);
    assert ShiftN(c, n + 4) == ShiftN(c1, n + 3) && NextN(b, n + 4) == NextN(b1, n + 3);
    assert ShiftN(c1, n + 3) == ShiftN(c2, n + 2) && NextN(b1, n + 3) == NextN(b2, n + 2);
    assert ShiftN(c2, n + 2) == ShiftN(c3, n + 1) && NextN(b2, n + 2) == NextN(b3, n + 1);
  }

  lemma {:induction false} EightSteps(c: bv32, b: octet)
    ensures ShiftN(c, 8) == Shift8(c) && NextN(b, 8) == 0
  {
    hide Shift;
    var c4, b4 := Shift(Shift(Shift(Shift(c)))), Next(Next(Next(Next(b))));
    ShiftFour(c, b, 4);
    ShiftFour(c4, b4, 0);
    Shifts.NoneLeft(b, b4, Next(Next(Next(Next(b4)))));
  }

  lemma {:induction false} EnterNothing(c: bv32)
    ensures Enter(c, 0) == c
  {
  }

  /** The bits of a byte may enter together. */
  lemma {:induction false} FeedByte(c: bv32, b: octet)
    ensures FeedBits(c, Bits(b)) == Shift8(Enter(c, b))
  {
    hide FeedBits, Enter, Shift8, NextN, ShiftN, Next, BitsFrom;
    FeedSome(c, b, 8);
    EightSteps(Enter(c, b), b);
    EnterNothing(FeedBits(c, Bits(b)));
  }

  lemma {:induction false} FeedAppend(c: bv32, p: seq<bool>, q: seq<bool>)
    ensures FeedBits(c, p + q) == FeedBits(FeedBits(c, p), q)
    decreases |p|
  {
    hide FeedBit;
    if p == [] {
      assert p + q == q;
    } else {
      FeedAppend(FeedBit(c, p[0]), p[1..], q);
      assert (p + q)[1..] == p[1..] + q;
    }
  }

  lemma {:induction false} MessageSnoc(key: seq<octet>, b: octet)
    ensures MessageBits(key + [b]) == MessageBits(key) + Bits(b)
  {
    hide Bits;
    if key == [] {
      assert key + [b] == [b] && [b][1..] == [];
      assert Bits(b) + [] == Bits(b);
    } else {
      MessageSnoc(key[1..], b);
      assert (key + [b])[1..] == key[1..] + [b];
      assert Bits(key[0]) + (MessageBits(key[1..]) + Bits(b)) == Bits(key[0]) + MessageBits(key[1..]) + Bits(b);
    }
  }

  // ----- the check a receiver makes -----

  function TopOf(w: bv32): octet { Index(w, 0) }

  function Up(w: bv32): bv32 { w << 8 }

  /** The four bytes of a word, most significant first. */
  function WordBytes(w: bv32): seq<octet> {
    Shifts.FourBytes(w);
    [w >> 24, (w >> 16) & 0xff, (w >> 8) & 0xff, w & 0xff]
  }

  lemma {:induction false} WordIs(w: bv32)
    ensures WordBytes(w) == [TopOf(w), TopOf(Up(w)), TopOf(Up(Up(w))), TopOf(Up(Up(Up(w))))] && Up(Up(Up(Up(w)))) == 0
  {
    Shifts.FourBytes(w);
  }

  lemma {:induction false} SplitWord(c: bv32, w: bv32)
    ensures Xor(c, w) == Xor(Enter(c, TopOf(w)), LowPart(w))
  {
    hide Xor, Index, AtTop, LowPart;
    var top, low := AtTop(TopOf(w)), LowPart(w);
    SplitTop(w, 0);
    EnterNothing(w);
    XorLaws(low, top, 0);
    XorLaws(c, top, low);
  }

  lemma {:induction false} LowUp(w: bv32)
    ensures Shift8(LowPart(w)) == Up(w)
  {
    hide Shift8, LowPart;
    LowFacts(w);
    Shift8Low(LowPart(w));
  }

  /** Entering the top byte of a word and shifting is shifting with the whole word entered. */
  lemma {:induction false} EnterTop(c: bv32, w: bv32)
    ensures Xor(Shift8(Enter(c, TopOf(w))), Up(w)) == Shift8(Xor(c, w))
  {
    hide Shift8, Xor, Enter, TopOf, Up, LowPart;
    SplitWord(c, w);
    LowUp(w);
    Shift8Xor(Enter(c, TopOf(w)), LowPart(w));
  }

  lemma {:induction false} FeedFour(c: bv32, w: bv32)
    ensures FeedBits(c, MessageBits(WordBytes(w))) == Shift8(Shift8(Shift8(Shift8(Xor(c, w)))))
  {
    hide Shift8, Enter, Bits, FeedBits, Xor, TopOf, Up, WordBytes, MessageBits;
    var w1 := Up(w);
    var w2 := Up(w1);
    var w3 := Up(w2);
    var c1 := Shift8(Enter(c, TopOf(w)));
    var c2 := Shift8(Enter(c1, TopOf(w1)));
    var c3 := Shift8(Enter(c2, TopOf(w2)));
    var c4 := Shift8(Enter(c3, TopOf(w3)));
    WordIs(w);
    EnterTop(c, w);
    EnterTop(c1, w1);
    EnterTop(c2, w2);
    EnterTop(c3, w3);
    XorLaws(c4, 0, 0);
    FeedByte(c, TopOf(w));
    FeedByte(c1, TopOf(w1));
    FeedByte(c2, TopOf(w2));
    FeedByte(c3, TopOf(w3));
    FourMessage(TopOf(w), TopOf(w1), TopOf(w2), TopOf(w3), c);
  }

  lemma {:induction false} FourMessage(a: octet, b: octet, d: octet, e: octet, c: bv32)
    ensures FeedBits(c, MessageBits([a, b, d, e]))
         == FeedBits(FeedBits(FeedBits(FeedBits(c, Bits(a)), Bits(b)), Bits(d)), Bits(e))
  {
    hide Bits, FeedBits;
    MessageSnoc([], a);
    MessageSnoc([a], b);
    MessageSnoc([a, b], d);
    MessageSnoc([a, b, d], e);
    assert [] + [a] == [a] && [a] + [b] == [a, b] && [a, b] + [d] == [a, b, d] && [a, b, d] + [e] == [a, b, d, e];
    assert MessageBits([]) + Bits(a) == Bits(a);
    FeedAppend(c, Bits(a), Bits(b));
    FeedAppend(c, Bits(a) + Bits(b), Bits(d));
    FeedAppend(c, Bits(a) + Bits(b) + Bits(d), Bits(e));
  }

  lemma {:induction false} MessageAppend(p: seq<octet>, q: seq<octet>)
    ensures MessageBits(p + q) == MessageBits(p) + MessageBits(q)
  {
    hide Bits;
    if p == [] {
      assert p + q == q && MessageBits(p) + MessageBits(q) == MessageBits(q);
    } else {
      MessageAppend(p[1..], q);
      assert (p + q)[1..] == p[1..] + q;
      MessageCons(p);
      MessageCons(p + q);
      hide MessageBits;
      JoinBits(Bits(p[0]), MessageBits(p[1..]), MessageBits(q));
    }
  }

  lemma {:induction false} MessageCons(key: seq<octet>)
    ensures key != [] ==> MessageBits(key) == Bits(key[0]) + MessageBits(key[1..])
  {
    hide Bits;
  }

  lemma {:induction false} JoinBits(a: seq<bool>, b: seq<bool>, c: seq<bool>)
    ensures a + (b + c) == a + b + c
  {
  }

  lemma {:induction false} OnesShifted()
    ensures Shift8(0xffff_ffff) == 0x4e08_bfb4 && Shift8(0x4e08_bfb4) == 0x00b7_647d
    ensures Shift8(0x00b7_647d) == 0xb764_7d00 && Shift8(0xb764_7d00) == 0xc704_dd7b
  {
  }

  /** The checksum of a message with its own checksum behind it is the same for every message, and the
      empty message has checksum zero. */
  lemma {:induction false} Residue(key: seq<octet>)
    ensures BitwiseCrc(key + WordBytes(BitwiseCrc(key))) == 0x38fb_2284
    ensures BitwiseCrc([]) == 0
  {
    hide FeedBits, MessageBits, WordBytes, Shift8, Xor;
    var r := FeedBits(0xffff_ffff, MessageBits(key));
    MessageAppend(key, WordBytes(!r));
    FeedAppend(0xffff_ffff, MessageBits(key), MessageBits(WordBytes(!r)));
    FeedFour(r, !r);
    RegisterFull(r);
    OnesShifted();
    NoBits(0xffff_ffff);
  }

  lemma {:induction false} RegisterFull(c: bv32)
    ensures Xor(c, !c) == 0xffff_ffff
  {
    Shifts.Complement(c);
  }

  /** ght_crc_hash: for every byte string the table-driven loop yields the bit-at-a-time checksum. */
  method CrcHash(key: seq<octet>) returns (hash: bv32)
    ensures hash == BitwiseCrc(key)
  {
    hide TableUpdate, FeedBits, MessageBits, Bits, Shift8, Enter;
    var crc: bv32 := 0xffff_ffff;
    NoBits(crc);
    for i := 0 to |key|
      invariant crc == FeedBits(0xffff_ffff, MessageBits(key[..i]))
    {
      TableStep(crc, key[i]);
      FeedByte(crc, key[i]);
      MessageSnoc(key[..i], key[i]);
      FeedAppend(0xffff_ffff, MessageBits(key[..i]), Bits(key[i]));
      assert key[..i + 1] == key[..i] + [key[i]];
      crc := TableUpdate(crc, key[i]);
    }
    assert key[..|key|] == key;
    return !crc;
  }

  lemma {:induction false} NoBits(c: bv32)
    ensures FeedBits(c, MessageBits([])) == c
  {
  }
}
