/** Machine words as bounded integers: truncation, sign reinterpretation, powers of two,
    bitwise operations and little-endian bytes. Every wrap-around of the C code is written out. */
module Words {

  type byte = x: int | 0 <= x < 0x100
  type u32 = x: int | 0 <= x < 0x1_0000_0000
  type u64 = x: int | 0 <= x < 0x1_0000_0000_0000_0000
  type int32 = x: int | -0x8000_0000 <= x < 0x8000_0000
  type int16 = x: int | -0x8000 <= x < 0x8000

  /** Conversion to uint32_t: keeps the low 32 bits (two's complement for negative values). */
  function U32(x: int): u32 { x % 0x1_0000_0000 }

  /** Conversion to uint64_t; sign-extends a negative int32_t. */
  function U64(x: int): u64 { x % 0x1_0000_0000_0000_0000 }

  /** The low 32 bits read as int32_t. */
  function S32(x: int): int32 {
    var u := x % 0x1_0000_0000;
    if u < 0x8000_0000 then u else u - 0x1_0000_0000
  }

  /** A uint64_t read as int64_t. */
  function S64(x: u64): int {
    if x < 0x8000_0000_0000_0000 then x else x - 0x1_0000_0000_0000_0000
  }

  lemma {:induction false} S32OfU32(x: int32)
    ensures S32(U32(x)) == x
  {
  }

  lemma {:induction false} U32OfU64(x: int)
    ensures U32(U64(x)) == U32(x)
  {
  }

  // ----- powers of two -----

  function Pow2(n: nat): (r: nat)
    ensures r >= 1
  {
    if n == 0 then 1 else 2 * Pow2(n - 1)
  }

  lemma {:induction false} Pow2Add(m: nat, n: nat)
    ensures Pow2(m + n) == Pow2(m) * Pow2(n)
  {
    if m == 0 {
    } else {
      Pow2Add(m - 1, n);
      assert 2 * (Pow2(m - 1) * Pow2(n)) == (2 * Pow2(m - 1)) * Pow2(n);
    }
  }

  lemma {:induction false} Pow2Mono(m: nat, n: nat)
    requires m <= n
    ensures Pow2(m) <= Pow2(n)
  {
    if m < n { Pow2Mono(m, n - 1); }
  }

  lemma {:induction false} Pow2Facts()
    ensures Pow2(8) == 0x100
    ensures Pow2(16) == 0x1_0000
    ensures Pow2(32) == 0x1_0000_0000
    ensures Pow2(64) == 0x1_0000_0000_0000_0000
  {
    assert Pow2(4) == 16;
    Pow2Add(4, 4);
    Pow2Add(8, 8);
    Pow2Add(16, 16);
    Pow2Add(32, 32);
  }

  // ----- modular arithmetic -----

  lemma {:induction false} DivModUnique(x: int, p: int, q: int, r: int)
    requires p > 0 && x == p * q + r && 0 <= r < p
    ensures x / p == q && x % p == r
  {
    assert x == p * (x / p) + x % p;
    var d := q - x / p;
    assert p * d == x % p - r by { assert p * (q - x / p) == p * q - p * (x / p); }
    assert d > 0 ==> p * d >= p;
    assert d < 0 ==> p * d <= -p;
  }

  /** Multiplying representatives: only the residues matter. */
  lemma {:induction false} MulMod(a: int, b: int, p: int)
    requires p > 0
    ensures ((a % p) * b) % p == (a * b) % p
  {
    var q, r := a / p, a % p;
    assert a == p * q + r;
    var x := (r * b) % p;
    var y := (r * b) / p;
    assert a * b == p * (q * b + y) + x by {
      assert a * b == (p * q) * b + r * b;
      assert (p * q) * b == p * (q * b);
      assert r * b == p * y + x;
    }
    DivModUnique(a * b, p, q * b + y, x);
  }

  lemma {:induction false} MulModBoth(a: int, b: int, p: int)
    requires p > 0
    ensures ((a % p) * (b % p)) % p == (a * b) % p
  {
    MulMod(a, b % p, p);
    MulMod(b, a, p);
  }

  function Quot(n: int, v: int): int requires v > 0 { n / v }
  function Rem(n: int, v: int): int requires v > 0 { n % v }

  /** Unsigned division; the quotient fits because the divisor is at least 1. */
  function DivU(x: u64, y: u64): (q: u64)
    requires y != 0
  {
    DivBound(x, y);
    Quot(x, y)
  }

  function ModU(x: u64, y: u64): (r: u64)
    requires y != 0
  {
    DivBound(x, y);
    Rem(x, y)
  }

  lemma {:induction false} MulAtLeast(y: int, q: int)
    requires y > 0 && q >= 0
    ensures y * q >= q
  {
    assert y * q == (y - 1) * q + q;
    assert (y - 1) * q >= 0;
  }

  lemma {:induction false} DivBound(x: nat, y: nat)
    requires y > 0
    ensures 0 <= Quot(x, y) <= x
    ensures 0 <= Rem(x, y) <= x
    ensures Rem(x, y) < y
  {
    var q := x / y;
    assert x == y * q + x % y;
    MulAtLeast(y, q);
  }

  // ----- bitwise operations on naturals -----

  datatype BitOp = BitAnd | BitOr | BitXor

  function OnBit(op: BitOp, a: nat, b: nat): (r: nat)
    ensures r <= 1
  {
    match op
    case BitAnd => if a == 1 && b == 1 then 1 else 0
    case BitOr => if a == 1 || b == 1 then 1 else 0
    case BitXor => if a == b then 0 else 1
  }

  function Bitwise(op: BitOp, x: nat, y: nat): nat
    decreases x + y
  {
    if x == 0 && y == 0 then 0
    else OnBit(op, x % 2, y % 2) + 2 * Bitwise(op, x / 2, y / 2)
  }

  lemma {:induction false} ModHalf(x: nat, p: nat)
    requires p > 0
    ensures x % (2 * p) == x % 2 + 2 * ((x / 2) % p)
  {
    var h := x / 2;
    assert h == p * (h / p) + h % p;
    assert x == (2 * p) * (h / p) + (x % 2 + 2 * (h % p)) by {
      assert (2 * p) * (h / p) == 2 * (p * (h / p));
    }
    DivModUnique(x, 2 * p, h / p, x % 2 + 2 * (h % p));
  }

  /** Peeling the lowest bit off a residue. */
  lemma {:induction false} ModPow2Step(x: nat, n: nat)
    requires n > 0
    ensures x % Pow2(n) == x % 2 + 2 * ((x / 2) % Pow2(n - 1))
    ensures (x % Pow2(n)) / 2 == (x / 2) % Pow2(n - 1)
    ensures (x % Pow2(n)) % 2 == x % 2
  {
    ModHalf(x, Pow2(n - 1));
  }

  /** A bitwise operation can be done on the low bits alone: the fact behind the agreement of a
      64-bit operation followed by a mask with a 32-bit operation. */
  lemma {:induction false} BitwiseLow(op: BitOp, x: nat, y: nat, n: nat)
    ensures Bitwise(op, x, y) % Pow2(n) == Bitwise(op, x % Pow2(n), y % Pow2(n))
    decreases n
  {
    if n > 0 {
      BitwiseLow(op, x / 2, y / 2, n - 1);
      ModPow2Step(x, n);
      ModPow2Step(y, n);
      ModPow2Step(Bitwise(op, x, y), n);
      BitwiseStep(op, x, y);
      BitwiseStep(op, x % Pow2(n), y % Pow2(n));
      hide Pow2, Bitwise;
    } else {
      assert Bitwise(op, 0, 0) == 0;
    }
  }

  lemma {:induction false} BitwiseStep(op: BitOp, x: nat, y: nat)
    ensures Bitwise(op, x, y) / 2 == Bitwise(op, x / 2, y / 2)
    ensures Bitwise(op, x, y) % 2 == OnBit(op, x % 2, y % 2)
    ensures Bitwise(op, x, y) == OnBit(op, x % 2, y % 2) + 2 * Bitwise(op, x / 2, y / 2)
  {
  }

  lemma {:induction false} BitwiseBound(op: BitOp, x: nat, y: nat, n: nat)
    requires x < Pow2(n) && y < Pow2(n)
    ensures Bitwise(op, x, y) < Pow2(n)
  {
    BitwiseLow(op, x, y, n);
    assert Bitwise(op, x, y) == Bitwise(op, x, y) % Pow2(n) by {
      DivModUnique(x, Pow2(n), 0, x);
      DivModUnique(y, Pow2(n), 0, y);
    }
  }

  function Bit(x: nat, n: nat): nat { (x / Pow2(n)) % 2 }

  /** Bitwise is the operation bit by bit. */
  lemma {:induction false} BitwiseBits(op: BitOp, x: nat, y: nat, n: nat)
    ensures Bit(Bitwise(op, x, y), n) == OnBit(op, Bit(x, n), Bit(y, n))
    decreases n
  {
    BitwiseStep(op, x, y);
    if n == 0 {
    } else {
      BitwiseBits(op, x / 2, y / 2, n - 1);
      BitShift(x, n);
      BitShift(y, n);
      BitShift(Bitwise(op, x, y), n);
    }
  }

  lemma {:induction false} BitShift(x: nat, n: nat)
    requires n > 0
    ensures Bit(x, n) == Bit(x / 2, n - 1)
  {
    var p := Pow2(n - 1);
    var h := x / 2;
    assert h == p * (h / p) + h % p;
    assert x == (2 * p) * (h / p) + (x % 2 + 2 * (h % p)) by {
      assert (2 * p) * (h / p) == 2 * (p * (h / p));
    }
    DivModUnique(x, 2 * p, h / p, x % 2 + 2 * (h % p));
  }

  /** Masking with 2^n - 1 keeps the low n bits. */
  lemma {:induction false} AndMask(x: nat, n: nat)
    ensures Bitwise(BitAnd, x, Pow2(n) - 1) == x % Pow2(n)
    decreases n
  {
    if n == 0 {
      AndZero(x);
    } else {
      AndMask(x / 2, n - 1);
      AndMaskStep(x, n);
    }
  }

  lemma {:induction false} AndMaskStep(x: nat, n: nat)
    requires n > 0 && Bitwise(BitAnd, x / 2, Pow2(n - 1) - 1) == (x / 2) % Pow2(n - 1)
    ensures Bitwise(BitAnd, x, Pow2(n) - 1) == x % Pow2(n)
  {
    ModPow2Step(x, n);
    var m, k := Pow2(n) - 1, Pow2(n - 1) - 1;
    assert m == 2 * k + 1;
    hide Pow2;
    BitwiseStep(BitAnd, x, m);
    hide Bitwise;
    assert m / 2 == k && m % 2 == 1;
  }

  lemma {:induction false} AndZero(x: nat)
    ensures Bitwise(BitAnd, x, 0) == 0
  {
    if x > 0 { AndZero(x / 2); }
  }

  lemma {:induction false} XorSelf(x: nat)
    ensures Bitwise(BitXor, x, x) == 0
  {
    if x > 0 { XorSelf(x / 2); }
  }

  /** What or adds to and is the sum; exclusive or leaves out both copies of and. */
  lemma {:induction false} OrAndXor(x: nat, y: nat)
    ensures Bitwise(BitOr, x, y) + Bitwise(BitAnd, x, y) == x + y
    ensures Bitwise(BitXor, x, y) + 2 * Bitwise(BitAnd, x, y) == x + y
    decreases x + y
  {
    if x != 0 || y != 0 {
      OrAndXor(x / 2, y / 2);
      BitwiseStep(BitAnd, x, y);
      BitwiseStep(BitOr, x, y);
      BitwiseStep(BitXor, x, y);
      hide Bitwise;
    }
  }

  // ----- little-endian bytes -----

  function ToLE(x: nat, n: nat): (r: seq<byte>)
    ensures |r| == n
  {
    if n == 0 then [] else [x % 0x100] + ToLE(x / 0x100, n - 1)
  }

  function FromLE(s: seq<byte>): nat
  {
    if s == [] then 0 else s[0] + 0x100 * FromLE(s[1..])
  }

  lemma {:induction false} FromToLE(x: nat, n: nat)
    requires x < Pow2(8 * n)
    ensures FromLE(ToLE(x, n)) == x
  {
    if n > 0 {
      Pow2Add(8, 8 * (n - 1));
      Pow2Facts();
      FromToLE(x / 0x100, n - 1);
      assert ToLE(x, n)[1..] == ToLE(x / 0x100, n - 1);
    }
  }

  lemma {:induction false} FromLEBound(s: seq<byte>)
    ensures FromLE(s) < Pow2(8 * |s|)
  {
    if s != [] {
      FromLEBound(s[1..]);
      Pow2Add(8, 8 * (|s| - 1));
      Pow2Facts();
    }
  }

  lemma {:induction false} ToFromLE(s: seq<byte>)
    ensures ToLE(FromLE(s), |s|) == s
  {
    if s != [] {
      ToFromLE(s[1..]);
    }
  }

  lemma {:induction false} JoinParts(a: nat, b: nat, p: nat)
    ensures (a + b * (0x100 * p)) % 0x100 == a % 0x100
    ensures (a + b * (0x100 * p)) / 0x100 == a / 0x100 + b * p
  {
    assert b * (0x100 * p) == 0x100 * (b * p);
    DivModUnique(a + b * (0x100 * p), 0x100, a / 0x100 + b * p, a % 0x100);
  }

  /** The low m bytes, then the others. */
  lemma {:induction false} ToLEJoin(a: nat, b: nat, m: nat, n: nat)
    requires a < Pow2(8 * m)
    ensures ToLE(a + b * Pow2(8 * m), m + n) == ToLE(a, m) + ToLE(b, n)
    decreases m
  {
    hide Pow2, ToLE;
    if m == 0 {
      ToLENone(a);
      assert [] + ToLE(b, n) == ToLE(b, n);
    } else {
      var p := Pow2(8 * (m - 1));
      Pow2Add(8, 8 * (m - 1));
      Pow2Facts();
      assert Pow2(8 * m) == 0x100 * p;
      JoinParts(a, b, p);
      ToLEJoin(a / 0x100, b, m - 1, n);
      ToLEStep(a + b * Pow2(8 * m), m + n);
      ToLEStep(a, m);
      assert [a % 0x100] + (ToLE(a / 0x100, m - 1) + ToLE(b, n)) == [a % 0x100] + ToLE(a / 0x100, m - 1) + ToLE(b, n);
    }
  }

  lemma {:induction false} ToLENone(a: nat)
    ensures Pow2(0) == 1 && ToLE(a, 0) == []
  {
  }

  lemma {:induction false} ToLEStep(x: nat, n: nat)
    requires n > 0
    ensures ToLE(x, n) == [x % 0x100] + ToLE(x / 0x100, n - 1)
  {
  }

  lemma {:induction false} LE4(x: u32)
    ensures FromLE(ToLE(x, 4)) == x
  {
    Pow2Facts();
    FromToLE(x, 4);
  }

  lemma {:induction false} LE8(x: u64)
    ensures FromLE(ToLE(x, 8)) == x
  {
    Pow2Facts();
    FromToLE(x, 8);
  }
}
