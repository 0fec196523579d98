/** Byte-addressed memory shared by the interpreter and the x86 machine. */
module Memory {
  import opened Words

  type Mem = map<int, byte>

  predicate Mapped(m: Mem, a: int, n: nat) {
    forall x :: a <= x < a + n ==> x in m
  }

  function LoadBytes(m: Mem, a: int, n: nat): (r: seq<byte>)
    requires Mapped(m, a, n)
    ensures |r| == n
    ensures forall k :: 0 <= k < n ==> r[k] == m[a + k]
  {
    seq(n, k requires 0 <= k < n => m[a + k])
  }

  predicate Between(lo: int, a: int, hi: int) { lo <= a < hi }

  /** Zeros at the addresses from lo up to hi. */
  function Zeros(lo: int, hi: int): (m: Mem)
    ensures forall a :: a in m <==> lo <= a < hi
    ensures forall a :: a in m ==> m[a] == 0
  {
    map a: int | lo <= a < hi && Between(lo, a, hi) :: 0
  }

  /** Little-endian load of n bytes. */
  function Load(m: Mem, a: int, n: nat): nat
    requires Mapped(m, a, n)
  {
    FromLE(LoadBytes(m, a, n))
  }

  function StoreBytes(m: Mem, a: int, bs: seq<byte>): (r: Mem)
    ensures r.Keys == m.Keys
    ensures forall x :: x in m ==> r[x] == if a <= x < a + |bs| then bs[x - a] else m[x]
  {
    map x | x in m :: if a <= x < a + |bs| then bs[x - a] else m[x]
  }

  /** Little-endian store of the low n bytes of v. */
  function Store(m: Mem, a: int, v: nat, n: nat): (r: Mem)
    ensures r.Keys == m.Keys
  {
    StoreBytes(m, a, ToLE(v, n))
  }

  lemma {:induction false} LoadOfStore(m: Mem, a: int, v: nat, n: nat)
    requires Mapped(m, a, n) && v < Pow2(8 * n)
    ensures Load(Store(m, a, v, n), a, n) == v
  {
    assert LoadBytes(Store(m, a, v, n), a, n) == ToLE(v, n);
    FromToLE(v, n);
  }

  /** A load only sees the bytes it covers. */
  lemma {:induction false} LoadSame(m: Mem, m': Mem, a: int, n: nat)
    requires Mapped(m, a, n) && Mapped(m', a, n)
    requires forall x :: a <= x < a + n ==> m[x] == m'[x]
    ensures Load(m, a, n) == Load(m', a, n)
  {
    assert LoadBytes(m, a, n) == LoadBytes(m', a, n);
  }

  lemma {:induction false} LoadBound(m: Mem, a: int, n: nat)
    requires Mapped(m, a, n)
    ensures Load(m, a, n) < Pow2(8 * n)
  {
    FromLEBound(LoadBytes(m, a, n));
  }
}
