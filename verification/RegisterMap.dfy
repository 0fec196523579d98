/** ubpf_set_register_offset: the register map is rotated or shuffled in place, and stays a map the
    compiler is correct for. */
module RegisterMap {
  import opened X86
  import opened Jit
  import opened Simulation

  // ----- rotation -----

  /** Entry i becomes the old entry (i + x) mod 11. */
  function Rotated(m: RegMap, x: nat): (r: RegMap) {
    seq(11, i requires 0 <= i < 11 => m[(i + x) % 11])
  }

  /** Offsets add up; in particular an offset of x is undone by one of 11 - x. */
  lemma {:induction false} RotatedTwice(m: RegMap, x: nat, y: nat)
    ensures Rotated(Rotated(m, x), y) == Rotated(m, x + y)
    ensures Rotated(m, 11) == m
  {
    assert Rotated(m, 11)[..] == m;
    forall i | 0 <= i < 11 ensures Rotated(Rotated(m, x), y)[i] == Rotated(m, x + y)[i] {
      assert ((i + y) % 11 + x) % 11 == (i + (x + y)) % 11;
    }
  }

  lemma {:induction false} RotatedPermutes(m: RegMap, x: nat)
    requires x < 11
    ensures multiset(Rotated(m, x)) == multiset(m)
  {
    assert Rotated(m, x) == m[x..] + m[..x];
    assert m == m[..x] + m[x..];
  }

  /** An offset of one moves every entry one place down, the first to the end. */
  lemma {:induction false} RotatedByOne(m: RegMap)
    ensures Rotated(m, 1) == m[1..] + [m[0]]
  {
  }

  // ----- shuffle -----

  /** The pseudo-random draws of rand_r, one per position. */
  type Draws = s: seq<nat> | |s| == 10 witness seq(10, _ => 0)

  function Swap(m: RegMap, i: nat, j: nat): (r: RegMap)
    requires i < 11 && j < 11
  {
    m[j := m[i]][i := m[j]]
  }

  /** Positions below k settled: each is exchanged with a drawn position at or after it. */
  function Shuffled(m: RegMap, draws: Draws, k: nat): (r: RegMap)
    requires k <= 10
  {
    if k == 0 then m else Swap(Shuffled(m, draws, k - 1), k - 1, k - 1 + draws[k - 1] % (12 - k))
  }

  lemma {:induction false} SwapPermutes(m: RegMap, i: nat, j: nat)
    requires i < 11 && j < 11
    ensures multiset(Swap(m, i, j)) == multiset(m)
  {
  }

  lemma {:induction false} ShuffledPermutes(m: RegMap, draws: Draws, k: nat)
    requires k <= 10
    ensures multiset(Shuffled(m, draws, k)) == multiset(m)
  {
    hide Swap;
    if k > 0 {
      ShuffledPermutes(m, draws, k - 1);
      SwapPermutes(Shuffled(m, draws, k - 1), k - 1, k - 1 + draws[k - 1] % (12 - k));
    }
  }

  /** Only the first k draws matter for k exchanges. */
  lemma {:induction false} FirstDraws(m: RegMap, d: Draws, e: Draws, k: nat)
    requires k <= 10 && forall i :: 0 <= i < k ==> d[i] == e[i]
    ensures Shuffled(m, d, k) == Shuffled(m, e, k)
  {
    hide Swap;
    if k > 0 { FirstDraws(m, d, e, k - 1); }
  }

  lemma {:induction false} TailMultiset(c: RegMap, k: nat)
    requires k < 11
    ensures multiset(c[k..]) == multiset(c) - multiset(c[..k])
  {
    assert c == c[..k] + c[k..];
    assert multiset(c) == multiset(c[..k]) + multiset(c[k..]);
  }

  lemma {:induction false} FindLater(c: RegMap, m: RegMap, k: nat) returns (j: nat)
    requires k < 11 && multiset(c) == multiset(m) && c[..k] == m[..k]
    ensures k <= j < 11 && c[j] == m[k]
  {
    TailMultiset(c, k);
    TailMultiset(m, k);
    assert m[k..][0] in multiset(m[k..]);
    var i :| 0 <= i < 11 - k && c[k..][i] == m[k];
    j := k + i;
  }

  lemma {:induction false} SwapIn(c: RegMap, k: nat, j: nat)
    requires k <= j < 11
    ensures Swap(c, k, j)[k] == c[j] && Swap(c, k, j)[..k] == c[..k]
  {
  }

  lemma {:induction false} Reaches(m: RegMap, m': RegMap, k: nat) returns (draws: Draws)
    requires k <= 10 && multiset(m') == multiset(m)
    ensures Shuffled(m, draws, k)[..k] == m'[..k]
    decreases k
  {
    hide Swap;
    if k == 0 {
      draws := seq(10, _ => 0);
    } else {
      var d := Reaches(m, m', k - 1);
      draws := ReachesNext(m, m', k, d);
    }
  }

  lemma {:induction false} NextExchange(m: RegMap, draws: Draws, k: nat, j: nat)
    requires 0 < k <= 10 && k - 1 <= j < 11 && draws[k - 1] == j - (k - 1)
    ensures Shuffled(m, draws, k) == Swap(Shuffled(m, draws, k - 1), k - 1, j)
  {
    hide Swap;
    assert (j - (k - 1)) % (12 - k) == j - (k - 1);
  }

  lemma {:induction false} OneMoreSettled(r: RegMap, m: RegMap, k: nat)
    requires 0 < k <= 10 && r[..k - 1] == m[..k - 1] && r[k - 1] == m[k - 1]
    ensures r[..k] == m[..k]
  {
    assert r[..k] == r[..k - 1] + [r[k - 1]] && m[..k] == m[..k - 1] + [m[k - 1]];
  }

  lemma {:induction false} ReachesNext(m: RegMap, m': RegMap, k: nat, d: Draws) returns (draws: Draws)
    requires 0 < k <= 10 && multiset(m') == multiset(m) && Shuffled(m, d, k - 1)[..k - 1] == m'[..k - 1]
    ensures Shuffled(m, draws, k)[..k] == m'[..k]
  {
    hide Swap, Shuffled;
    var c := Shuffled(m, d, k - 1);
    ShuffledPermutes(m, d, k - 1);
    var j := FindLater(c, m', k - 1);
    draws := d[k - 1 := j - (k - 1)];
    FirstDraws(m, d, draws, k - 1);
    NextExchange(m, draws, k, j);
    SwapIn(c, k - 1, j);
    OneMoreSettled(Shuffled(m, draws, k), m', k);
  }

  /** Every arrangement of the registers is the shuffle of some draws. */
  lemma {:induction false} ShuffleReachesAll(m: RegMap, m': RegMap) returns (draws: Draws)
    requires multiset(m') == multiset(m)
    ensures Shuffled(m, draws, 10) == m'
  {
    hide Shuffled;
    draws := Reaches(m, m', 10);
    var c := Shuffled(m, draws, 10);
    ShuffledPermutes(m, draws, 10);
    var j := FindLater(c, m', 10);
    assert c == c[..10] + [c[10]] && m' == m'[..10] + [m'[10]];
  }

  // ----- the map stays usable -----

  lemma {:induction false} TwiceInMultiset(m: RegMap, i: nat, j: nat)
    requires i < j < 11 && m[i] == m[j]
    ensures multiset(m)[m[i]] >= 2
  {
    assert m == m[..i] + [m[i]] + m[i + 1..j] + [m[j]] + m[j + 1..];
  }

  lemma {:induction false} OnceInMultiset(m: RegMap, i: nat)
    requires i < 11 && forall j, k :: 0 <= j < k < 11 ==> m[j] != m[k]
    ensures multiset(m)[m[i]] == 1
  {
    assert m == m[..i] + [m[i]] + m[i + 1..];
    assert m[i] !in m[..i] && m[i] !in m[i + 1..];
  }

  /** Any rearrangement of a valid map is valid: distinct registers, none of RCX, RSP, R10-R12. */
  lemma {:induction false} PermutationValid(m: RegMap, m': RegMap)
    requires ValidMap(m) && multiset(m') == multiset(m)
    ensures ValidMap(m')
  {
    forall i | 0 <= i < 11 ensures Mappable(m'[i]) {
      assert m'[i] in multiset(m);
    }
    forall i, j | 0 <= i < j < 11 ensures m'[i] != m'[j] {
      if m'[i] == m'[j] {
        TwiceInMultiset(m', i, j);
        assert m'[i] in multiset(m);
        var k :| 0 <= k < 11 && m[k] == m'[i];
        OnceInMultiset(m, k);
      }
    }
  }

  lemma {:induction false} DefaultValid()
    ensures ValidMap(DEFAULT_MAP)
  {
  }

  // ----- in place -----

  method SetRegisterOffset(registerMap: array<reg>, x: nat, draws: Draws)
    requires registerMap.Length == 11
    modifies registerMap
    ensures registerMap[..] == if x < 11 then Rotated(old(registerMap[..]), x) else Shuffled(old(registerMap[..]), draws, 10)
    ensures multiset(registerMap[..]) == multiset(old(registerMap[..]))
    ensures ValidMap(old(registerMap[..])) ==> ValidMap(registerMap[..])
  {
    hide ValidMap, Rotated, Shuffled;
    ghost var before: RegMap := registerMap[..];
    if x < 11 {
      Rotate(registerMap, x);
      RotatedPermutes(before, x);
    } else {
      Shuffle(registerMap, draws);
      ShuffledPermutes(before, draws, 10);
    }
    if ValidMap(before) { PermutationValid(before, registerMap[..]); }
  }

  method Rotate(registerMap: array<reg>, x: nat)
    requires registerMap.Length == 11
    modifies registerMap
    ensures registerMap[..] == Rotated(old(registerMap[..]), x)
  {
    var tmp := registerMap[..];
    for i := 0 to 11
      invariant forall k :: 0 <= k < i ==> registerMap[k] == tmp[(k + x) % 11]
    {
      registerMap[i] := tmp[(i + x) % 11];
    }
  }

  method Shuffle(registerMap: array<reg>, draws: Draws)
    requires registerMap.Length == 11
    modifies registerMap
    ensures registerMap[..] == Shuffled(old(registerMap[..]), draws, 10)
  {
    ghost var before: RegMap := registerMap[..];
    for i := 0 to 10
      invariant registerMap[..] == Shuffled(before, draws, i)
    {
      var j := i + draws[i] % (11 - i);
      var tmp := registerMap[j];
      registerMap[j] := registerMap[i];
      registerMap[i] := tmp;
    }
  }
}
