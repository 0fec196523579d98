/** What the hash table of bpfmap/libghthash/hash_table.c does, on values: the key chain of every
    bucket and the entries from oldest to newest insertion. */
module TableSpec {
  import opened Words

  type Key = seq<byte>
  type Pointer = nat

  /** A null data pointer: what the lookups return for an absent key. */
  const NULL: Pointer := 0

  datatype Heuristics = NoHeuristics | Transpose | MoveToFront

  /** A table's settings; limit 0 means unbounded buckets. */
  datatype Config = Config(hash: Key -> u32, heuristics: Heuristics, limit: nat, autoRehash: bool)

  datatype Item = Item(key: Key, data: Pointer)
  datatype Table = Table(bits: nat, chains: seq<seq<Key>>, items: seq<Item>)

  // ----- sequences -----

  function Delete<T>(s: seq<T>, i: nat): (r: seq<T>)
    requires i < |s|
    ensures |r| == |s| - 1
    ensures forall k :: 0 <= k < |r| ==> r[k] == s[if k < i then k else k + 1]
  {
    s[..i] + s[i + 1..]
  }

  /** First position of k, or the length. */
  function IndexOf(c: seq<Key>, k: Key): (i: nat)
    ensures i <= |c| && (i < |c| <==> k in c) && (i < |c| ==> c[i] == k)
    ensures forall j :: 0 <= j < i ==> c[j] != k
  {
    if c == [] then 0 else if c[0] == k then 0 else 1 + IndexOf(c[1..], k)
  }

  function KeysOf(items: seq<Item>): (r: seq<Key>)
    ensures |r| == |items|
    ensures forall i :: 0 <= i < |r| ==> r[i] == items[i].key
  {
    seq(|items|, i requires 0 <= i < |items| => items[i].key)
  }

  predicate Unique(c: seq<Key>) { forall i, j :: 0 <= i < j < |c| ==> c[i] != c[j] }

  // ----- buckets -----

  /** hash & mask. */
  function Bucket(hash: Key -> u32, bits: nat, k: Key): (b: nat)
    ensures b < Pow2(bits)
  {
    AndMask(hash(k), bits);
    Bitwise(BitAnd, hash(k), Pow2(bits) - 1)
  }

  /** The mask picks the bucket hash mod size. */
  lemma {:induction false} BucketIsMod(hash: Key -> u32, bits: nat, k: Key)
    ensures Bucket(hash, bits, k) == hash(k) % Pow2(bits)
  {
    AndMask(hash(k), bits);
  }

  /** Each key sits once in the chain of its bucket exactly if it is an item. */
  ghost predicate WellFormed(hash: Key -> u32, t: Table) {
    |t.chains| == Pow2(t.bits) &&
    Unique(KeysOf(t.items)) &&
    (forall b :: 0 <= b < |t.chains| ==> Unique(t.chains[b])) &&
    (forall b, k :: 0 <= b < |t.chains| && k in t.chains[b] ==> Bucket(hash, t.bits, k) == b && k in KeysOf(t.items)) &&
    (forall k :: k in KeysOf(t.items) ==> k in t.chains[Bucket(hash, t.bits, k)])
  }

  // ----- reordering -----

  /** The heuristics' new order of a list whose i-th element was asked for. */
  function Touched<T>(h: Heuristics, c: seq<T>, i: nat): (r: seq<T>)
    requires i < |c|
    ensures |r| == |c|
  {
    match h
    case NoHeuristics => c
    case Transpose => if i == 0 then c else c[i - 1 := c[i]][i := c[i - 1]]
    case MoveToFront => [c[i]] + Delete(c, i)
  }

  /** search_in_bucket: the chain afterwards. */
  function Searched(h: Heuristics, c: seq<Key>, k: Key): (r: seq<Key>) {
    if k in c then Touched(h, c, IndexOf(c, k)) else c
  }

  // ----- operations -----

  function Lookup(t: Table, k: Key): Pointer {
    var ks := KeysOf(t.items);
    if k in ks then t.items[IndexOf(ks, k)].data else NULL
  }

  lemma {:induction false} LookupAt(t: Table, i: nat)
    requires i < |t.items| && Unique(KeysOf(t.items))
    ensures Lookup(t, t.items[i].key) == t.items[i].data
    ensures IndexOf(KeysOf(t.items), t.items[i].key) == i
  {
    var ks := KeysOf(t.items);
    assert ks[i] in ks;
  }

  /** The table after the bucket of k was searched. */
  function Search(cfg: Config, t: Table, k: Key): Table
    requires |t.chains| == Pow2(t.bits)
  {
    var b := Bucket(cfg.hash, t.bits, k);
    t.(chains := t.chains[b := Searched(cfg.heuristics, t.chains[b], k)])
  }

  /** Without a heuristic a search changes nothing. */
  lemma {:induction false} NoTouch(cfg: Config, t: Table, k: Key)
    requires |t.chains| == Pow2(t.bits)
    ensures Search(cfg.(heuristics := NoHeuristics), t, k) == t
  {
    hide Bucket, IndexOf;
  }

  function Replace(cfg: Config, t: Table, k: Key, d: Pointer): Table
    requires |t.chains| == Pow2(t.bits)
  {
    var s := Search(cfg, t, k);
    var ks := KeysOf(t.items);
    if k in ks then s.(items := t.items[IndexOf(ks, k) := Item(k, d)]) else s
  }

  function RemoveItem(items: seq<Item>, k: Key): seq<Item> {
    var ks := KeysOf(items);
    if k in ks then Delete(items, IndexOf(ks, k)) else items
  }

  function Remove(cfg: Config, t: Table, k: Key): Table
    requires |t.chains| == Pow2(t.bits)
  {
    var b := Bucket(cfg.hash, t.bits, k);
    var c := t.chains[b];
    if k in c then t.(chains := t.chains[b := Delete(c, IndexOf(c, k))], items := RemoveItem(t.items, k)) else t
  }

  /** The bucket of k is at its limit. */
  predicate Full(cfg: Config, t: Table, k: Key)
    requires |t.chains| == Pow2(t.bits)
  {
    cfg.limit != 0 && |t.chains[Bucket(cfg.hash, t.bits, k)]| >= cfg.limit
  }

  /** Entry at the end of the chain of k: the one a full bucket gives up. */
  function Victim(cfg: Config, t: Table, k: Key): Key
    requires |t.chains| == Pow2(t.bits) && Full(cfg, t, k)
  {
    var c := t.chains[Bucket(cfg.hash, t.bits, k)];
    c[|c| - 1]
  }

  /** A new entry: first in its chain, newest item; a full bucket loses its last entry. */
  function Place(cfg: Config, t: Table, k: Key, d: Pointer): (r: Table)
    requires |t.chains| == Pow2(t.bits)
    ensures |r.chains| == |t.chains| && r.bits == t.bits
  {
    var b := Bucket(cfg.hash, t.bits, k);
    var c := t.chains[b];
    if Full(cfg, t, k) then
      Table(t.bits, t.chains[b := [k] + c[..|c| - 1]], RemoveItem(t.items, Victim(cfg, t, k)) + [Item(k, d)])
    else
      Table(t.bits, t.chains[b := [k] + c], t.items + [Item(k, d)])
  }

  /** Least power of two not below n, as an exponent. */
  function BitsFor(n: nat): (bits: nat)
    ensures Pow2(bits) >= n && (bits > 0 ==> Pow2(bits - 1) < n)
  {
    BitsFrom(0, n)
  }

  function BitsFrom(i: nat, n: nat): (bits: nat)
    requires i > 0 ==> Pow2(i - 1) < n
    ensures Pow2(bits) >= n && (bits > 0 ==> Pow2(bits - 1) < n)
    decreases n - Pow2(i)
  {
    if Pow2(i) >= n then i else BitsFrom(i + 1, n)
  }

  function Empty(n: nat): Table {
    var bits := BitsFor(n);
    Table(bits, seq(Pow2(bits), _ => []), [])
  }

  /** The settings of the temporary table of a rehash. */
  function Plain(cfg: Config): Config { Config(cfg.hash, NoHeuristics, 0, false) }

  /** The items a walk from the oldest entry reaches: it stops at a null data pointer. */
  function Walked(items: seq<Item>): (r: seq<Item>)
    ensures |r| <= |items| && r == items[..|r|]
    ensures forall i :: 0 <= i < |r| ==> r[i].data != NULL
    ensures |r| < |items| ==> items[|r|].data == NULL
  {
    if items == [] || items[0].data == NULL then [] else [items[0]] + Walked(items[1..])
  }

  function PlaceAll(cfg: Config, t: Table, items: seq<Item>): (r: Table)
    requires |t.chains| == Pow2(t.bits)
    ensures |r.chains| == |t.chains| && r.bits == t.bits
  {
    if items == [] then t else
    var last := |items| - 1;
    Place(cfg, PlaceAll(cfg, t, items[..last]), items[last].key, items[last].data)
  }

  function Rehash(cfg: Config, t: Table, n: nat): (r: Table)
    ensures |r.chains| == Pow2(r.bits)
  {
    PlaceAll(Plain(cfg), Empty(n), Walked(t.items))
  }

  /** ght_insert; a present key changes nothing. */
  function Insert(cfg: Config, t: Table, k: Key, d: Pointer): Table
    requires |t.chains| == Pow2(t.bits)
  {
    if k in t.chains[Bucket(cfg.hash, t.bits, k)] then t
    else if cfg.autoRehash && |t.items| > 2 * Pow2(t.bits) then
      Place(cfg, Rehash(cfg, t, 2 * Pow2(t.bits)), k, d)
    else Place(cfg, t, k, d)
  }

  /** Inserting k doubles the number of buckets: the key is absent and the table, which may rehash,
      holds more than two entries per bucket on average. */
  predicate MustGrow(cfg: Config, t: Table, k: Key) {
    k !in KeysOf(t.items) && cfg.autoRehash && |t.items| > 2 * Pow2(t.bits)
  }

  /** The table an insertion of k places its entry in. */
  function Grown(cfg: Config, t: Table, k: Key): Table {
    if MustGrow(cfg, t, k) then Rehash(cfg, t, 2 * Pow2(t.bits)) else t
  }

  // ----- every operation keeps the table well-formed -----

  lemma {:induction false} EmptyWellFormed(hash: Key -> u32, n: nat)
    ensures WellFormed(hash, Empty(n))
  {
  }

  lemma {:induction false} UniqueDelete(c: seq<Key>, i: nat)
    requires Unique(c) && i < |c|
    ensures Unique(Delete(c, i)) && c[i] !in Delete(c, i)
    ensures forall k :: k in c && k != c[i] ==> k in Delete(c, i)
    ensures forall k :: k in Delete(c, i) ==> k in c
  {
    forall k | k in c && k != c[i] ensures k in Delete(c, i) {
      var j :| 0 <= j < |c| && c[j] == k;
      assert Delete(c, i)[if j < i then j else j - 1] == k;
    }
  }

  /** A touch only reorders. */
  lemma {:induction false} TouchedKeeps(h: Heuristics, c: seq<Key>, i: nat)
    requires Unique(c) && i < |c|
    ensures Unique(Touched(h, c, i))
    ensures forall k :: k in Touched(h, c, i) <==> k in c
  {
    if h == MoveToFront {
      UniqueDelete(c, i);
    } else if h == Transpose && i > 0 {
      var r := Touched(h, c, i);
      assert r[i - 1] == c[i] && r[i] == c[i - 1];
      forall k | k in c ensures k in r {
        var j :| 0 <= j < |c| && c[j] == k;
        assert j != i - 1 && j != i ==> r[j] == k;
      }
    }
  }

  /** Transposing moves the entry one place towards the front, its predecessor takes its place, and the
      first entry stays; moving to the front shifts what was before it; every other entry stays. */
  lemma {:induction false} TouchedMoves<T>(c: seq<T>, i: nat)
    requires i < |c|
    ensures Touched(NoHeuristics, c, i) == c
    ensures var r := Touched(Transpose, c, i);
      (forall k :: 0 <= k < |c| && k != i && k + 1 != i ==> r[k] == c[k]) &&
      (if i == 0 then r[0] == c[0] else r[i - 1] == c[i] && r[i] == c[i - 1])
    ensures var r := Touched(MoveToFront, c, i);
      r[0] == c[i] && (forall k :: 0 <= k < i ==> r[k + 1] == c[k]) && forall k :: i < k < |c| ==> r[k] == c[k]
  {
  }

  lemma {:induction false} SearchWellFormed(cfg: Config, t: Table, k: Key)
    requires WellFormed(cfg.hash, t)
    ensures WellFormed(cfg.hash, Search(cfg, t, k))
  {
    hide Bucket, Touched, KeysOf;
    var c := t.chains[Bucket(cfg.hash, t.bits, k)];
    if k in c { TouchedKeeps(cfg.heuristics, c, IndexOf(c, k)); }
  }

  lemma {:induction false} ReplaceWellFormed(cfg: Config, t: Table, k: Key, d: Pointer)
    requires WellFormed(cfg.hash, t)
    ensures WellFormed(cfg.hash, Replace(cfg, t, k, d))
    ensures KeysOf(Replace(cfg, t, k, d).items) == KeysOf(t.items)
  {
    hide Bucket, Searched;
    SearchWellFormed(cfg, t, k);
    assert KeysOf(Replace(cfg, t, k, d).items) == KeysOf(t.items);
  }

  lemma {:induction false} KeysDelete(items: seq<Item>, i: nat)
    requires i < |items|
    ensures KeysOf(Delete(items, i)) == Delete(KeysOf(items), i)
  {
  }

  lemma {:induction false} RemoveWellFormed(cfg: Config, t: Table, k: Key)
    requires WellFormed(cfg.hash, t)
    ensures WellFormed(cfg.hash, Remove(cfg, t, k))
  {
    hide Bucket;
    var c := t.chains[Bucket(cfg.hash, t.bits, k)];
    if k in c {
      UniqueDelete(c, IndexOf(c, k));
      var ks := KeysOf(t.items);
      UniqueDelete(ks, IndexOf(ks, k));
      KeysDelete(t.items, IndexOf(ks, k));
    }
  }

  /** Adding an absent key to a bucket that stays within its limit. */
  lemma {:induction false} AddWellFormed(hash: Key -> u32, t: Table, k: Key, d: Pointer)
    requires WellFormed(hash, t) && k !in KeysOf(t.items)
    ensures var b := Bucket(hash, t.bits, k);
      WellFormed(hash, Table(t.bits, t.chains[b := [k] + t.chains[b]], t.items + [Item(k, d)]))
  {
    hide Bucket;
    var b := Bucket(hash, t.bits, k);
    var items := t.items + [Item(k, d)];
    assert KeysOf(items) == KeysOf(t.items) + [k];
    var chains := t.chains[b := [k] + t.chains[b]];
    assert forall j, x :: 0 <= j < |chains| && x in chains[j] ==> (x == k && j == b) || x in t.chains[j];
    assert k !in t.chains[b];
    assert Unique(chains[b]);
  }

  /** Evicting is removing the victim first. */
  lemma {:induction false} EvictIsRemove(cfg: Config, t: Table, k: Key, d: Pointer)
    requires WellFormed(cfg.hash, t) && k !in KeysOf(t.items) && Full(cfg, t, k)
    ensures Victim(cfg, t, k) in KeysOf(t.items)
    ensures Place(cfg, t, k, d) == Place(Plain(cfg), Remove(cfg, t, Victim(cfg, t, k)), k, d)
  {
    hide Bucket, KeysOf;
    var b := Bucket(cfg.hash, t.bits, k);
    var c := t.chains[b];
    var v := Victim(cfg, t, k);
    assert v in c && Bucket(cfg.hash, t.bits, v) == b;
    assert IndexOf(c, v) == |c| - 1;
    assert Delete(c, |c| - 1) == c[..|c| - 1];
  }

  lemma {:induction false} PlaceWellFormed(cfg: Config, t: Table, k: Key, d: Pointer)
    requires WellFormed(cfg.hash, t) && k !in KeysOf(t.items)
    ensures WellFormed(cfg.hash, Place(cfg, t, k, d))
  {
    hide Bucket, WellFormed, KeysOf;
    SizeOk(cfg.hash, t);
    if Full(cfg, t, k) {
      EvictIsRemove(cfg, t, k, d);
      var v := Victim(cfg, t, k);
      RemoveWellFormed(cfg, t, v);
      StillAbsent(t.items, v, k);
      AddWellFormed(cfg.hash, Remove(cfg, t, v), k, d);
    } else {
      AddWellFormed(cfg.hash, t, k, d);
    }
  }

  lemma {:induction false} SizeOk(hash: Key -> u32, t: Table)
    requires WellFormed(hash, t)
    ensures |t.chains| == Pow2(t.bits)
  {
  }

  lemma {:induction false} StillAbsent(items: seq<Item>, v: Key, k: Key)
    requires k !in KeysOf(items)
    ensures k !in KeysOf(RemoveItem(items, v))
  {
    var ks := KeysOf(items);
    if v in ks { KeysDelete(items, IndexOf(ks, v)); }
  }

  // ----- rehash -----

  lemma {:induction false} KeysPrefix(items: seq<Item>, n: nat)
    requires n <= |items|
    ensures KeysOf(items[..n]) == KeysOf(items)[..n]
  {
  }

  /** Keys of the bucket in the order of insertion, newest first. */
  function NewestFirst(hash: Key -> u32, bits: nat, b: nat, keys: seq<Key>): seq<Key> {
    if keys == [] then [] else
    var last := keys[|keys| - 1];
    (if Bucket(hash, bits, last) == b then [last] else []) + NewestFirst(hash, bits, b, keys[..|keys| - 1])
  }

  /** The chains hold their keys in insertion order, newest first. */
  ghost predicate InsertionOrder(hash: Key -> u32, t: Table) {
    forall b :: 0 <= b < |t.chains| ==> t.chains[b] == NewestFirst(hash, t.bits, b, KeysOf(t.items))
  }

  /** Reinserting distinct items into an empty table keeps them all, in order. */
  lemma {:induction false} PlaceAllFacts(cfg: Config, n: nat, items: seq<Item>)
    requires Unique(KeysOf(items))
    ensures var r := PlaceAll(Plain(cfg), Empty(n), items);
      WellFormed(cfg.hash, r) && r.items == items && InsertionOrder(cfg.hash, r)
  {
    hide Bucket, WellFormed, KeysOf;
    EmptyWellFormed(cfg.hash, n);
    if items != [] {
      var last := |items| - 1;
      var front := items[..last];
      KeysPrefix(items, last);
      PlaceAllFacts(cfg, n, front);
      var t := PlaceAll(Plain(cfg), Empty(n), front);
      PlaceWellFormed(Plain(cfg), t, items[last].key, items[last].data);
      assert front + [Item(items[last].key, items[last].data)] == items;
      PlaceOrder(Plain(cfg), t, items[last].key, items[last].data);
    }
  }

  /** A new entry in a bucket with room keeps the insertion order. */
  lemma {:induction false} PlaceOrder(cfg: Config, t: Table, k: Key, d: Pointer)
    requires |t.chains| == Pow2(t.bits) && InsertionOrder(cfg.hash, t) && !Full(cfg, t, k)
    ensures InsertionOrder(cfg.hash, Place(cfg, t, k, d))
  {
    hide Bucket;
    var ks := KeysOf(t.items) + [k];
    assert KeysOf(t.items + [Item(k, d)]) == ks;
    assert ks[..|ks| - 1] == KeysOf(t.items);
  }

  /** Rehashing, to any size and also in the middle of an insertion, keeps every entry up to the
      first one with a null data pointer, in the same order; so it keeps the table exactly if no
      entry holds a null pointer. Chains come out newest first. */
  lemma {:induction false} RehashKeeps(cfg: Config, t: Table, n: nat)
    requires WellFormed(cfg.hash, t)
    ensures var r := Rehash(cfg, t, n);
      WellFormed(cfg.hash, r) && r.items == Walked(t.items) && r.bits == BitsFor(n)
      && (r.items == t.items <==> forall i :: 0 <= i < |t.items| ==> t.items[i].data != NULL)
      && InsertionOrder(cfg.hash, r)
  {
    hide Bucket, KeysOf, PlaceAll;
    var w := Walked(t.items);
    KeysPrefix(t.items, |w|);
    PlaceAllFacts(cfg, n, w);
  }

  lemma {:induction false} InsertWellFormed(cfg: Config, t: Table, k: Key, d: Pointer)
    requires WellFormed(cfg.hash, t)
    ensures WellFormed(cfg.hash, Insert(cfg, t, k, d))
  {
    hide Bucket, KeysOf, Rehash, Place, Full;
    var b := Bucket(cfg.hash, t.bits, k);
    if k !in t.chains[b] {
      assert k !in KeysOf(t.items);
      if cfg.autoRehash && |t.items| > 2 * Pow2(t.bits) {
        var r := Rehash(cfg, t, 2 * Pow2(t.bits));
        RehashKeeps(cfg, t, 2 * Pow2(t.bits));
        KeysPrefix(t.items, |r.items|);
        PlaceWellFormed(cfg, r, k, d);
      } else {
        PlaceWellFormed(cfg, t, k, d);
      }
    }
  }
}
