/** Bounded buckets over whole histories: with move-to-front, until the table grows, each bucket is a
    least-recently-used cache; without a heuristic it gives up its oldest insertion. */
module TableHistory {
  import opened Words
  import opened TableSpec
  import opened TableLaws

  datatype Op = GetOp(key: Key) | ReplaceOp(key: Key, data: Pointer) | InsertOp(key: Key, data: Pointer) | RemoveOp(key: Key)

  function Do(cfg: Config, t: Table, op: Op): (r: Table)
    requires |t.chains| == Pow2(t.bits)
    ensures |r.chains| == Pow2(r.bits)
  {
    match op
    case GetOp(k) => Search(cfg, t, k)
    case ReplaceOp(k, d) => Replace(cfg, t, k, d)
    case InsertOp(k, d) => Insert(cfg, t, k, d)
    case RemoveOp(k) => Remove(cfg, t, k)
  }

  lemma {:induction false} DoWellFormed(cfg: Config, t: Table, op: Op)
    requires WellFormed(cfg.hash, t)
    ensures WellFormed(cfg.hash, Do(cfg, t, op))
  {
    hide WellFormed, Search, Replace, Insert, Remove;
    SizeOk(cfg.hash, t);
    match op
    case GetOp(k) => SearchWellFormed(cfg, t, k);
    case ReplaceOp(k, d) => ReplaceWellFormed(cfg, t, k, d);
    case InsertOp(k, d) => InsertWellFormed(cfg, t, k, d);
    case RemoveOp(k) => RemoveWellFormed(cfg, t, k);
  }

  /** A new table of n buckets after the given calls. */
  function Play(cfg: Config, n: nat, ops: seq<Op>): (t: Table)
    ensures WellFormed(cfg.hash, t)
  {
    if ops == [] then
      EmptyWellFormed(cfg.hash, n);
      Empty(n)
    else
      var last := |ops| - 1;
      var t := Play(cfg, n, ops[..last]);
      DoWellFormed(cfg, t, ops[last]);
      Do(cfg, t, ops[last])
  }

  // ----- growth -----

  predicate Grows(cfg: Config, t: Table, op: Op) { op.InsertOp? && MustGrow(cfg, t, op.key) }

  ghost predicate NeverGrows(cfg: Config, n: nat, ops: seq<Op>) {
    forall i :: 0 <= i < |ops| ==> !Grows(cfg, Play(cfg, n, ops[..i]), ops[i])
  }

  lemma {:induction false} InsertPlaces(cfg: Config, t: Table, k: Key, d: Pointer)
    requires WellFormed(cfg.hash, t) && k !in KeysOf(t.items)
    ensures var s := Grown(cfg, t, k);
      WellFormed(cfg.hash, s) && k !in KeysOf(s.items) && Insert(cfg, t, k, d) == Place(cfg, s, k, d)
  {
    hide WellFormed, Bucket, Rehash, Place, KeysOf;
    NotInChain(cfg.hash, t, k);
    RehashKeeps(cfg, t, 2 * Pow2(t.bits));
    KeysPrefix(t.items, |Walked(t.items)|);
  }

  lemma {:induction false} SameBits(cfg: Config, t: Table, op: Op)
    requires WellFormed(cfg.hash, t) && !Grows(cfg, t, op)
    ensures |t.chains| == Pow2(t.bits) && Do(cfg, t, op).bits == t.bits
  {
    hide WellFormed, Bucket, KeysOf, Rehash;
    SizeOk(cfg.hash, t);
    NotInChain(cfg.hash, t, op.key);
  }

  lemma {:induction false} NeverGrowsFront(cfg: Config, n: nat, ops: seq<Op>)
    requires ops != [] && NeverGrows(cfg, n, ops)
    ensures NeverGrows(cfg, n, ops[..|ops| - 1]) && !Grows(cfg, Play(cfg, n, ops[..|ops| - 1]), ops[|ops| - 1])
  {
    hide Play, Grows, MustGrow;
    var front := ops[..|ops| - 1];
    forall i | 0 <= i < |front| ensures !Grows(cfg, Play(cfg, n, front[..i]), front[i]) {
      assert front[..i] == ops[..i] && front[i] == ops[i];
    }
  }

  // ----- recency, read off the history alone -----

  /** The call touches k successfully: a get or replace that finds it, an insert that adds it. */
  predicate Touches(t: Table, op: Op, k: Key) {
    op.key == k && !op.RemoveOp? && (op.InsertOp? <==> k !in KeysOf(t.items))
  }

  /** Number of the last successful touch of k, from 1; 0 if there was none. */
  function LastTouch(cfg: Config, n: nat, ops: seq<Op>, k: Key): (i: nat)
    ensures i <= |ops|
  {
    if ops == [] then 0 else
    var last := |ops| - 1;
    if Touches(Play(cfg, n, ops[..last]), ops[last], k) then |ops| else LastTouch(cfg, n, ops[..last], k)
  }

  /** Later entries of a chain were touched earlier. */
  ghost predicate ByRecency(cfg: Config, n: nat, ops: seq<Op>, c: seq<Key>) {
    forall i, j :: 0 <= i < j < |c| ==> LastTouch(cfg, n, ops, c[i]) > LastTouch(cfg, n, ops, c[j])
  }

  /** A chain that lost entries and put the touched key first. */
  ghost predicate FrontOf(c: seq<Key>, r: seq<Key>, k: Key) {
    |r| > 0 && r[0] == k && k !in r[1..] && Subchain(c, r[1..])
  }

  /** r is c with some entries left out. */
  ghost predicate Subchain(c: seq<Key>, r: seq<Key>) {
    exists at: seq<nat> :: |at| == |r| && (forall i :: 0 <= i < |r| ==> at[i] < |c| && r[i] == c[at[i]])
      && (forall i, j :: 0 <= i < j < |r| ==> at[i] < at[j])
  }

  lemma {:induction false} SubchainSame(c: seq<Key>)
    ensures Subchain(c, c)
  {
    var at: seq<nat> := seq(|c|, i => i);
    assert forall i :: 0 <= i < |c| ==> at[i] < |c| && c[i] == c[at[i]];
  }

  lemma {:induction false} SubchainDelete(c: seq<Key>, i: nat)
    requires i < |c|
    ensures Subchain(c, Delete(c, i))
  {
    var r := Delete(c, i);
    var at: seq<nat> := seq(|r|, k => if k < i then k else k + 1);
    assert forall k :: 0 <= k < |r| ==> at[k] < |c| && r[k] == c[at[k]];
  }

  /** Calls only change the chain of their key. */
  lemma {:induction false} OtherChains(cfg: Config, t: Table, op: Op, b: nat)
    requires WellFormed(cfg.hash, t) && !Grows(cfg, t, op) && b < |t.chains| && b != Bucket(cfg.hash, t.bits, op.key)
    ensures |t.chains| == Pow2(t.bits) == |Do(cfg, t, op).chains|
    ensures Do(cfg, t, op).chains[b] == t.chains[b] && op.key !in t.chains[b]
  {
    hide Bucket, KeysOf, Searched, IndexOf, RemoveItem, Full, Rehash;
    NotInChain(cfg.hash, t, op.key);
  }

  lemma {:induction false} FrontSame(k: Key, c: seq<Key>, r: seq<Key>)
    requires k !in r && Subchain(c, r)
    ensures FrontOf(c, [k] + r, k)
  {
    hide Subchain;
    assert ([k] + r)[1..] == r;
  }

  lemma {:induction false} MovedToFront(c: seq<Key>, k: Key)
    requires Unique(c) && k in c
    ensures FrontOf(c, Searched(MoveToFront, c, k), k)
  {
    hide Subchain, FrontOf, IndexOf;
    UniqueDelete(c, IndexOf(c, k));
    SubchainDelete(c, IndexOf(c, k));
    FrontSame(k, c, Delete(c, IndexOf(c, k)));
  }

  lemma {:induction false} PlacedFirst(cfg: Config, t: Table, k: Key, d: Pointer)
    requires WellFormed(cfg.hash, t) && k !in KeysOf(t.items)
    ensures var b := Bucket(cfg.hash, t.bits, k); FrontOf(t.chains[b], Place(cfg, t, k, d).chains[b], k)
  {
    hide Subchain, FrontOf, IndexOf, Bucket, WellFormed, RemoveItem, KeysOf;
    NotInChain(cfg.hash, t, k);
    SizeOk(cfg.hash, t);
    var c := t.chains[Bucket(cfg.hash, t.bits, k)];
    if Full(cfg, t, k) {
      SubchainDelete(c, |c| - 1);
      assert Delete(c, |c| - 1) == c[..|c| - 1];
      FrontSame(k, c, c[..|c| - 1]);
    } else {
      SubchainSame(c);
      FrontSame(k, c, c);
    }
  }

  lemma {:induction false} RemovedFrom(cfg: Config, t: Table, k: Key)
    requires WellFormed(cfg.hash, t)
    ensures var b := Bucket(cfg.hash, t.bits, k); Subchain(t.chains[b], Remove(cfg, t, k).chains[b])
  {
    hide Subchain, IndexOf, Bucket, RemoveItem, KeysOf;
    var c := t.chains[Bucket(cfg.hash, t.bits, k)];
    SubchainSame(c);
    if k in c { SubchainDelete(c, IndexOf(c, k)); }
  }

  lemma {:induction false} ChainUnique(hash: Key -> u32, t: Table, b: nat)
    requires WellFormed(hash, t) && b < |t.chains|
    ensures Unique(t.chains[b]) && |t.chains| == Pow2(t.bits)
  {
    hide Bucket, KeysOf, Unique;
  }

  /** What one call does to the chains under move-to-front: entries only ever leave, except that a
      touched key comes first. */
  lemma {:induction false} ChainStep(cfg: Config, t: Table, op: Op, b: nat)
    requires WellFormed(cfg.hash, t) && cfg.heuristics == MoveToFront && !Grows(cfg, t, op) && b < |t.chains|
    ensures var r := Do(cfg, t, op);
      |r.chains| == |t.chains| &&
      if Touches(t, op, op.key) && b == Bucket(cfg.hash, t.bits, op.key) then FrontOf(t.chains[b], r.chains[b], op.key)
      else Subchain(t.chains[b], r.chains[b]) && (Touches(t, op, op.key) ==> op.key !in r.chains[b])
  {
    hide Bucket, KeysOf, Subchain, Unique, WellFormed, FrontOf, Place, Remove, Searched, IndexOf, Rehash;
    var c := t.chains[b];
    SubchainSame(c);
    ChainUnique(cfg.hash, t, b);
    var k := op.key;
    SameBits(cfg, t, op);
    if b != Bucket(cfg.hash, t.bits, k) {
      OtherChains(cfg, t, op, b);
    } else {
      NotInChain(cfg.hash, t, k);
      RemovedFrom(cfg, t, k);
      if k in c {
        MovedToFront(c, k);
      } else if op.InsertOp? {
        PlacedFirst(cfg, t, k, op.data);
      } else {
        assert Searched(cfg.heuristics, c, k) == c by { SearchMiss(cfg.heuristics, c, k); }
      }
    }
  }

  lemma {:induction false} SearchMiss(h: Heuristics, c: seq<Key>, k: Key)
    ensures k !in c ==> Searched(h, c, k) == c
  {
  }

  lemma {:induction false} TouchStep(cfg: Config, n: nat, ops: seq<Op>, k: Key)
    requires ops != []
    ensures var last := |ops| - 1;
      LastTouch(cfg, n, ops, k) == if Touches(Play(cfg, n, ops[..last]), ops[last], k) then |ops|
                                   else LastTouch(cfg, n, ops[..last], k)
  {
  }

  /** Recency order survives losing entries of untouched chains. */
  lemma {:induction false} SubchainOrder(cfg: Config, n: nat, ops: seq<Op>, c: seq<Key>, r: seq<Key>)
    requires ops != [] && ByRecency(cfg, n, ops[..|ops| - 1], c) && Subchain(c, r)
    requires forall i :: 0 <= i < |r| ==> LastTouch(cfg, n, ops, r[i]) == LastTouch(cfg, n, ops[..|ops| - 1], r[i])
    ensures ByRecency(cfg, n, ops, r)
  {
    hide LastTouch;
    var front := ops[..|ops| - 1];
    var at: seq<nat> :| |at| == |r| && (forall i :: 0 <= i < |r| ==> at[i] < |c| && r[i] == c[at[i]])
      && (forall i, j :: 0 <= i < j < |r| ==> at[i] < at[j]);
    forall i, j | 0 <= i < j < |r| ensures LastTouch(cfg, n, ops, r[i]) > LastTouch(cfg, n, ops, r[j]) {
      assert LastTouch(cfg, n, front, c[at[i]]) > LastTouch(cfg, n, front, c[at[j]]);
    }
  }

  lemma {:induction false} ChainRecency(cfg: Config, n: nat, ops: seq<Op>, b: nat)
    requires cfg.heuristics == MoveToFront && ops != [] && !Grows(cfg, Play(cfg, n, ops[..|ops| - 1]), ops[|ops| - 1])
    requires var t := Play(cfg, n, ops[..|ops| - 1]); b < |t.chains| && ByRecency(cfg, n, ops[..|ops| - 1], t.chains[b])
    ensures var r := Play(cfg, n, ops); b < |r.chains| && ByRecency(cfg, n, ops, r.chains[b])
  {
    hide Bucket, KeysOf, WellFormed, LastTouch, Do, ByRecency, Subchain, Grows, MustGrow;
    var last := |ops| - 1;
    var t, op := Play(cfg, n, ops[..last]), ops[last];
    SizeOk(cfg.hash, t);
    ChainStep(cfg, t, op, b);
    var c, r := t.chains[b], Do(cfg, t, op).chains[b];
    forall k ensures LastTouch(cfg, n, ops, k) == if Touches(t, op, k) then |ops| else LastTouch(cfg, n, ops[..last], k) {
      TouchStep(cfg, n, ops, k);
    }
    if Touches(t, op, op.key) && b == Bucket(cfg.hash, t.bits, op.key) {
      SubchainOrder(cfg, n, ops, c, r[1..]);
      FrontOrder(cfg, n, ops, r);
    } else {
      SubchainOrder(cfg, n, ops, c, r);
    }
  }

  lemma {:induction false} FrontOrder(cfg: Config, n: nat, ops: seq<Op>, r: seq<Key>)
    requires ops != [] && |r| > 0 && ByRecency(cfg, n, ops, r[1..]) && LastTouch(cfg, n, ops, r[0]) == |ops|
    requires forall i :: 0 < i < |r| ==> LastTouch(cfg, n, ops, r[i]) <= |ops| - 1
    ensures ByRecency(cfg, n, ops, r)
  {
    hide LastTouch;
    var tail := r[1..];
    forall i, j | 0 <= i < j < |r| ensures LastTouch(cfg, n, ops, r[i]) > LastTouch(cfg, n, ops, r[j]) {
      if i > 0 { assert tail[i - 1] == r[i] && tail[j - 1] == r[j]; }
    }
  }

  /** All chains are in order of last successful touch, most recent first. */
  ghost predicate KeepsRecency(cfg: Config, n: nat, ops: seq<Op>) {
    var t := Play(cfg, n, ops);
    forall b :: 0 <= b < |t.chains| ==> ByRecency(cfg, n, ops, t.chains[b])
  }

  /** After any history in which the table did not grow, the chains are in order of last successful
      touch. */
  lemma {:induction false} ChainsAreByRecency(cfg: Config, n: nat, ops: seq<Op>)
    requires cfg.heuristics == MoveToFront && NeverGrows(cfg, n, ops)
    ensures KeepsRecency(cfg, n, ops)
    decreases |ops|
  {
    hide WellFormed, LastTouch, Do, NeverGrows, Grows, MustGrow;
    if ops != [] {
      var front := ops[..|ops| - 1];
      NeverGrowsFront(cfg, n, ops);
      SameBits(cfg, Play(cfg, n, front), ops[|ops| - 1]);
      ChainsAreByRecency(cfg, n, front);
      forall b | 0 <= b < |Play(cfg, n, ops).chains| ensures ByRecency(cfg, n, ops, Play(cfg, n, ops).chains[b]) {
        ChainRecency(cfg, n, ops, b);
      }
    }
  }

  /** Least recently used: as long as the table has not grown, the entry a full bucket gives up was
      touched before every other entry of that bucket, and it is gone afterwards. */
  lemma {:induction false} EvictsLeastRecent(cfg: Config, n: nat, ops: seq<Op>, k: Key, d: Pointer)
    requires cfg.heuristics == MoveToFront && NeverGrows(cfg, n, ops + [InsertOp(k, d)])
    requires var t := Play(cfg, n, ops); k !in KeysOf(t.items) && Full(cfg, t, k)
    ensures var t := Play(cfg, n, ops);
      var v := Victim(cfg, t, k);
      var r := Do(cfg, t, InsertOp(k, d));
      v in KeysOf(t.items) && v !in KeysOf(r.items) && k in KeysOf(r.items) &&
      forall x :: x in KeysOf(t.items) && x != v && Bucket(cfg.hash, t.bits, x) == Bucket(cfg.hash, t.bits, k) ==>
        LastTouch(cfg, n, ops, v) < LastTouch(cfg, n, ops, x) && x in KeysOf(r.items)
  {
    hide Play, LastTouch, Bucket, KeysOf, NeverGrows, Place;
    var t := Play(cfg, n, ops);
    var b := Bucket(cfg.hash, t.bits, k);
    var c := t.chains[b];
    assert (ops + [InsertOp(k, d)])[..|ops|] == ops;
    NeverGrowsFront(cfg, n, ops + [InsertOp(k, d)]);
    ChainsAreByRecency(cfg, n, ops);
    InsertPlaces(cfg, t, k, d);
    VictimLeaves(cfg, t, k, d);
    forall x | x in KeysOf(t.items) && x != Victim(cfg, t, k) && Bucket(cfg.hash, t.bits, x) == b
      ensures LastTouch(cfg, n, ops, Victim(cfg, t, k)) < LastTouch(cfg, n, ops, x)
    {
      var i :| 0 <= i < |c| && c[i] == x;
    }
  }

  /** An insertion into a full bucket trades the victim for the new key. */
  lemma {:induction false} VictimLeaves(cfg: Config, t: Table, k: Key, d: Pointer)
    requires WellFormed(cfg.hash, t) && k !in KeysOf(t.items) && Full(cfg, t, k)
    ensures var v := Victim(cfg, t, k);
      v in KeysOf(t.items) && v != k &&
      forall x :: x in KeysOf(Place(cfg, t, k, d).items) <==> x == k || (x in KeysOf(t.items) && x != v)
  {
    hide Bucket, IndexOf, WellFormed;
    SizeOk(cfg.hash, t);
    var v := Victim(cfg, t, k);
    NotInChain(cfg.hash, t, k);
    EvictIsRemove(cfg, t, k, d);
    var ks := KeysOf(t.items);
    UniqueItems(cfg.hash, t);
    UniqueDelete(ks, IndexOf(ks, v));
    KeysDelete(t.items, IndexOf(ks, v));
    assert KeysOf(RemoveItem(t.items, v) + [Item(k, d)]) == Delete(ks, IndexOf(ks, v)) + [k];
  }

  lemma {:induction false} UniqueItems(hash: Key -> u32, t: Table)
    requires WellFormed(hash, t)
    ensures Unique(KeysOf(t.items))
  {
  }

  // ----- without a heuristic -----

  lemma {:induction false} NewestKeys(hash: Key -> u32, bits: nat, b: nat, keys: seq<Key>, k: Key)
    ensures k in NewestFirst(hash, bits, b, keys) <==> k in keys && Bucket(hash, bits, k) == b
    decreases |keys|
  {
    hide Bucket;
    if keys != [] {
      var last := |keys| - 1;
      NewestKeys(hash, bits, b, keys[..last], k);
      assert keys == keys[..last] + [keys[last]];
    }
  }

  function Without(c: seq<Key>, k: Key): seq<Key> {
    if k in c then Delete(c, IndexOf(c, k)) else c
  }

  lemma {:induction false} WithoutCons(x: Key, c: seq<Key>, k: Key)
    requires k != x
    ensures Without([x] + c, k) == [x] + Without(c, k)
  {
    hide IndexOf;
    IndexCons(x, c, k);
    if k in c {
      assert Delete([x] + c, 1 + IndexOf(c, k)) == [x] + Delete(c, IndexOf(c, k));
    }
  }

  lemma {:induction false} IndexCons(x: Key, c: seq<Key>, k: Key)
    requires k != x
    ensures IndexOf([x] + c, k) == 1 + IndexOf(c, k)
  {
    assert ([x] + c)[1..] == c && ([x] + c)[0] == x;
  }

  lemma {:induction false} WithoutHead(x: Key, c: seq<Key>)
    ensures Without([x] + c, x) == c
  {
    assert IndexOf([x] + c, x) == 0;
    assert ([x] + c)[0] == x;
    assert Delete([x] + c, 0) == c;
  }

  lemma {:induction false} NewestSnoc(hash: Key -> u32, bits: nat, b: nat, keys: seq<Key>, x: Key)
    ensures NewestFirst(hash, bits, b, keys + [x])
         == (if Bucket(hash, bits, x) == b then [x] else []) + NewestFirst(hash, bits, b, keys)
  {
    hide Bucket;
    assert (keys + [x])[..|keys + [x]| - 1] == keys;
  }

  /** Leaving an item out leaves its key out of its chain. */
  lemma {:induction false} NewestDelete(hash: Key -> u32, bits: nat, b: nat, keys: seq<Key>, i: nat)
    requires i < |keys| && Unique(keys)
    ensures NewestFirst(hash, bits, b, Delete(keys, i)) == Without(NewestFirst(hash, bits, b, keys), keys[i])
    decreases |keys|
  {
    hide Bucket, Without, NewestFirst;
    var last := |keys| - 1;
    var front := keys[..last];
    var f := NewestFirst(hash, bits, b, front);
    assert keys == front + [keys[last]];
    NewestSnoc(hash, bits, b, front, keys[last]);
    assert [] + f == f;
    if i == last {
      assert Delete(keys, i) == front;
      WithoutHead(keys[last], f);
      NewestKeys(hash, bits, b, front, keys[last]);
      WithoutNone(f, keys[last]);
    } else {
      assert Delete(keys, i) == Delete(front, i) + [keys[last]];
      NewestDelete(hash, bits, b, front, i);
      NewestSnoc(hash, bits, b, Delete(front, i), keys[last]);
      WithoutCons(keys[last], f, keys[i]);
      assert [] + Without(f, keys[i]) == Without(f, keys[i]);
    }
  }

  lemma {:induction false} WithoutNone(c: seq<Key>, k: Key)
    ensures k !in c ==> Without(c, k) == c
  {
  }

  lemma {:induction false} RemoveOrder(cfg: Config, t: Table, k: Key)
    requires WellFormed(cfg.hash, t) && InsertionOrder(cfg.hash, t)
    ensures InsertionOrder(cfg.hash, Remove(cfg, t, k))
  {
    hide Bucket, IndexOf, NewestFirst;
    NotInChain(cfg.hash, t, k);
    var ks := KeysOf(t.items);
    var r := Remove(cfg, t, k);
    if k in ks {
      var i := IndexOf(ks, k);
      KeysDelete(t.items, i);
      forall b | 0 <= b < |r.chains| ensures r.chains[b] == NewestFirst(cfg.hash, t.bits, b, Delete(ks, i)) {
        NewestDelete(cfg.hash, t.bits, b, ks, i);
        NewestKeys(cfg.hash, t.bits, b, ks, k);
      }
    }
  }

  lemma {:induction false} DoOrder(cfg: Config, t: Table, op: Op)
    requires WellFormed(cfg.hash, t) && InsertionOrder(cfg.hash, t) && cfg.heuristics == NoHeuristics
    ensures InsertionOrder(cfg.hash, Do(cfg, t, op))
  {
    hide Bucket, NewestFirst, KeysOf, Rehash, Full;
    match op
    case GetOp(k) => assert Search(cfg, t, k).chains == t.chains;
    case ReplaceOp(k, d) =>
      ReplaceWellFormed(cfg, t, k, d);
      assert Replace(cfg, t, k, d).chains == t.chains;
    case RemoveOp(k) => RemoveOrder(cfg, t, k);
    case InsertOp(k, d) =>
      NotInChain(cfg.hash, t, k);
      var n := 2 * Pow2(t.bits);
      RehashKeeps(cfg, t, n);
      KeysPrefix(t.items, |Walked(t.items)|);
      if k !in KeysOf(t.items) {
        InsertOrder(cfg, t, k, d);
        InsertOrder(cfg, Rehash(cfg, t, n), k, d);
      }
  }

  lemma {:induction false} InsertOrder(cfg: Config, t: Table, k: Key, d: Pointer)
    requires WellFormed(cfg.hash, t) && InsertionOrder(cfg.hash, t) && k !in KeysOf(t.items)
    ensures InsertionOrder(cfg.hash, Place(cfg, t, k, d))
  {
    hide InsertionOrder, WellFormed, Bucket, KeysOf, Remove, Place;
    SizeOk(cfg.hash, t);
    if Full(cfg, t, k) {
      var v := Victim(cfg, t, k);
      EvictIsRemove(cfg, t, k, d);
      RemoveWellFormed(cfg, t, v);
      RemoveOrder(cfg, t, v);
      SizeOk(cfg.hash, Remove(cfg, t, v));
      PlaceOrder(Plain(cfg), Remove(cfg, t, v), k, d);
    } else {
      PlaceOrder(cfg, t, k, d);
    }
  }

  /** Without a heuristic every history leaves the chains in insertion order, rehashes included. */
  lemma {:induction false} ChainsInInsertionOrder(cfg: Config, n: nat, ops: seq<Op>)
    requires cfg.heuristics == NoHeuristics
    ensures InsertionOrder(cfg.hash, Play(cfg, n, ops))
  {
    hide InsertionOrder, WellFormed, Do;
    if ops == [] {
      EmptyOrder(cfg.hash, n);
    } else {
      ChainsInInsertionOrder(cfg, n, ops[..|ops| - 1]);
      DoOrder(cfg, Play(cfg, n, ops[..|ops| - 1]), ops[|ops| - 1]);
    }
  }

  lemma {:induction false} EmptyOrder(hash: Key -> u32, n: nat)
    ensures InsertionOrder(hash, Empty(n))
  {
  }

  lemma {:induction false} IndexInFront(keys: seq<Key>, k: Key)
    requires keys != [] && Unique(keys)
    ensures k in keys[..|keys| - 1] ==> IndexOf(keys, k) == IndexOf(keys[..|keys| - 1], k) < |keys| - 1
    ensures k == keys[|keys| - 1] ==> IndexOf(keys, k) == |keys| - 1
  {
    hide IndexOf;
  }

  /** The last key of a chain in insertion order is the bucket's oldest item. */
  lemma {:induction false} LastIsOldest(hash: Key -> u32, bits: nat, b: nat, keys: seq<Key>, x: Key)
    requires Unique(keys) && x in keys && Bucket(hash, bits, x) == b
    ensures var c := NewestFirst(hash, bits, b, keys);
      |c| > 0 && c[|c| - 1] in keys && IndexOf(keys, c[|c| - 1]) <= IndexOf(keys, x)
    decreases |keys|
  {
    hide Bucket, IndexOf;
    var last := |keys| - 1;
    var front := keys[..last];
    var f := NewestFirst(hash, bits, b, front);
    assert keys == front + [keys[last]];
    IndexInFront(keys, x);
    if f == [] {
      NewestKeys(hash, bits, b, front, x);
      assert x == keys[last];
    } else {
      var y := f[|f| - 1];
      NewestKeys(hash, bits, b, front, y);
      LastIsOldest(hash, bits, b, front, if x in front then x else y);
      IndexInFront(keys, y);
    }
  }

  lemma {:induction false} VictimInBucket(cfg: Config, t: Table, k: Key)
    requires WellFormed(cfg.hash, t) && Full(cfg, t, k)
    ensures Bucket(cfg.hash, t.bits, Victim(cfg, t, k)) == Bucket(cfg.hash, t.bits, k)
  {
    hide Bucket, KeysOf;
  }

  lemma {:induction false} VictimIsOldest(cfg: Config, t: Table, k: Key, x: Key)
    requires WellFormed(cfg.hash, t) && InsertionOrder(cfg.hash, t) && Full(cfg, t, k)
    requires x in KeysOf(t.items) && Bucket(cfg.hash, t.bits, x) == Bucket(cfg.hash, t.bits, k)
    ensures IndexOf(KeysOf(t.items), Victim(cfg, t, k)) <= IndexOf(KeysOf(t.items), x)
  {
    hide IndexOf, Bucket, KeysOf, NewestFirst, WellFormed;
    SizeOk(cfg.hash, t);
    UniqueItems(cfg.hash, t);
    LastIsOldest(cfg.hash, t.bits, Bucket(cfg.hash, t.bits, k), KeysOf(t.items), x);
  }

  /** Without a heuristic a full bucket gives up its oldest insertion, in the table that the
      insertion has grown if it grows it; nothing else is lost. */
  lemma {:induction false} EvictsOldest(cfg: Config, n: nat, ops: seq<Op>, k: Key, d: Pointer)
    requires cfg.heuristics == NoHeuristics && k !in KeysOf(Play(cfg, n, ops).items)
    ensures var t := Play(cfg, n, ops);
      var s := Grown(cfg, t, k);
      var r := Do(cfg, t, InsertOp(k, d));
      var ks := KeysOf(s.items);
      |s.chains| == Pow2(s.bits) &&
      if Full(cfg, s, k) then
        var v := Victim(cfg, s, k);
        v in ks && Bucket(cfg.hash, s.bits, v) == Bucket(cfg.hash, s.bits, k) &&
        (forall x :: x in KeysOf(r.items) <==> x == k || (x in ks && x != v)) &&
        (forall x :: x in ks && Bucket(cfg.hash, s.bits, x) == Bucket(cfg.hash, s.bits, k) ==> IndexOf(ks, v) <= IndexOf(ks, x))
      else
        r.items == s.items + [Item(k, d)]
  {
    hide Play, IndexOf, Bucket, KeysOf, InsertionOrder, WellFormed, Rehash, Grows, Full, Victim, Place;
    var t := Play(cfg, n, ops);
    var s := Grown(cfg, t, k);
    InsertPlaces(cfg, t, k, d);
    SizeOk(cfg.hash, s);
    ChainsInInsertionOrder(cfg, n, ops);
    RehashKeeps(cfg, t, 2 * Pow2(t.bits));
    if Full(cfg, s, k) {
      VictimLeaves(cfg, s, k, d);
      VictimInBucket(cfg, s, k);
      forall x | x in KeysOf(s.items) && Bucket(cfg.hash, s.bits, x) == Bucket(cfg.hash, s.bits, k)
        ensures IndexOf(KeysOf(s.items), Victim(cfg, s, k)) <= IndexOf(KeysOf(s.items), x)
      {
        VictimIsOldest(cfg, s, k, x);
      }
    } else {
      PlaceRoom(cfg, s, k, d);
    }
  }

  lemma {:induction false} PlaceRoom(cfg: Config, t: Table, k: Key, d: Pointer)
    requires |t.chains| == Pow2(t.bits) && !Full(cfg, t, k)
    ensures Place(cfg, t, k, d).items == t.items + [Item(k, d)]
  {
  }

  // ----- the limit holds -----

  ghost predicate Within(limit: nat, t: Table) {
    limit != 0 ==> forall b :: 0 <= b < |t.chains| ==> |t.chains[b]| <= limit
  }

  lemma {:induction false} TouchedLen(h: Heuristics, c: seq<Key>, k: Key)
    ensures |Searched(h, c, k)| == |c|
  {
  }

  lemma {:induction false} NoLonger(c: seq<Key>, r: seq<Key>)
    requires Unique(r) && forall k :: k in r ==> k in c
    ensures |r| <= |c|
  {
    UniqueCount(r);
    CountAtMost(c);
    var rs, cs := set k | k in r, set k | k in c;
    assert cs == rs + (cs - rs);
    CountDisjoint(rs, cs - rs);
  }

  lemma {:induction false} CountAtMost(c: seq<Key>)
    ensures |set k | k in c| <= |c|
  {
    if c != [] {
      var last := |c| - 1;
      CountAtMost(c[..last]);
      assert (set k | k in c) == (set k | k in c[..last]) + {c[last]};
    }
  }

  lemma {:induction false} DoubleBits(bits: nat)
    ensures BitsFor(2 * Pow2(bits)) == bits + 1
  {
    hide BitsFrom;
    var r := BitsFor(2 * Pow2(bits));
    if r > bits + 1 { Pow2Mono(bits + 1, r - 1); }
    if r < bits + 1 { Pow2Mono(r, bits); }
  }

  lemma {:induction false} ModOfDouble(x: nat, p: nat)
    requires p > 0
    ensures (x % (2 * p)) % p == x % p
  {
    var q := x / (2 * p);
    var r := x % (2 * p);
    assert x == (2 * q) * p + r;
    var e := r / p;
    assert r == e * p + r % p;
    assert (2 * q) * p + e * p == (2 * q + e) * p;
    DivModUnique(x, p, 2 * q + e, r % p);
  }

  /** Twice the buckets split every bucket in two. */
  lemma {:induction false} BucketSplits(hash: Key -> u32, bits: nat, k: Key)
    ensures Bucket(hash, bits, k) == Bucket(hash, bits + 1, k) % Pow2(bits)
  {
    BucketIsMod(hash, bits, k);
    BucketIsMod(hash, bits + 1, k);
    ModOfDouble(hash(k), Pow2(bits));
  }

  /** No bucket of a table that grew holds more than the bucket it was split from. */
  lemma {:induction false} SplitChain(hash: Key -> u32, t: Table, r: Table, b: nat)
    requires WellFormed(hash, t) && WellFormed(hash, r) && r.bits == t.bits + 1 && b < |r.chains|
    requires forall k :: k in KeysOf(r.items) ==> k in KeysOf(t.items)
    ensures var a := b % Pow2(t.bits); a < |t.chains| && |r.chains[b]| <= |t.chains[a]|
  {
    hide Bucket, KeysOf, Pow2;
    forall k | k in r.chains[b] ensures k in t.chains[b % Pow2(t.bits)] {
      BucketSplits(hash, t.bits, k);
    }
    NoLonger(t.chains[b % Pow2(t.bits)], r.chains[b]);
  }

  lemma {:induction false} GrowthWithin(cfg: Config, t: Table)
    requires WellFormed(cfg.hash, t) && Within(cfg.limit, t)
    ensures Within(cfg.limit, Rehash(cfg, t, 2 * Pow2(t.bits)))
  {
    hide Bucket, KeysOf, Rehash, Pow2, WellFormed, BitsFor;
    var r := Rehash(cfg, t, 2 * Pow2(t.bits));
    RehashKeeps(cfg, t, 2 * Pow2(t.bits));
    DoubleBits(t.bits);
    KeysPrefix(t.items, |Walked(t.items)|);
    forall b | 0 <= b < |r.chains| ensures cfg.limit != 0 ==> |r.chains[b]| <= cfg.limit {
      SplitChain(cfg.hash, t, r, b);
    }
  }

  lemma {:induction false} PlaceWithin(cfg: Config, t: Table, k: Key, d: Pointer)
    requires |t.chains| == Pow2(t.bits) && Within(cfg.limit, t)
    ensures Within(cfg.limit, Place(cfg, t, k, d))
  {
    hide Bucket, RemoveItem;
  }

  /** A table bounded from the start never holds more than the limit in one bucket, however often
      it grows. */
  lemma {:induction false} LimitHolds(cfg: Config, n: nat, ops: seq<Op>)
    ensures Within(cfg.limit, Play(cfg, n, ops))
  {
    hide WellFormed, Bucket, KeysOf, RemoveItem, Searched, IndexOf, Place, Rehash;
    if ops != [] {
      var t, op := Play(cfg, n, ops[..|ops| - 1]), ops[|ops| - 1];
      LimitHolds(cfg, n, ops[..|ops| - 1]);
      SizeOk(cfg.hash, t);
      TouchedLen(cfg.heuristics, t.chains[Bucket(cfg.hash, t.bits, op.key)], op.key);
      if op.InsertOp? {
        var s := Rehash(cfg, t, 2 * Pow2(t.bits));
        GrowthWithin(cfg, t);
        PlaceWithin(cfg, t, op.key, op.data);
        PlaceWithin(cfg, s, op.key, op.data);
      }
    }
  }

  // ----- when recency order is kept -----

  lemma {:induction false} TotalWithin(chains: seq<seq<Key>>, limit: nat)
    requires forall b :: 0 <= b < |chains| ==> |chains[b]| <= limit
    ensures Total(chains) <= limit * |chains|
  {
    if chains != [] {
      TotalWithin(chains[..|chains| - 1], limit);
      assert limit * |chains| == limit * (|chains| - 1) + limit;
    }
  }

  /** Buckets of one or two entries never fill a table enough for it to grow. */
  lemma {:induction false} SmallLimitNeverGrows(cfg: Config, n: nat, ops: seq<Op>)
    requires cfg.limit == 1 || cfg.limit == 2
    ensures NeverGrows(cfg, n, ops)
  {
    hide Play, WellFormed, Total, KeysOf;
    forall i | 0 <= i < |ops| ensures !Grows(cfg, Play(cfg, n, ops[..i]), ops[i]) {
      var t := Play(cfg, n, ops[..i]);
      LimitHolds(cfg, n, ops[..i]);
      SizeOk(cfg.hash, t);
      TotalWithin(t.chains, 2);
      CountsAddUp(cfg.hash, t);
    }
  }

  const A: Key := [0]
  const B: Key := [1]
  const C: Key := [2]
  const D: Key := [3]

  function Fill(x: Key): seq<Op> {
    [InsertOp(A, 1), InsertOp(B, 1), InsertOp(C, 1), GetOp(x)]
  }

  lemma {:induction false} PlayStep(cfg: Config, n: nat, ops: seq<Op>, i: nat)
    requires i < |ops|
    ensures var t := Play(cfg, n, ops[..i]); |t.chains| == Pow2(t.bits) && Play(cfg, n, ops[..i + 1]) == Do(cfg, t, ops[i])
  {
    hide Do, Bucket, KeysOf;
    assert ops[..i + 1][..i] == ops[..i];
  }

  lemma {:induction false} OneBucket(cfg: Config, t: Table, k: Key, d: Pointer)
    requires t.bits == 0 && |t.chains| == 1 && k !in t.chains[0] && |t.items| <= 2 && (cfg.limit == 0 || cfg.limit > |t.chains[0]|)
    ensures Do(cfg, t, InsertOp(k, d)) == Table(0, [[k] + t.chains[0]], t.items + [Item(k, d)])
  {
    hide Bucket, Rehash, KeysOf;
    assert Pow2(0) == 1;
  }

  /** Three entries in a table of one bucket, and then one of them asked for. */
  lemma {:induction false} Filled(cfg: Config, x: Key)
    requires cfg.heuristics == MoveToFront && (cfg.limit == 0 || cfg.limit > 2) && x in [C, B, A]
    ensures var items := [Item(A, 1), Item(B, 1), Item(C, 1)];
      Play(cfg, 1, Fill(x)[..3]) == Table(0, [[C, B, A]], items) &&
      Play(cfg, 1, Fill(x)) == Table(0, [Searched(MoveToFront, [C, B, A], x)], items)
  {
    hide WellFormed, Bucket, Rehash, Do, Play, Searched;
    var ops := Fill(x);
    var one, two := [Item(A, 1)], [Item(A, 1), Item(B, 1)];
    EmptyPlay(cfg);
    PlayStep(cfg, 1, ops, 0);
    OneBucket(cfg, Empty(1), A, 1);
    assert [A] + [] == [A] && [] + one == one;
    PlayStep(cfg, 1, ops, 1);
    OneBucket(cfg, Table(0, [[A]], one), B, 1);
    assert [B] + [A] == [B, A] && one + [Item(B, 1)] == two;
    PlayStep(cfg, 1, ops, 2);
    OneBucket(cfg, Table(0, [[B, A]], two), C, 1);
    assert [C] + [B, A] == [C, B, A] && two + [Item(C, 1)] == [Item(A, 1), Item(B, 1), Item(C, 1)];
    PlayStep(cfg, 1, ops, 3);
    GetStep(cfg, Table(0, [[C, B, A]], [Item(A, 1), Item(B, 1), Item(C, 1)]), x);
    assert ops[..4] == ops;
  }

  lemma {:induction false} EmptyPlay(cfg: Config)
    ensures Play(cfg, 1, Fill(A)[..0]) == Table(0, [[]], [])
    ensures Empty(1) == Table(0, [[]], [])
  {
    assert Pow2(0) == 1;
    assert Empty(1).chains == [[]];
  }

  lemma {:induction false} GetStep(cfg: Config, t: Table, x: Key)
    requires t.bits == 0 && |t.chains| == 1
    ensures Pow2(0) == 1 && Do(cfg, t, GetOp(x)) == t.(chains := [Searched(cfg.heuristics, t.chains[0], x)])
  {
    hide Bucket, Searched;
    assert Pow2(0) == 1;
    assert t.chains[0 := Searched(cfg.heuristics, t.chains[0], x)] == [Searched(cfg.heuristics, t.chains[0], x)];
  }
  function Fifth(x: Key): seq<Op> { Fill(x) + [InsertOp(D, 1)] }

  /** The key asked for is the most recently touched of the three. */
  lemma {:induction false} AskedLast(cfg: Config, x: Key, y: Key)
    requires cfg.heuristics == MoveToFront && (cfg.limit == 0 || cfg.limit > 2) && x in [C, B, A] && y in [C, B, A]
    ensures var i := LastTouch(cfg, 1, Fill(x), y); LastTouch(cfg, 1, Fifth(x), y) == i && if y == x then i == 4 else i <= 3
  {
    hide WellFormed, Do, Play, Searched, LastTouch;
    Filled(cfg, x);
    assert Fifth(x)[..4] == Fill(x);
    TouchStep(cfg, 1, Fifth(x), y);
    TouchStep(cfg, 1, Fill(x), y);
    assert KeysOf([Item(A, 1), Item(B, 1), Item(C, 1)]) == [A, B, C];
    assert [A, B, C][0] == A && [A, B, C][1] == B && [A, B, C][2] == C;
  }

  /** The table of the example after it grew to two buckets. */
  lemma {:induction false} FilledGrows(cfg: Config, x: Key)
    requires cfg.heuristics == MoveToFront && (cfg.limit == 0 || cfg.limit > 2) && x in [C, B, A] && cfg.autoRehash
    ensures var t := Play(cfg, 1, Fill(x));
      var s := Grown(cfg, t, D);
      Grows(cfg, t, InsertOp(D, 1)) && WellFormed(cfg.hash, s) && s.bits == 1 && |s.chains| == Pow2(1) == 2
      && KeysOf(s.items) == [A, B, C] && D !in KeysOf(s.items) && InsertionOrder(cfg.hash, s)
      && Play(cfg, 1, Fifth(x)) == Place(cfg, s, D, 1) == Do(cfg, t, InsertOp(D, 1))
  {
    hide Play, WellFormed, Searched, Rehash, Bucket, InsertionOrder, Place;
    Filled(cfg, x);
    var t := Play(cfg, 1, Fill(x));
    assert KeysOf(t.items) == [A, B, C];
    assert [A, B, C][0] == A && [A, B, C][1] == B && [A, B, C][2] == C;
    assert Pow2(0) == 1;
    RehashKeeps(cfg, t, 2);
    DoubleBits(0);
    InsertPlaces(cfg, t, D, 1);
    SizeOk(cfg.hash, Grown(cfg, t, D));
    PlayStep(cfg, 1, Fifth(x), 4);
    assert Fifth(x)[..4] == Fill(x) && Fifth(x)[..5] == Fifth(x);
  }

  lemma {:induction false} ThreeNewest(hash: Key -> u32, b: nat)
    ensures NewestFirst(hash, 1, b, [A, B, C]) ==
      (if Bucket(hash, 1, C) == b then [C] else []) + (if Bucket(hash, 1, B) == b then [B] else [])
      + (if Bucket(hash, 1, A) == b then [A] else [])
  {
    hide Bucket, NewestFirst;
    NewestSnoc(hash, 1, b, [], A);
    NewestSnoc(hash, 1, b, [A], B);
    NewestSnoc(hash, 1, b, [A, B], C);
    NoneNewest(hash, b);
    assert [] + [A] == [A] && [A] + [B] == [A, B] && [A, B] + [C] == [A, B, C];
  }

  lemma {:induction false} NoneNewest(hash: Key -> u32, b: nat)
    ensures NewestFirst(hash, 1, b, []) == []
  {
  }

  /** Two of the three keys that share one of two buckets, the newest such pair, older one first. */
  function Pair(hash: Key -> u32): (p: (Key, Key))
    ensures p.0 in [C, B, A] && p.1 in [C, B, A] && p.0 != p.1
  {
    if Bucket(hash, 1, B) == Bucket(hash, 1, C) then (B, C)
    else if Bucket(hash, 1, A) == Bucket(hash, 1, C) then (A, C)
    else (A, B)
  }

  lemma {:induction false} PairShares(hash: Key -> u32)
    ensures var p := Pair(hash);
      var b := Bucket(hash, 1, p.0);
      var c := NewestFirst(hash, 1, b, [A, B, C]);
      b < Pow2(1) == 2 && 2 <= |c| <= 3 && c[0] == p.1 && c[1] == p.0
  {
    hide Bucket, NewestFirst;
    assert Pow2(1) == 2;
    ThreeNewest(hash, Bucket(hash, 1, Pair(hash).0));
  }

  /** With room for three in a bucket, a table that may grow can lose the recency order, whatever
      the hash function: touching the older one of two keys that share a bucket after the growth is
      forgotten. */
  lemma {:induction false} GrowthForgets(cfg: Config)
    requires cfg.heuristics == MoveToFront && cfg.autoRehash && (cfg.limit == 0 || cfg.limit > 2)
    ensures !KeepsRecency(cfg, 1, Fifth(Pair(cfg.hash).0))
  {
    hide Play, WellFormed, LastTouch, Bucket, NewestFirst, Pair, Grows, Fill, KeysOf;
    var p := Pair(cfg.hash);
    var s := Grown(cfg, Play(cfg, 1, Fill(p.0)), D);
    var b := Bucket(cfg.hash, 1, p.0);
    FilledGrows(cfg, p.0);
    PairShares(cfg.hash);
    var c := Play(cfg, 1, Fifth(p.0)).chains[b];
    var i := if Bucket(cfg.hash, 1, D) == b then 1 else 0;
    assert |c| > i + 1 && c[i] == p.1 && c[i + 1] == p.0;
    AskedLast(cfg, p.0, p.0);
    AskedLast(cfg, p.0, p.1);
  }

  /** Under move-to-front every history leaves every chain in order of last successful touch exactly
      if the table cannot grow: automatic rehashing is off, or buckets hold one or two entries. */
  lemma {:induction false} RecencyKeptExactly(cfg: Config)
    requires cfg.heuristics == MoveToFront
    ensures (forall n: nat, ops: seq<Op> :: KeepsRecency(cfg, n, ops)) <==> !cfg.autoRehash || cfg.limit == 1 || cfg.limit == 2
  {
    hide KeepsRecency, Play;
    if !cfg.autoRehash || cfg.limit == 1 || cfg.limit == 2 {
      forall n: nat, ops: seq<Op> ensures KeepsRecency(cfg, n, ops) {
        if cfg.autoRehash { SmallLimitNeverGrows(cfg, n, ops); }
        ChainsAreByRecency(cfg, n, ops);
      }
    } else {
      GrowthForgets(cfg);
    }
  }

  const CROWDED := Config(_ => 0, MoveToFront, 3, true)

  /** When the table grows, a full bucket can give up its most recently used entry. */
  lemma {:induction false} EvictsMostRecent()
    ensures var t := Play(CROWDED, 1, Fill(A));
      var s := Grown(CROWDED, t, D);
      |s.chains| == Pow2(s.bits) && Full(CROWDED, s, D) && Victim(CROWDED, s, D) == A
      && A !in KeysOf(Do(CROWDED, t, InsertOp(D, 1)).items)
      && KeysOf(t.items) == [A, B, C]
      && LastTouch(CROWDED, 1, Fill(A), A) > LastTouch(CROWDED, 1, Fill(A), B)
      && LastTouch(CROWDED, 1, Fill(A), A) > LastTouch(CROWDED, 1, Fill(A), C)
  {
    hide Play, WellFormed, LastTouch, NewestFirst, Grows, Fill, KeysOf, Bucket, Place, Searched;
    var t := Play(CROWDED, 1, Fill(A));
    var s := Grown(CROWDED, t, D);
    Filled(CROWDED, A);
    FilledGrows(CROWDED, A);
    forall k: Key ensures Bucket(CROWDED.hash, 1, k) == 0 { BucketIsMod(CROWDED.hash, 1, k); }
    ThreeNewest(CROWDED.hash, 0);
    assert s.chains[0] == [C, B, A];
    VictimLeaves(CROWDED, s, D, 1);
    AskedLast(CROWDED, A, A);
    AskedLast(CROWDED, A, B);
    AskedLast(CROWDED, A, C);
  }
}
