/** The order in which the keys of a map are visited, one get_next_key call after another. */
module Cursor {
  import opened TableSpec
  import opened Wrappers

  /** The key after k, or the first key if k is not there. */
  function NextKey(keys: seq<Key>, k: Key): Option<Key> {
    var i := IndexOf(keys, k);
    if i == |keys| then (if keys == [] then None else Some(keys[0]))
    else if i + 1 < |keys| then Some(keys[i + 1]) else None
  }

  /** The keys n calls produce, each call continuing from the key before. */
  function Visited(keys: seq<Key>, start: Key, n: nat): seq<Key>
    decreases n
  {
    if n == 0 then [] else
    match NextKey(keys, start)
    case None => []
    case Some(k) => [k] + Visited(keys, k, n - 1)
  }

  lemma {:induction false} NextAt(keys: seq<Key>, i: nat)
    requires Unique(keys) && i < |keys|
    ensures NextKey(keys, keys[i]) == if i + 1 < |keys| then Some(keys[i + 1]) else None
  {
    assert keys[i] in keys;
  }

  lemma {:induction false} VisitedFrom(keys: seq<Key>, i: nat, n: nat)
    requires Unique(keys) && i < |keys| && n >= |keys| - i
    ensures Visited(keys, keys[i], n) == keys[i + 1..]
    decreases n
  {
    NextAt(keys, i);
    if i + 1 < |keys| {
      VisitedFrom(keys, i + 1, n - 1);
      assert keys[i + 1..] == [keys[i + 1]] + keys[i + 2..];
    }
  }

  /** Started from an absent key, the calls visit every key exactly once, in order, and then end:
      more calls find nothing further. */
  lemma {:induction false} VisitsAll(keys: seq<Key>, start: Key, n: nat)
    requires Unique(keys) && start !in keys && n > |keys|
    ensures Visited(keys, start, n) == keys
  {
    hide IndexOf, Unique;
    assert IndexOf(keys, start) == |keys|;
    if keys != [] {
      VisitedFrom(keys, 0, n - 1);
      assert keys == [keys[0]] + keys[1..];
    }
  }
}
