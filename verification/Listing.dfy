/** Listing a hash map: the agent packs keys and values into one buffer (agent/agent.c), the command
    line client takes them apart again (controller/cli.py). */
module Listing {
  import opened Words
  import opened TableSpec
  import opened Cursor
  import opened Wrappers
  import opened Htab

  // ----- the wire form -----

  function Pack(es: seq<Elem>): seq<byte> {
    if es == [] then [] else Pack(es[..|es| - 1]) + es[|es| - 1].key + es[|es| - 1].value
  }

  predicate Sized(es: seq<Elem>, keySize: nat, valueSize: nat) {
    forall i :: 0 <= i < |es| ==> |es[i].key| == keySize && |es[i].value| == valueSize
  }

  lemma {:induction false} ItemStep(n: nat, k: nat, size: nat)
    requires k < n
    ensures k * size + size == (k + 1) * size <= n * size && k * size <= n * size
  {
  }

  lemma {:induction false} PackLength(es: seq<Elem>, keySize: nat, valueSize: nat)
    requires Sized(es, keySize, valueSize)
    ensures |Pack(es)| == |es| * (keySize + valueSize)
    decreases |es|
  {
    if es != [] {
      PackLength(es[..|es| - 1], keySize, valueSize);
      ItemStep(|es|, |es| - 1, keySize + valueSize);
    }
  }

  lemma {:induction false} PackNext(es: seq<Elem>, i: nat)
    requires i < |es|
    ensures Pack(es[..i + 1]) == Pack(es[..i]) + es[i].key + es[i].value
  {
    assert es[..i + 1][..i] == es[..i];
  }

  // ----- the client -----

  /** struct.unpack_from with a format of two strings, at the given offset. */
  function UnpackAt(items: seq<byte>, offset: nat, keySize: nat, valueSize: nat): Elem
    requires offset + keySize + valueSize <= |items|
  {
    Elem(items[offset..offset + keySize], items[offset + keySize..offset + keySize + valueSize])
  }

  lemma {:induction false} PackPrefix(es: seq<Elem>, k: nat, n: nat)
    requires k <= n <= |es|
    ensures Pack(es[..k]) <= Pack(es[..n])
    decreases n
  {
    hide Pack;
    if k < n {
      PackPrefix(es, k, n - 1);
      PackNext(es, n - 1);
    }
  }

  lemma {:induction false} UnpackPacked(es: seq<Elem>, items: seq<byte>, i: nat, keySize: nat, valueSize: nat)
    requires Sized(es, keySize, valueSize) && i < |es| && Pack(es) <= items
    ensures i * (keySize + valueSize) + keySize + valueSize <= |items|
    ensures UnpackAt(items, i * (keySize + valueSize), keySize, valueSize) == es[i]
  {
    hide Pack;
    PackLength(es[..i], keySize, valueSize);
    PackPrefix(es, i + 1, |es|);
    PackNext(es, i);
    assert es[..|es|] == es;
    UnpackThere(items, Pack(es[..i]), es[i]);
  }

  lemma {:induction false} UnpackThere(items: seq<byte>, p: seq<byte>, e: Elem)
    requires p + e.key + e.value <= items
    ensures UnpackAt(items, |p|, |e.key|, |e.value|) == e
  {
    var q := p + e.key + e.value;
    assert items[|p|..|p| + |e.key|] == q[|p|..|p| + |e.key|] == e.key;
    assert items[|p| + |e.key|..|q|] == q[|p| + |e.key|..] == e.value;
  }

  /** The HASH branch of table_list_reply. */
  method TableListReply(items: seq<byte>, nItems: nat, keySize: nat, valueSize: nat, ghost es: seq<Elem>)
      returns (entries: seq<Elem>)
    requires Sized(es, keySize, valueSize) && items == Pack(es) && nItems == |es|
    ensures entries == es
  {
    hide Pack, Sized;
    entries := [];
    var itemSize := keySize + valueSize;
    for i := 0 to nItems
      invariant entries == es[..i]
    {
      UnpackPacked(es, items, i, keySize, valueSize);
      entries := entries + [UnpackAt(items, i * itemSize, keySize, valueSize)];
    }
  }

  // ----- the agent -----

  /** The key calloc leaves in the buffer. */
  function Zero(n: nat): (k: Key)
    ensures |k| == n && forall i :: 0 <= i < n ==> k[i] == 0
  {
    seq(n, _ => 0)
  }

  /** Where a listing begins: behind the all-zero key the buffer starts out with. */
  function FirstListed(keys: seq<Key>, zero: Key): (s: nat)
    ensures s <= |keys|
  {
    if zero in keys then IndexOf(keys, zero) + 1 else 0
  }

  /** The listing has every entry exactly if the all-zero key is not one of them. */
  lemma {:induction false} CompleteWithoutZero(es: seq<Elem>, zero: Key)
    ensures es[FirstListed(ElemKeys(es), zero)..] == es <==> zero !in ElemKeys(es)
  {
  }

  /** The key the n-th call continues from. */
  function From(keys: seq<Key>, zero: Key, n: nat): Key
    requires FirstListed(keys, zero) + n <= |keys|
  {
    if n == 0 then zero else keys[FirstListed(keys, zero) + n - 1]
  }

  lemma {:induction false} NextListed(keys: seq<Key>, zero: Key, n: nat)
    requires Unique(keys) && FirstListed(keys, zero) + n <= |keys|
    ensures NextKey(keys, From(keys, zero, n))
         == if FirstListed(keys, zero) + n < |keys| then Some(keys[FirstListed(keys, zero) + n]) else None
  {
    hide IndexOf;
    if n > 0 { NextAt(keys, FirstListed(keys, zero) + n - 1); }
  }

  /** The map as it is during a listing. */
  ghost predicate Listable(m: Htab, es: seq<Elem>)
    reads m, m.table, m.table.buckets, m.table.nr, m.table.ages
  {
    m.Valid() && m.CursorSet() && m.Contents() == es && Sized(es, m.keySize, m.valueSize) && Unique(ElemKeys(es))
  }

  lemma {:induction false} KeysAre(m: Htab, es: seq<Elem>)
    requires Listable(m, es)
    ensures m.KeyOrder() == ElemKeys(es)
    ensures forall i :: 0 <= i < |m.table.ages| ==> |m.table.ages[i].key| == m.keySize
  {
    hide Owned, HashTable.Table.Valid, Unique, KeysOf, ElemKeys, Basic;
    m.KeyOrderIs();
    SameKeys(m.table.Model().items, m.elems);
    m.Iterable();
    assert forall i :: 0 <= i < |es| ==> |ElemKeys(es)[i]| == m.keySize;
  }

  lemma {:induction false} StillListable(m: Htab, es: seq<Elem>)
    requires m.Valid() && m.CursorSet() && Sized(es, m.keySize, m.valueSize) && m.Contents() == es
    ensures Listable(m, es)
  {
    hide Owned, HashTable.Table.Valid, Basic, KeysOf, ElemKeys;
    m.UniqueKeys();
    SameKeys(m.table.Model().items, m.elems);
  }

  /** One get_next_key call of the walk, with n items listed so far. */
  method NextItem(m: Htab, items: array<byte>, key: nat, next: nat, ghost es: seq<Elem>, ghost zero: Key, ghost n: nat)
      returns (r: int)
    requires Listable(m, es) && FirstListed(ElemKeys(es), zero) + n <= |es| && key + m.keySize <= items.Length
    requires items[key..key + m.keySize] == From(ElemKeys(es), zero, n)
    requires FirstListed(ElemKeys(es), zero) + n < |es| ==> next + m.keySize <= items.Length
    modifies m`entry, m`next, m`current, items
    modifies m.table`chains, m.table.buckets, m.table.ages`next, m.table.ages`prev
    ensures Listable(m, es) && (r == 0 <==> FirstListed(ElemKeys(es), zero) + n < |es|)
    ensures r == 0 ==>
      && next + m.keySize <= items.Length
      && items[..next] == old(items[..next]) && items[next + m.keySize..] == old(items[next + m.keySize..])
      && items[next..next + m.keySize] == es[FirstListed(ElemKeys(es), zero) + n].key
    ensures r != 0 ==> items[..] == old(items[..]) && m.current == NULL
  {
    hide Owned, HashTable.Table.Valid, HashTable.Table.Model, Unique, ElemKeys, NextKey, IndexOf, FirstListed, Basic;
    KeysAre(m, es);
    NextListed(ElemKeys(es), zero, n);
    r := m.GetNextKey(items, key, items, next);
    StillListable(m, es);
  }

  lemma {:induction false} ValueListed(es: seq<Elem>, i: nat)
    requires i < |es| && Unique(ElemKeys(es))
    ensures ValueOf(es, es[i].key) == Some(es[i].value)
  {
    assert ElemKeys(es)[i] in ElemKeys(es);
  }

  /** bpf_lookup_elem of the key just written, and the copy of its value behind it. */
  method StoreValue(m: Htab, items: array<byte>, next: nat, ghost es: seq<Elem>, ghost i: nat)
    requires Listable(m, es) && i < |es| && next + m.keySize + m.valueSize <= items.Length
    requires items[next..next + m.keySize] == es[i].key
    modifies items, m.table`chains, m.table.buckets, m.table.ages`next, m.table.ages`prev
    ensures Listable(m, es)
    ensures items[..next + m.keySize] == old(items[..next + m.keySize])
    ensures items[next + m.keySize..next + m.keySize + m.valueSize] == es[i].value
    ensures items[next + m.keySize + m.valueSize..] == old(items[next + m.keySize + m.valueSize..])
  {
    hide Owned, HashTable.Table.Valid, HashTable.Table.Model, Unique, ElemKeys, ValueOf, Basic;
    ValueListed(es, i);
    var value := m.LookupElem(items[next..next + m.keySize]);
    StillListable(m, es);
    forall k | 0 <= k < m.valueSize {
      items[next + m.keySize + k] := value.value[k];
    }
  }

  lemma {:induction false} Joined(b: seq<byte>, next: nat, ks: nat, vs: nat)
    requires next + ks + vs <= |b|
    ensures b[..next + ks + vs] == b[..next] + b[next..next + ks] + b[next + ks..next + ks + vs]
  {
  }

  /** Offset of the n-th item. */
  function ItemAt(n: nat, size: nat): nat { n * size }

  /** The first n items are in the buffer. */
  predicate Written(b: seq<byte>, es: seq<Elem>, n: nat, size: nat) {
    n <= |es| && ItemAt(n, size) <= |b| && b[..ItemAt(n, size)] == Pack(es[..n])
  }

  lemma {:induction false} WrittenNext(b: seq<byte>, b': seq<byte>, es: seq<Elem>, n: nat, next: nat, ks: nat, vs: nat)
    requires n < |es| && next == ItemAt(n, ks + vs) && next + ks + vs <= |b'| == |b| && Written(b, es, n, ks + vs)
    requires b'[..next] == b[..next] && b'[next..next + ks] == es[n].key
    requires b'[next + ks..next + ks + vs] == es[n].value
    ensures ItemAt(n + 1, ks + vs) == next + ks + vs && Written(b', es, n + 1, ks + vs)
  {
    hide Pack;
    ItemStep(n + 1, n, ks + vs);
    PackNext(es, n);
    Joined(b', next, ks, vs);
  }

  predicate HoldsKey(b: seq<byte>, at: nat, es: seq<Elem>, n: nat) {
    n < |es| && at + |es[n].key| <= |b| && b[at..at + |es[n].key|] == es[n].key
  }

  lemma {:induction false} WrittenKept(b: seq<byte>, b': seq<byte>, es: seq<Elem>, n: nat, size: nat)
    requires Written(b, es, n, size) && ItemAt(n, size) <= |b'| && b'[..ItemAt(n, size)] == b[..ItemAt(n, size)]
    ensures Written(b', es, n, size)
  {
    hide Pack;
  }

  /** The value of the n-th item joins its key. */
  method Complete(m: Htab, items: array<byte>, next: nat, n: nat, ghost es: seq<Elem>, ghost s: nat)
    requires Listable(m, es) && s + n < |es| && next == ItemAt(n, m.keySize + m.valueSize)
    requires next + m.keySize + m.valueSize <= items.Length
    requires Written(items[..], es[s..], n, m.keySize + m.valueSize) && HoldsKey(items[..], next, es[s..], n)
    modifies items, m.table`chains, m.table.buckets, m.table.ages`next, m.table.ages`prev
    ensures Listable(m, es) && Written(items[..], es[s..], n + 1, m.keySize + m.valueSize)
    ensures items[next..next + m.keySize] == es[s + n].key && ItemAt(n + 1, m.keySize + m.valueSize) <= items.Length
  {
    hide Pack, ElemKeys, Unique, HashTable.Table.Valid, Owned, HashTable.Table.Model, Basic, Written, ItemAt;
    ghost var b := items[..];
    assert |es[s..][n].key| == m.keySize;
    StoreValue(m, items, next, es, s + n);
    assert items[..][..next + m.keySize] == b[..next + m.keySize];
    assert items[..][next + m.keySize..next + m.keySize + m.valueSize] == es[s..][n].value;
    assert items[..][..next] == b[..next];
    assert items[..][next..next + m.keySize] == b[next..next + m.keySize];
    WrittenNext(b, items[..], es[s..], n, next, m.keySize, m.valueSize);
  }

  /** The call after n items: it leaves them alone and fetches the next key, if there is one. */
  method Continue(m: Htab, items: array<byte>, key: nat, next: nat, n: nat, ghost es: seq<Elem>, ghost zero: Key) returns (r: int)
    requires Listable(m, es) && FirstListed(ElemKeys(es), zero) + n <= |es| && key + m.keySize <= items.Length
    requires items[key..key + m.keySize] == From(ElemKeys(es), zero, n) && next == ItemAt(n, m.keySize + m.valueSize)
    requires ItemAt(|es|, m.keySize + m.valueSize) <= items.Length && next <= items.Length
    requires Written(items[..], es[FirstListed(ElemKeys(es), zero)..], n, m.keySize + m.valueSize)
    modifies m`entry, m`next, m`current, items
    modifies m.table`chains, m.table.buckets, m.table.ages`next, m.table.ages`prev
    ensures Listable(m, es) && Written(items[..], es[FirstListed(ElemKeys(es), zero)..], n, m.keySize + m.valueSize)
    ensures r == 0 <==> FirstListed(ElemKeys(es), zero) + n < |es|
    ensures r == 0 ==> HoldsKey(items[..], next, es[FirstListed(ElemKeys(es), zero)..], n)
    ensures r == 0 ==> next + m.keySize + m.valueSize <= items.Length
    ensures r != 0 ==> m.current == NULL
  {
    hide Pack, ElemKeys, Unique, HashTable.Table.Valid, Owned, HashTable.Table.Model, Basic, Written, FirstListed, From;
    ghost var b, s := items[..], FirstListed(ElemKeys(es), zero);
    if s + n < |es| { ItemStep(|es|, n, m.keySize + m.valueSize); }
    r := NextItem(m, items, key, next, es, zero, n);
    assert items[..][..next] == b[..next];
    WrittenKept(b, items[..], es[s..], n, m.keySize + m.valueSize);
    if r == 0 { assert items[..][next..next + m.keySize] == es[s..][n].key; }
  }

  lemma {:induction false} FromListed(es: seq<Elem>, zero: Key, n: nat)
    requires n > 0 && FirstListed(ElemKeys(es), zero) + n <= |es|
    ensures From(ElemKeys(es), zero, n) == es[FirstListed(ElemKeys(es), zero) + n - 1].key
    ensures From(ElemKeys(es), zero, 0) == zero
  {
  }

  /** The HASH branch of recv_table_list_request: the walk starts from the zeroed buffer, each key is
      written where the next item goes and is the start of the next call. */
  method TableListItems(m: Htab, maxEntries: nat, ghost es: seq<Elem>, ghost zero: Key) returns (items: array<byte>, nItems: nat)
    requires Listable(m, es) && |es| <= maxEntries && 0 < maxEntries && zero == Zero(m.keySize)
    modifies m`entry, m`next, m`current
    modifies m.table`chains, m.table.buckets, m.table.ages`next, m.table.ages`prev
    ensures Listable(m, es) && m.current == NULL && fresh(items)
    ensures items.Length == maxEntries * (m.keySize + m.valueSize) && nItems == |es| - FirstListed(ElemKeys(es), zero)
    ensures Written(items[..], es[FirstListed(ElemKeys(es), zero)..], nItems, m.keySize + m.valueSize)
  {
    hide Listable, FirstListed, ElemKeys, HoldsKey, From;
    var itemSize := m.keySize + m.valueSize;
    ItemStep(maxEntries, 0, itemSize);
    TimesMono(|es|, maxEntries, itemSize);
    items := new byte[maxEntries * itemSize](_ => 0);
    ghost var s := FirstListed(ElemKeys(es), zero);
    nItems := 0;
    assert items[0..m.keySize] == zero;
    assert From(ElemKeys(es), zero, 0) == zero by { FromNone(es, zero); }
    hide Written, Pack;
    var r := Continue(m, items, 0, 0, 0, es, zero);
    while r == 0
      invariant Listable(m, es) && nItems <= |es| - s
      invariant Written(items[..], es[s..], nItems, itemSize)
      invariant r == 0 <==> s + nItems < |es|
      invariant r == 0 ==> HoldsKey(items[..], ItemAt(nItems, itemSize), es[s..], nItems)
      invariant r == 0 ==> ItemAt(nItems, itemSize) + itemSize <= items.Length
      invariant r != 0 ==> m.current == NULL
      decreases |es| - s - nItems
    {
      var key := ItemAt(nItems, itemSize);
      Complete(m, items, key, nItems, es, s);
      nItems := nItems + 1;
      FromListed(es, zero, nItems);
      r := Continue(m, items, key, ItemAt(nItems, itemSize), nItems, es, zero);
    }
  }

  lemma {:induction false} TimesMono(a: nat, b: nat, size: nat)
    requires a <= b
    ensures a * size <= b * size
  {
  }

  lemma {:induction false} FromNone(es: seq<Elem>, zero: Key)
    ensures From(ElemKeys(es), zero, 0) == zero
  {
  }

  /** Agent and client together: the client shows the map's entries, each once, in iteration order,
      all of them if the all-zero key is not in the map; the cursor is left cleared, so the next
      listing starts afresh. */
  method ListTable(m: Htab, maxEntries: nat, ghost es: seq<Elem>) returns (entries: seq<Elem>)
    requires Listable(m, es) && |es| <= maxEntries && 0 < maxEntries
    modifies m`entry, m`next, m`current
    modifies m.table`chains, m.table.buckets, m.table.ages`next, m.table.ages`prev
    ensures Listable(m, es) && m.current == NULL
    ensures entries == es[FirstListed(ElemKeys(es), Zero(m.keySize))..]
    ensures entries == es <==> Zero(m.keySize) !in ElemKeys(es)
  {
    hide Listable, Pack, FirstListed, ElemKeys, Sized;
    ghost var zero := Zero(m.keySize);
    CompleteWithoutZero(es, zero);
    var items, n := TableListItems(m, maxEntries, es, zero);
    assert es[FirstListed(ElemKeys(es), zero)..][..n] == es[FirstListed(ElemKeys(es), zero)..];
    SizedFrom(m, es, FirstListed(ElemKeys(es), zero));
    entries := TableListReply(items[..n * (m.keySize + m.valueSize)], n, m.keySize, m.valueSize,
                              es[FirstListed(ElemKeys(es), zero)..]);
  }

  lemma {:induction false} SizedFrom(m: Htab, es: seq<Elem>, s: nat)
    requires Listable(m, es) && s <= |es|
    ensures Sized(es[s..], m.keySize, m.valueSize)
  {
    hide Owned, HashTable.Table.Valid, HashTable.Table.Model, Unique, ElemKeys;
  }
}
