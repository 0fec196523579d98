/** The hash map of bpfmap/hashtab.c: elements in allocated memory, a table of pointers to them, and
    a cached iteration cursor. */
module Htab {
  import opened Words
  import opened TableSpec
  import opened HashTable
  import opened Cursor
  import opened Wrappers

  /** struct htab_elem with its key and value. */
  datatype Elem = Elem(key: Key, value: seq<byte>)

  type Heap = map<Pointer, Elem>

  predicate PointedTo(items: seq<Item>, p: Pointer) { exists i :: 0 <= i < |items| && items[i].data == p }

  predicate Allocated(items: seq<Item>, elems: Heap) {
    forall i :: 0 <= i < |items| ==>
      items[i].data in elems && items[i].data != NULL && elems[items[i].data].key == items[i].key
  }

  predicate NotShared(items: seq<Item>) { forall i, j :: 0 <= i < j < |items| ==> items[i].data != items[j].data }

  predicate NoLeak(items: seq<Item>, elems: Heap) { forall p :: p in elems ==> PointedTo(items, p) }

  /** The allocated elements are exactly the ones the table points to, each with its own key: no leak
      and no dangling pointer. */
  predicate Owned(items: seq<Item>, elems: Heap) {
    Allocated(items, elems) && NotShared(items) && NoLeak(items, elems)
  }

  /** The map's entries in the order of their last update. */
  ghost function Entries(items: seq<Item>, elems: Heap): (r: seq<Elem>)
    requires Owned(items, elems)
    ensures |r| == |items| && forall i :: 0 <= i < |r| ==> r[i] == elems[items[i].data]
  {
    seq(|items|, i requires 0 <= i < |items| => elems[items[i].data])
  }

  function ElemKeys(es: seq<Elem>): (r: seq<Key>)
    ensures |r| == |es| && forall i :: 0 <= i < |r| ==> r[i] == es[i].key
  {
    seq(|es|, i requires 0 <= i < |es| => es[i].key)
  }

  function Without(es: seq<Elem>, k: Key): seq<Elem> {
    var i := IndexOf(ElemKeys(es), k);
    if i < |es| then Delete(es, i) else es
  }

  function ValueOf(es: seq<Elem>, k: Key): Option<seq<byte>> {
    var i := IndexOf(ElemKeys(es), k);
    if i < |es| then Some(es[i].value) else None
  }

  // ----- steps on values -----

  lemma {:induction false} SameKeys(items: seq<Item>, elems: Heap)
    requires Owned(items, elems)
    ensures ElemKeys(Entries(items, elems)) == KeysOf(items)
  {
  }

  lemma {:induction false} AllocatedDelete(items: seq<Item>, elems: Heap, i: nat)
    requires Allocated(items, elems) && NotShared(items) && i < |items|
    ensures Allocated(Delete(items, i), elems - {items[i].data}) && NotShared(Delete(items, i))
  {
  }

  lemma {:induction false} NoLeakDelete(items: seq<Item>, elems: Heap, i: nat)
    requires NoLeak(items, elems) && i < |items|
    ensures NoLeak(Delete(items, i), elems - {items[i].data})
  {
    var less := Delete(items, i);
    forall p | p in elems && p != items[i].data ensures PointedTo(less, p) {
      assert PointedTo(items, p);
      var j :| 0 <= j < |items| && items[j].data == p;
      assert less[if j < i then j else j - 1].data == p;
    }
  }

  lemma {:induction false} OwnedDelete(items: seq<Item>, elems: Heap, i: nat)
    requires Owned(items, elems) && i < |items|
    ensures Owned(Delete(items, i), elems - {items[i].data})
    ensures Entries(Delete(items, i), elems - {items[i].data}) == Delete(Entries(items, elems), i)
  {
    hide NoLeak, NotShared;
    AllocatedDelete(items, elems, i);
    NoLeakDelete(items, elems, i);
  }

  lemma {:induction false} FreeOne(items: seq<Item>, elems: Heap, k: Key)
    requires Owned(items, elems) && k in KeysOf(items)
    ensures var i := IndexOf(KeysOf(items), k);
      var rest := elems - {items[i].data};
      Owned(RemoveItem(items, k), rest) && Entries(RemoveItem(items, k), rest) == Without(Entries(items, elems), k)
  {
    hide IndexOf, KeysOf, Owned, Delete;
    SameKeys(items, elems);
    OwnedDelete(items, elems, IndexOf(KeysOf(items), k));
  }

  lemma {:induction false} AddOne(items: seq<Item>, elems: Heap, k: Key, v: seq<byte>, p: Pointer)
    requires Owned(items, elems) && p !in elems && p != NULL
    ensures Owned(items + [Item(k, p)], elems[p := Elem(k, v)])
    ensures Entries(items + [Item(k, p)], elems[p := Elem(k, v)]) == Entries(items, elems) + [Elem(k, v)]
  {
    var more, heap := items + [Item(k, p)], elems[p := Elem(k, v)];
    forall q | q in heap ensures PointedTo(more, q) {
      if q == p {
        assert more[|items|].data == p;
      } else {
        assert PointedTo(items, q);
        var j :| 0 <= j < |items| && items[j].data == q;
        assert more[j].data == q;
      }
    }
  }

  /** The settings ght_create leaves and hashtab.c never changes. */
  predicate Basic(cfg: Config) { cfg.heuristics == NoHeuristics && !cfg.autoRehash && cfg.limit == 0 }

  lemma {:induction false} BasicSteps(cfg: Config, t: TableSpec.Table, k: Key, d: Pointer)
    requires WellFormed(cfg.hash, t) && Basic(cfg)
    ensures Search(cfg, t, k) == t && Remove(cfg, t, k).items == RemoveItem(t.items, k)
    ensures k !in KeysOf(t.items) ==> Insert(cfg, t, k, d).items == t.items + [Item(k, d)]
    ensures k in KeysOf(t.items) ==> k !in KeysOf(RemoveItem(t.items, k))
  {
    hide Bucket, IndexOf, KeysOf;
    SizeOk(cfg.hash, t);
    NoTouch(cfg, t, k);
    assert cfg.(heuristics := NoHeuristics) == cfg;
    assert k in t.chains[Bucket(cfg.hash, t.bits, k)] <==> k in KeysOf(t.items);
    if k in KeysOf(t.items) {
      UniqueDelete(KeysOf(t.items), IndexOf(KeysOf(t.items), k));
      KeysDelete(t.items, IndexOf(KeysOf(t.items), k));
    }
  }

  /** A lookup is null exactly for an absent key. */
  lemma {:induction false} NullIsAbsent(t: TableSpec.Table, elems: Heap, k: Key)
    requires Owned(t.items, elems)
    ensures Lookup(t, k) == NULL <==> k !in KeysOf(t.items)
    ensures k in KeysOf(t.items) ==> Lookup(t, k) in elems && ValueOf(Entries(t.items, elems), k) == Some(elems[Lookup(t, k)].value)
    ensures k !in KeysOf(t.items) ==> ValueOf(Entries(t.items, elems), k) == None
  {
    hide IndexOf;
    SameKeys(t.items, elems);
  }

  /** An element with a given key is the one the table points to for that key. */
  lemma {:induction false} OnlyOwner(t: TableSpec.Table, elems: Heap, k: Key, p: Pointer)
    requires Owned(t.items, elems) && Unique(KeysOf(t.items))
    ensures p in elems && elems[p].key == k ==> k in KeysOf(t.items) && Lookup(t, k) == p
  {
    hide IndexOf;
    if p in elems && elems[p].key == k {
      assert PointedTo(t.items, p);
      var i :| 0 <= i < |t.items| && t.items[i].data == p;
      LookupAt(t, i);
      assert KeysOf(t.items)[i] == k;
    }
  }

  lemma {:induction false} WithoutNone(es: seq<Elem>, k: Key)
    ensures k !in ElemKeys(es) ==> Without(es, k) == es
  {
  }

  class Htab {
    const keySize: nat
    const valueSize: nat
    const table: HashTable.Table
    var elems: Heap        // what is allocated and not yet freed
    var entry: Entry?      // iterator.p_entry
    var next: Entry?       // iterator.p_next
    var current: Pointer

    ghost predicate Valid()
      reads this`elems, table, table.buckets, table.nr, table.ages
    {
      table.Valid() && Basic(table.Cfg()) && Owned(table.Model().items, elems)
    }

    /** The entries in the order of their last update. */
    ghost function Contents(): seq<Elem>
      reads this`elems, table, table.buckets, table.nr, table.ages
      requires Valid()
    {
      Entries(table.Model().items, elems)
    }

    constructor (keySize: nat, valueSize: nat, maxEntries: nat, hash: Key -> u32)
      ensures Valid() && Contents() == [] && this.keySize == keySize && this.valueSize == valueSize
      ensures fresh(table) && fresh(table.buckets) && fresh(table.nr) && table.ages == [] && CursorSet()
    {
      this.keySize, this.valueSize := keySize, valueSize;
      table := new HashTable.Table(maxEntries, hash);
      elems, entry, next, current := map[], null, null, NULL;
    }

    /** htab_map_lookup_elem. */
    method LookupElem(key: Key) returns (value: Option<seq<byte>>)
      requires Valid()
      modifies table`chains, table.buckets, table.ages`next, table.ages`prev
      ensures Valid() && Contents() == old(Contents()) && table.Model() == old(table.Model())
      ensures value == ValueOf(Contents(), key)
    {
      hide Owned, KeysOf, Lookup, ValueOf, Entries, HashTable.Table.Valid, HashTable.Table.Model, Basic;
      var l := Fetch(key);
      NullIsAbsent(table.Model(), elems, key);
      if l == NULL {
        return None;
      }
      return Some(elems[l].value);
    }

    /** Only the table's own memory, or new memory, is in the table. */
    twostate predicate Framed()
      reads this, table
    {
      (table.buckets == old(table.buckets) || fresh(table.buckets)) && (table.nr == old(table.nr) || fresh(table.nr)) &&
      forall i :: 0 <= i < |table.ages| ==> table.ages[i] in old(table.ages) || fresh(table.ages[i])
    }

    /** ght_remove with the settings of this map. */
    method TableRemove(key: Key)
      requires table.Valid() && Basic(table.Cfg())
      modifies table, table.buckets, table.nr, table.ages
      ensures table.Valid() && Basic(table.Cfg()) && Framed()
      ensures table.Model().items == RemoveItem(old(table.Model().items), key)
    {
      hide WellFormed, HashTable.Table.Shape, KeysOf, Search, Remove, RemoveItem, HashTable.Table.Model, Lookup;
      BasicSteps(table.Cfg(), table.Model(), key, NULL);
      var d := table.Remove(key);
    }

    /** ght_insert of an absent key. */
    method TableInsert(key: Key, p: Pointer) returns (r: int)
      requires table.Valid() && Basic(table.Cfg()) && key !in KeysOf(table.Model().items)
      modifies table, table.buckets, table.nr, table.ages
      ensures table.Valid() && Basic(table.Cfg()) && Framed() && r == 0
      ensures table.Model().items == old(table.Model().items) + [Item(key, p)]
    {
      hide WellFormed, HashTable.Table.Shape, KeysOf, Search, Insert, RemoveItem;
      BasicSteps(table.Cfg(), table.Model(), key, p);
      r := table.Insert(key, p);
    }

    lemma {:induction false} UniqueKeys()
      requires table.Valid()
      ensures Unique(KeysOf(table.Model().items))
    {
      hide HashTable.Table.Shape, Unique;
    }

    /** Drops the element of a present key from the table and frees it. */
    method RemoveElem(key: Key, l: Pointer)
      requires Valid() && key in KeysOf(table.Model().items) && l == Lookup(table.Model(), key)
      modifies this`elems, table, table.buckets, table.nr, table.ages
      ensures Valid() && Contents() == Without(old(Contents()), key) && elems == old(elems) - {l} && Framed()
      ensures key !in KeysOf(table.Model().items)
    {
      hide Owned, KeysOf, RemoveItem, Without, IndexOf, HashTable.Table.Valid, HashTable.Table.Model, Entries, Basic;
      ghost var t := table.Model();
      TableGone(key);
      FreeOne(t.items, elems, key);
      TableRemove(key);
      elems := elems - {l};
    }

    lemma {:induction false} TableGone(key: Key)
      requires Valid() && key in KeysOf(table.Model().items)
      ensures key !in KeysOf(RemoveItem(table.Model().items, key))
    {
      hide WellFormed, HashTable.Table.Shape, KeysOf, Search, Remove, RemoveItem, HashTable.Table.Model, Insert;
      BasicSteps(table.Cfg(), table.Model(), key, NULL);
    }

    /** htab_map_update_elem; p is what calloc returns, possibly the address just freed. */
    method UpdateElem(key: Key, value: seq<byte>, p: Pointer) returns (r: int)
      requires Valid() && p != NULL && (p in elems ==> elems[p].key == key)
      modifies this`elems, table, table.buckets, table.nr, table.ages
      ensures Valid() && Contents() == Without(old(Contents()), key) + [Elem(key, value)] && r == 0 && Framed()
    {
      hide Owned, KeysOf, Lookup, Without, Entries, HashTable.Table.Model, HashTable.Table.Valid, Basic, ValueOf;
      ghost var t := table.Model();
      NullIsAbsent(t, elems, key);
      UniqueKeys();
      OnlyOwner(t, elems, key, p);
      WithoutNone(Contents(), key);
      SameKeys(t.items, elems);
      var l := Fetch(key);
      if l != NULL {
        RemoveElem(key, l);
      }
      r := AddElem(key, value, p);
    }

    /** ght_get, which reorders nothing here. */
    method Fetch(key: Key) returns (l: Pointer)
      requires Valid()
      modifies table`chains, table.buckets, table.ages`next, table.ages`prev
      ensures Valid() && table.Model() == old(table.Model()) && l == Lookup(table.Model(), key)
    {
      hide WellFormed, HashTable.Table.Shape, Owned, KeysOf, Search, Lookup, HashTable.Table.Model;
      BasicSteps(table.Cfg(), table.Model(), key, NULL);
      l := table.Get(key);
    }

    method AddElem(key: Key, value: seq<byte>, p: Pointer) returns (r: int)
      requires Valid() && key !in KeysOf(table.Model().items) && p != NULL && p !in elems
      modifies this`elems, table, table.buckets, table.nr, table.ages
      ensures Valid() && Contents() == old(Contents()) + [Elem(key, value)] && r == 0 && Framed()
    {
      hide Owned, KeysOf, HashTable.Table.Valid, HashTable.Table.Model, Entries, Basic;
      AddOne(table.Model().items, elems, key, value, p);
      elems := elems[p := Elem(key, value)];
      r := TableInsert(key, p);
    }

    /** htab_map_delete_elem. */
    method DeleteElem(key: Key) returns (r: int)
      requires Valid()
      modifies this`elems, table, table.buckets, table.nr, table.ages
      ensures Valid() && Contents() == Without(old(Contents()), key) && Framed()
      ensures r == if ValueOf(old(Contents()), key).Some? then 0 else -1
    {
      hide Owned, KeysOf, Lookup, Without, Entries, HashTable.Table.Model, HashTable.Table.Valid, Basic, ValueOf;
      ghost var t := table.Model();
      NullIsAbsent(t, elems, key);
      WithoutNone(Contents(), key);
      SameKeys(t.items, elems);
      var l := Fetch(key);
      if l == NULL {
        return -1;
      }
      RemoveElem(key, l);
      return 0;
    }

    /** The cursor stands on an entry, with the one after it remembered. */
    ghost predicate CursorSet()
      reads this`entry, this`next, this`current, table`ages, table.ages`data
    {
      current != NULL ==> exists i :: 0 <= i < |table.ages| && CursorAt(i)
    }

    ghost predicate CursorAt(i: nat)
      reads this`entry, this`next, this`current, table`ages, table.ages`data
      requires i < |table.ages|
    {
      entry == table.ages[i] && current == table.ages[i].data && next == At(table.ages, i + 1)
    }

    /** The keys in the order of their last update. */
    ghost function KeyOrder(): (r: seq<Key>)
      reads table`ages
      ensures |r| == |table.ages|
    {
      Keys(table.ages)
    }

    lemma {:induction false} KeyOrderIs()
      ensures KeyOrder() == KeysOf(table.Model().items)
    {
    }

    /** What iteration relies on: the age list is linked and its keys and elements are those of the
        map. */
    lemma {:induction false} Iterable()
      requires Valid()
      ensures table.oldest == At(table.ages, 0) && Unique(KeyOrder())
      ensures forall i :: 0 <= i < |table.ages| ==> table.ages[i].newer == At(table.ages, i + 1)
      ensures forall i :: 0 <= i < |table.ages| ==>
        KeyOrder()[i] == table.ages[i].key && table.ages[i].data != NULL
        && table.ages[i].data in elems && elems[table.ages[i].data].key == table.ages[i].key
    {
      hide NoLeak, NotShared, WellFormed, HashTable.Table.Shape;
      table.AgesLinked();
      UniqueKeys();
      KeyOrderIs();
      ghost var items := table.Model().items;
      forall i | 0 <= i < |table.ages|
        ensures KeyOrder()[i] == table.ages[i].key && table.ages[i].data != NULL
        && table.ages[i].data in elems && elems[table.ages[i].data].key == table.ages[i].key
      {
        assert items[i] == Item(table.ages[i].key, table.ages[i].data);
      }
    }

    /** ght_first into the map's iterator. */
    method First() returns (key: Option<Key>)
      requires Valid()
      modifies this`entry, this`next, this`current
      ensures if table.ages == [] then key == None && current == NULL else CursorAt(0) && key == Some(KeyOrder()[0])
    {
      hide Owned, HashTable.Table.Valid, HashTable.Table.Model;
      Iterable();
      entry := table.oldest;
      if entry != null {
        next := entry.newer;
        key := Some(entry.key);
        current := entry.data;
      } else {
        next, key, current := null, None, NULL;
      }
    }

    /** ght_next. */
    method Next(ghost i: nat) returns (key: Option<Key>)
      requires Valid() && i < |table.ages| && CursorAt(i)
      modifies this`entry, this`next, this`current
      ensures if i + 1 < |table.ages| then CursorAt(i + 1) && key == Some(KeyOrder()[i + 1]) else key == None && current == NULL
    {
      hide Owned, HashTable.Table.Valid, HashTable.Table.Model;
      Iterable();
      if next != null {
        entry := next;
        next := next.newer;
        key := Some(entry.key);
        current := entry.data;
      } else {
        entry, next, key, current := null, null, None, NULL;
      }
    }

    /** Walks from the oldest entry to the one with the given key. */
    method Seek(key: Key) returns (ghost i: nat)
      requires Valid() && key in KeyOrder()
      modifies this`entry, this`next, this`current
      ensures i < |table.ages| && CursorAt(i) && KeyOrder()[i] == key
    {
      hide Owned, HashTable.Table.Valid, HashTable.Table.Model;
      var pKey := First();
      i := 0;
      ghost var j := IndexOf(KeyOrder(), key);
      while pKey != Some(key)
        invariant Valid() && KeyOrder() == old(KeyOrder())
        invariant 0 <= i <= j < |table.ages| && CursorAt(i) && pKey == Some(KeyOrder()[i])
        decreases j - i
      {
        pKey := Next(i);
        i := i + 1;
      }
    }

    /** The cursor stands on what follows the given key. */
    ghost predicate CursorAfter(key: Key, pKey: Option<Key>)
      reads this`entry, this`next, this`current, table`ages, table.ages`data
    {
      pKey == NextKey(KeyOrder(), key) &&
      match pKey
      case Some(k) => exists i :: 0 <= i < |table.ages| && CursorAt(i) && KeyOrder()[i] == k
      case None => current == NULL
    }

    lemma {:induction false} KeyPresent(key: Key)
      requires Valid()
      ensures Lookup(table.Model(), key) == NULL <==> key !in KeyOrder()
    {
      hide Owned, KeysOf, Lookup, HashTable.Table.Valid, KeyOrder;
      KeyOrderIs();
      NullIsAbsent(table.Model(), elems, key);
    }

    lemma {:induction false} FirstOfAbsent(key: Key)
      requires key !in KeyOrder()
      ensures NextKey(KeyOrder(), key) == if table.ages == [] then None else Some(KeyOrder()[0])
    {
      hide KeyOrder;
    }

    /** Past the wanted key, which is there. */
    method SeekPast(wanted: Key) returns (pKey: Option<Key>)
      requires Valid() && wanted in KeyOrder()
      modifies this`entry, this`next, this`current
      ensures Valid() && CursorAfter(wanted, pKey)
    {
      hide Owned, HashTable.Table.Valid, HashTable.Table.Model, KeyOrder, NextKey;
      Iterable();
      ghost var i := Seek(wanted);
      NextAt(KeyOrder(), i);
      pKey := Next(i);
    }

    /** Start of a search: the cursor on the first key, then past the wanted one if it is there. */
    method Restart(wanted: Key) returns (pKey: Option<Key>)
      requires Valid()
      modifies this`entry, this`next, this`current
      modifies table`chains, table.buckets, table.ages`next, table.ages`prev
      ensures Valid() && table.Model() == old(table.Model()) && CursorAfter(wanted, pKey)
    {
      hide Owned, HashTable.Table.Valid, HashTable.Table.Model, Lookup, KeyOrder, NextKey;
      pKey := First();
      KeyPresent(wanted);
      var l := Fetch(wanted);
      if l != NULL {
        pKey := SeekPast(wanted);
      } else {
        FirstOfAbsent(wanted);
      }
    }

    /** The cursor logic: from the cached cursor if it stands on the wanted key, else by a search. */
    method Advance(wanted: Key) returns (pKey: Option<Key>)
      requires Valid() && CursorSet()
      modifies this`entry, this`next, this`current
      modifies table`chains, table.buckets, table.ages`next, table.ages`prev
      ensures Valid() && table.Model() == old(table.Model()) && CursorAfter(wanted, pKey)
    {
      hide Owned, HashTable.Table.Valid, HashTable.Table.Model, NextKey, KeyOrder;
      Iterable();
      if current != NULL && elems[current].key == wanted {
        ghost var i :| 0 <= i < |table.ages| && CursorAt(i);
        NextAt(KeyOrder(), i);
        pKey := Next(i);
      } else {
        pKey := Restart(wanted);
      }
    }

    /** htab_map_get_next_key. The pointers key and next_key point into the buffers kb and nb, at ko and
        no; they may be the same. From the cursor or by a search from the oldest entry, the answer is
        the same: the key after key, or the first one. */
    method GetNextKey(kb: array<byte>, ko: nat, nb: array<byte>, no: nat) returns (r: int)
      requires Valid() && CursorSet() && ko + keySize <= kb.Length
      requires NextKey(KeyOrder(), kb[ko..ko + keySize]).Some? ==> no + keySize <= nb.Length
      requires forall i :: 0 <= i < |table.ages| ==> |table.ages[i].key| == keySize
      modifies this`entry, this`next, this`current, nb
      modifies table`chains, table.buckets, table.ages`next, table.ages`prev
      ensures Valid() && CursorSet() && table.Model() == old(table.Model())
      ensures match NextKey(KeyOrder(), old(kb[ko..ko + keySize]))
              case Some(k) => r == 0 && nb[..] == old(nb[..no]) + k + old(nb[no + keySize..]) && current != NULL
              case None => r == -1 && current == NULL && nb[..] == old(nb[..])
    {
      hide Owned, HashTable.Table.Valid, HashTable.Table.Model, NextKey, KeyOrder;
      var key := kb[ko..ko + keySize];
      var pKey := Advance(key);
      AfterCursor(pKey, key);
      if current == NULL {
        return -1;
      }
      forall i | 0 <= i < keySize {
        nb[no + i] := pKey.value[i];
      }
      assert nb[..] == old(nb[..no]) + pKey.value + old(nb[no + keySize..]);
      return 0;
    }

    /** The copied key is the cursor's. */
    lemma {:induction false} AfterCursor(pKey: Option<Key>, key: Key)
      requires Valid() && CursorAfter(key, pKey)
      requires forall i :: 0 <= i < |table.ages| ==> |table.ages[i].key| == keySize
      ensures CursorSet() && (current == NULL <==> pKey == None) && (pKey.Some? ==> |pKey.value| == keySize)
    {
      hide Owned, HashTable.Table.Valid, HashTable.Table.Model, NextKey, KeyOrder;
      Iterable();
    }
  }
}
