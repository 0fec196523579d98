/** The hash table as a finite map with an insertion order, and its bounded buckets as caches. */
module TableLaws {
  import opened Words
  import opened TableSpec

  // ----- a finite map -----

  function AsMap(t: Table): map<Key, Pointer> {
    map k | k in KeysOf(t.items) :: Lookup(t, k)
  }

  /** Same bindings, position by position. */
  lemma {:induction false} MapEqual(t: Table, m: map<Key, Pointer>)
    requires Unique(KeysOf(t.items))
    requires forall i :: 0 <= i < |t.items| ==> t.items[i].key in m && m[t.items[i].key] == t.items[i].data
    requires forall k :: k in m ==> k in KeysOf(t.items)
    ensures AsMap(t) == m
  {
    hide IndexOf;
    forall k | k in KeysOf(t.items) ensures k in m && m[k] == Lookup(t, k) {
      var i :| 0 <= i < |t.items| && t.items[i].key == k;
      LookupAt(t, i);
    }
  }

  lemma {:induction false} MapAt(t: Table, i: nat)
    requires i < |t.items| && Unique(KeysOf(t.items))
    ensures t.items[i].key in AsMap(t) && AsMap(t)[t.items[i].key] == t.items[i].data
  {
    LookupAt(t, i);
    assert KeysOf(t.items)[i] == t.items[i].key;
  }

  lemma {:induction false} MapKeys(t: Table)
    ensures AsMap(t).Keys == set k | k in KeysOf(t.items)
  {
  }

  /** Looking a key up reorders a chain and nothing else. */
  lemma {:induction false} SearchIsLookup(cfg: Config, t: Table, k: Key)
    requires WellFormed(cfg.hash, t)
    ensures AsMap(Search(cfg, t, k)) == AsMap(t) && Search(cfg, t, k).items == t.items
    ensures Lookup(t, k) == if k in AsMap(t) then AsMap(t)[k] else NULL
  {
    hide Bucket, Searched, KeysOf;
  }

  lemma {:induction false} ReplaceIsUpdate(cfg: Config, t: Table, k: Key, d: Pointer)
    requires WellFormed(cfg.hash, t)
    ensures AsMap(Replace(cfg, t, k, d)) == if k in AsMap(t) then AsMap(t)[k := d] else AsMap(t)
    ensures KeysOf(Replace(cfg, t, k, d).items) == KeysOf(t.items)
  {
    hide Bucket, Searched, AsMap;
    var r := Replace(cfg, t, k, d);
    ReplaceWellFormed(cfg, t, k, d);
    var m := if k in AsMap(t) then AsMap(t)[k := d] else AsMap(t);
    MapKeys(t);
    forall i | 0 <= i < |r.items| ensures r.items[i].key in m && m[r.items[i].key] == r.items[i].data {
      assert r.items[i].key == KeysOf(r.items)[i] == t.items[i].key;
      MapAt(t, i);
      if k in KeysOf(t.items) { LookupAt(t, i); }
    }
    MapEqual(r, m);
  }

  lemma {:induction false} RemoveIsDelete(cfg: Config, t: Table, k: Key)
    requires WellFormed(cfg.hash, t)
    ensures AsMap(Remove(cfg, t, k)) == AsMap(t) - {k}
    ensures KeysOf(Remove(cfg, t, k).items) == if k in KeysOf(t.items) then Delete(KeysOf(t.items), IndexOf(KeysOf(t.items), k))
                                               else KeysOf(t.items)
  {
    hide Bucket, AsMap;
    var r := Remove(cfg, t, k);
    RemoveWellFormed(cfg, t, k);
    MapKeys(t);
    var m := AsMap(t) - {k};
    var ks := KeysOf(t.items);
    assert k in ks <==> k in t.chains[Bucket(cfg.hash, t.bits, k)];
    if k in ks { KeysDelete(t.items, IndexOf(ks, k)); UniqueDelete(ks, IndexOf(ks, k)); }
    forall i | 0 <= i < |r.items| ensures r.items[i].key in m && m[r.items[i].key] == r.items[i].data {
      var j := if k in ks && i >= IndexOf(ks, k) then i + 1 else i;
      MapAt(t, j);
      assert r.items[i] == t.items[j] && ks[j] == t.items[j].key;
    }
    MapEqual(r, m);
  }

  lemma {:induction false} AddIsUpdate(hash: Key -> u32, t: Table, k: Key, d: Pointer, r: Table)
    requires Unique(KeysOf(t.items)) && k !in KeysOf(t.items) && r.items == t.items + [Item(k, d)]
    ensures AsMap(r) == AsMap(t)[k := d]
  {
    hide AsMap, IndexOf;
    var m := AsMap(t)[k := d];
    MapKeys(t);
    assert KeysOf(r.items) == KeysOf(t.items) + [k];
    forall i | 0 <= i < |r.items| ensures r.items[i].key in m && m[r.items[i].key] == r.items[i].data {
      if i < |t.items| {
        MapAt(t, i);
        assert KeysOf(t.items)[i] == t.items[i].key;
      }
    }
    MapEqual(r, m);
  }

  lemma {:induction false} PlaceIsUpdate(cfg: Config, t: Table, k: Key, d: Pointer)
    requires WellFormed(cfg.hash, t) && k !in KeysOf(t.items)
    ensures AsMap(Place(cfg, t, k, d)) == (if Full(cfg, t, k) then AsMap(t) - {Victim(cfg, t, k)} else AsMap(t))[k := d]
    ensures Lookup(Place(cfg, t, k, d), k) == d
  {
    hide Bucket, AsMap, Lookup, IndexOf;
    var p := Place(cfg, t, k, d);
    PlaceWellFormed(cfg, t, k, d);
    if Full(cfg, t, k) {
      var v := Victim(cfg, t, k);
      EvictIsRemove(cfg, t, k, d);
      RemoveIsDelete(cfg, t, v);
      RemoveWellFormed(cfg, t, v);
      StillAbsent(t.items, v, k);
      AddIsUpdate(cfg.hash, Remove(cfg, t, v), k, d, p);
    } else {
      AddIsUpdate(cfg.hash, t, k, d, p);
    }
    LookupAt(p, |p.items| - 1);
  }

  /** Insertion binds a new key, at the price of a full bucket's last entry; a present key and its
      data stay as they are. A rehash on the way goes unnoticed exactly if no data pointer is null. */
  lemma {:induction false} InsertIsAdd(cfg: Config, t: Table, k: Key, d: Pointer)
    requires WellFormed(cfg.hash, t)
    ensures var s := Grown(cfg, t, k);
      var m := AsMap(s);
      |s.chains| == Pow2(s.bits) &&
      AsMap(Insert(cfg, t, k, d)) == (if k in m then m else (if Full(cfg, s, k) then m - {Victim(cfg, s, k)} else m)[k := d])
    ensures var s := Grown(cfg, t, k);
      if MustGrow(cfg, t, k) && exists i :: 0 <= i < |t.items| && t.items[i].data == NULL then |s.items| < |t.items|
      else AsMap(s) == AsMap(t) && s.items == t.items
  {
    hide Bucket, KeysOf, Rehash, Place, Full, Lookup, WellFormed, AsMap, Victim;
    var n := 2 * Pow2(t.bits);
    var s := Grown(cfg, t, k);
    RehashKeeps(cfg, t, n);
    KeysPrefix(t.items, |Walked(t.items)|);
    SizeOk(cfg.hash, s);
    MapKeys(s);
    SizeOk(cfg.hash, t);
    NotInChain(cfg.hash, t, k);
    if s.items == t.items { SameItems(t, s); }
    if k !in KeysOf(t.items) { PlaceIsUpdate(cfg, s, k, d); }
  }

  lemma {:induction false} NotInChain(hash: Key -> u32, t: Table, k: Key)
    requires WellFormed(hash, t)
    ensures k in KeysOf(t.items) <==> k in t.chains[Bucket(hash, t.bits, k)]
  {
  }

  lemma {:induction false} SameItems(t: Table, r: Table)
    requires r.items == t.items
    ensures AsMap(r) == AsMap(t)
  {
  }

  // ----- counts -----

  function Total(chains: seq<seq<Key>>): nat {
    if chains == [] then 0 else Total(chains[..|chains| - 1]) + |chains[|chains| - 1]|
  }

  ghost function KeysBelow(chains: seq<seq<Key>>): set<Key> {
    set b, k | 0 <= b < |chains| && k in chains[b] :: k
  }

  lemma {:induction false} UniqueCount(c: seq<Key>)
    requires Unique(c)
    ensures |set k | k in c| == |c|
  {
    if c != [] {
      var last := |c| - 1;
      UniqueCount(c[..last]);
      assert (set k | k in c) == (set k | k in c[..last]) + {c[last]};
    }
  }

  lemma {:induction false} KeysBelowStep(chains: seq<seq<Key>>)
    requires chains != [] && forall a, b, k :: 0 <= a < b < |chains| && k in chains[a] ==> k !in chains[b]
    ensures var last := |chains| - 1;
      var added := set k | k in chains[last];
      KeysBelow(chains) == KeysBelow(chains[..last]) + added && KeysBelow(chains[..last]) !! added
  {
  }

  lemma {:induction false} NoneBelow()
    ensures KeysBelow([]) == {}
  {
  }

  lemma {:induction false} CountDisjoint(a: set<Key>, b: set<Key>)
    requires a !! b
    ensures |a + b| == |a| + |b|
  {
  }

  lemma {:induction false} DisjointCount(chains: seq<seq<Key>>)
    requires forall b :: 0 <= b < |chains| ==> Unique(chains[b])
    requires forall a, b, k :: 0 <= a < b < |chains| && k in chains[a] ==> k !in chains[b]
    ensures |KeysBelow(chains)| == Total(chains)
  {
    hide Unique, KeysBelow;
    if chains == [] {
      NoneBelow();
    } else {
      var last := |chains| - 1;
      DisjointCount(chains[..last]);
      UniqueCount(chains[last]);
      KeysBelowStep(chains);
      CountDisjoint(KeysBelow(chains[..last]), set k | k in chains[last]);
    }
  }

  /** The entry counts of the buckets add up to the number of items. */
  lemma {:induction false} CountsAddUp(hash: Key -> u32, t: Table)
    requires WellFormed(hash, t)
    ensures Total(t.chains) == |t.items|
  {
    hide Bucket, Total, KeysOf;
    forall a, b, k | 0 <= a < b < |t.chains| && k in t.chains[a] ensures k !in t.chains[b] {
      assert Bucket(hash, t.bits, k) == a;
    }
    DisjointCount(t.chains);
    UniqueCount(KeysOf(t.items));
    assert KeysBelow(t.chains) == set k | k in KeysOf(t.items);
  }
}
