/** libghthash as the source has it: entries linked into a bucket chain and into an age list at once,
    relinked in place, proved against TableSpec. */
module HashTable {
  import opened Words
  import opened TableSpec

  /** ght_hash_entry_t. */
  class Entry {
    const key: Key
    var data: Pointer
    var next: Entry?
    var prev: Entry?
    var older: Entry?
    var newer: Entry?

    /** he_create. */
    constructor (key: Key, data: Pointer)
      ensures this.key == key && this.data == data
      ensures next == null && prev == null && older == null && newer == null
    {
      this.key, this.data := key, data;
      next, prev, older, newer := null, null, null, null;
    }
  }

  // ----- lists -----

  function At(c: seq<Entry>, i: int): Entry? { if 0 <= i < |c| then c[i] else null }

  ghost predicate Distinct(c: seq<Entry>) { forall i, j :: 0 <= i < j < |c| ==> c[i] != c[j] }

  ghost predicate Disjoint(c: seq<Entry>, d: seq<Entry>) { forall i :: 0 <= i < |c| ==> c[i] !in d }

  /** Every chained entry is in a. */
  ghost predicate Within(chains: seq<seq<Entry>>, a: seq<Entry>) {
    forall b :: 0 <= b < |chains| ==> forall i :: 0 <= i < |chains[b]| ==> chains[b][i] in a
  }

  /** First entries and entry counts of the chains. */
  ghost predicate Headed(heads: seq<Entry?>, counts: seq<int>, chains: seq<seq<Entry>>)
    requires |heads| == |chains| == |counts|
  {
    forall b :: 0 <= b < |chains| ==> heads[b] == At(chains[b], 0) && counts[b] == |chains[b]|
  }

  lemma {:induction false} HeadedUpdate(heads: seq<Entry?>, counts: seq<int>, chains: seq<seq<Entry>>, l: nat, c: seq<Entry>)
    requires |heads| == |chains| == |counts| && Headed(heads, counts, chains) && l < |chains|
    ensures Headed(heads[l := At(c, 0)], counts[l := |c|], chains[l := c])
    ensures heads[l] == At(chains[l], 0) && counts[l] == |chains[l]|
  {
  }

  /** c is linked by next and prev. */
  ghost predicate Chained(c: seq<Entry>)
    reads c`next, c`prev
  {
    forall i {:trigger c[i].next} {:trigger c[i].prev} :: 0 <= i < |c| ==> c[i].next == At(c, i + 1) && c[i].prev == At(c, i - 1)
  }

  ghost predicate AllChained(chains: seq<seq<Entry>>, a: seq<Entry>)
    reads a`next, a`prev
    requires Within(chains, a)
  {
    forall b :: 0 <= b < |chains| ==> Chained(chains[b])
  }

  lemma {:induction false} AllChainedIn(chains: seq<seq<Entry>>, a: seq<Entry>, a': seq<Entry>)
    requires Within(chains, a) && Within(chains, a') && AllChained(chains, a)
    ensures AllChained(chains, a')
  {
    hide Chained, Within;
  }

  lemma {:induction false} WithinLess(chains: seq<seq<Entry>>, a: seq<Entry>, j: nat)
    requires j < |a| && Within(chains, Delete(a, j))
    ensures Within(chains, a)
  {
  }

  /** a is linked by older and newer, oldest first. */
  ghost predicate Aged(a: seq<Entry>)
    reads a`older, a`newer
  {
    forall i {:trigger a[i].newer} {:trigger a[i].older} :: 0 <= i < |a| ==> a[i].newer == At(a, i + 1) && a[i].older == At(a, i - 1)
  }

  function Keys(c: seq<Entry>): (r: seq<Key>)
    ensures |r| == |c| && forall i :: 0 <= i < |r| ==> r[i] == c[i].key
  {
    seq(|c|, i requires 0 <= i < |c| => c[i].key)
  }

  ghost function Items(a: seq<Entry>): (r: seq<Item>)
    reads a`data
    ensures |r| == |a| && forall i :: 0 <= i < |r| ==> r[i] == Item(a[i].key, a[i].data)
  {
    if a == [] then [] else Items(a[..|a| - 1]) + [Item(a[|a| - 1].key, a[|a| - 1].data)]
  }

  function KeyChains(chains: seq<seq<Entry>>): (r: seq<seq<Key>>)
    ensures |r| == |chains| && forall b :: 0 <= b < |r| ==> r[b] == Keys(chains[b])
  {
    seq(|chains|, b requires 0 <= b < |chains| => Keys(chains[b]))
  }

  /** ght_hash_table_t. */
  class Table {
    var items: nat
    var size: nat
    var mask: nat
    var hash: Key -> u32
    var heuristics: Heuristics
    var automaticRehash: bool
    var bucketLimit: nat
    var buckets: array<Entry?>
    var nr: array<int>
    var oldest: Entry?
    var newest: Entry?
    ghost var bits: nat
    ghost var chains: seq<seq<Entry>>
    ghost var ages: seq<Entry>

    ghost function Cfg(): Config
      reads this
    {
      Config(hash, heuristics, bucketLimit, automaticRehash)
    }

    ghost function Model(): TableSpec.Table
      reads this, ages
    {
      TableSpec.Table(bits, KeyChains(chains), Items(ages))
    }

    ghost predicate Sizes()
      reads this
    {
      size == Pow2(bits) && mask == size - 1 && items == |ages| &&
      buckets.Length == size && nr.Length == size && |chains| == size && (buckets as object) != nr
    }

    ghost predicate Members()
      reads this
    {
      Within(chains, ages)
    }

    ghost predicate Heads()
      reads this, buckets, nr
      requires Sizes()
    {
      Headed(buckets[..], nr[..], chains)
    }

    ghost predicate Links()
      reads this, ages`next, ages`prev
      requires Members()
    {
      AllChained(chains, ages)
    }

    ghost predicate Ends()
      reads this, ages`older, ages`newer
    {
      Aged(ages) && oldest == At(ages, 0) && newest == At(ages, |ages| - 1)
    }

    /** The pointers: arrays of the right size, every chain and the age list linked both ways, the
        same entries on both, the counters right. */
    ghost predicate Shape()
      reads this, buckets, nr, ages
    {
      Sizes() && Members() && Heads() && Links() && Ends()
    }

    ghost predicate Valid()
      reads this, buckets, nr, ages
    {
      Shape() && WellFormed(hash, Model())
    }

    // ----- what the invariant says about entries -----

    lemma {:induction false} ChainDistinct(b: nat)
      requires Valid() && b < |chains|
      ensures Distinct(chains[b])
    {
      assert Unique(KeyChains(chains)[b]);
      assert forall i :: 0 <= i < |chains[b]| ==> Keys(chains[b])[i] == chains[b][i].key;
    }

    lemma {:induction false} AgesDistinct()
      requires Valid()
      ensures Distinct(ages) && forall i, j :: 0 <= i < j < |ages| ==> ages[i].key != ages[j].key
    {
      assert forall i :: 0 <= i < |ages| ==> KeysOf(Items(ages))[i] == ages[i].key;
    }

    /** An entry sits in the chain its key hashes to and in no other. */
    lemma {:induction false} InBucket(b: nat, e: Entry)
      requires Valid() && b < |chains| && e in chains[b]
      ensures b == Bucket(hash, bits, e.key) && e in ages && e.key in Keys(chains[b])
    {
      var i :| 0 <= i < |chains[b]| && chains[b][i] == e;
      assert Keys(chains[b])[i] == e.key;
      assert e.key in KeyChains(chains)[b];
    }

    lemma {:induction false} Apart(b: nat)
      requires Valid() && b < |chains|
      ensures forall j :: 0 <= j < |chains| && j != b ==> Disjoint(chains[j], chains[b])
    {
      forall j | 0 <= j < |chains| && j != b ensures Disjoint(chains[j], chains[b]) {
        forall i | 0 <= i < |chains[j]| ensures chains[j][i] !in chains[b] {
          InBucket(j, chains[j][i]);
          if chains[j][i] in chains[b] { InBucket(b, chains[j][i]); }
        }
      }
    }

    // ----- relinking -----

    /** One up in its list. */
    method Transpose(l: nat, p: Entry, ghost c: seq<Entry>, ghost i: nat)
      requires l < buckets.Length && i < |c| && p == c[i] && Distinct(c) && Chained(c) && buckets[l] == At(c, 0)
      modifies buckets, c`next, c`prev
      ensures Chained(Touched(Heuristics.Transpose, c, i))
      ensures buckets[..] == old(buckets[..])[l := At(Touched(Heuristics.Transpose, c, i), 0)]
    {
      if p.prev != null {
        var x: Entry := p.prev;
        var a := x.prev;
        var b := p.next;
        assert x == c[i - 1] && a == At(c, i - 2) && b == At(c, i + 1);
        if a != null {
          a.next := p;
        } else {
          buckets[l] := p;
        }
        if b != null {
          b.prev := x;
        }
        x.next := p.next;
        x.prev := p;
        p.next := x;
        p.prev := a;
      }
    }

    method MoveToFront(l: nat, p: Entry, ghost c: seq<Entry>, ghost i: nat)
      requires l < buckets.Length && i < |c| && p == c[i] && Distinct(c) && Chained(c) && buckets[l] == At(c, 0)
      modifies buckets, c`next, c`prev
      ensures Chained(Touched(Heuristics.MoveToFront, c, i))
      ensures buckets[..] == old(buckets[..])[l := At(Touched(Heuristics.MoveToFront, c, i), 0)]
    {
      ghost var r := Touched(Heuristics.MoveToFront, c, i);
      if p == buckets[l] {
        assert i == 0 && r == c;
        return;
      }
      assert p.prev == c[i - 1] && p.next == At(c, i + 1) && buckets[l] == c[0];
      p.prev.next := p.next;
      if p.next != null {
        p.next.prev := p.prev;
      }
      p.next := buckets[l];
      p.prev := null;
      buckets[l].prev := p;
      buckets[l] := p;
    }

    /** Takes p off its chain and off the age list; its own links stay. */
    method RemoveFromChain(l: nat, p: Entry, ghost c: seq<Entry>, ghost i: nat, ghost j: nat)
      requires l < buckets.Length && i < |c| && p == c[i] && Distinct(c) && Chained(c) && buckets[l] == At(c, 0)
      requires j < |ages| && p == ages[j] && Distinct(ages) && Aged(ages)
      requires oldest == At(ages, 0) && newest == At(ages, |ages| - 1)
      modifies this`oldest, this`newest, buckets, c`next, c`prev, ages`older, ages`newer
      ensures Chained(Delete(c, i)) && buckets[..] == old(buckets[..])[l := At(Delete(c, i), 0)]
      ensures Aged(Delete(ages, j)) && oldest == At(Delete(ages, j), 0) && newest == At(Delete(ages, j), |ages| - 2)
    {
      UnlinkChain(l, p, c, i);
      UnlinkAge(p, j);
    }

    method UnlinkChain(l: nat, p: Entry, ghost c: seq<Entry>, ghost i: nat)
      requires l < buckets.Length && i < |c| && p == c[i] && Distinct(c) && Chained(c) && buckets[l] == At(c, 0)
      modifies buckets, c`next, c`prev
      ensures Chained(Delete(c, i)) && buckets[..] == old(buckets[..])[l := At(Delete(c, i), 0)]
    {
      assert p.prev == At(c, i - 1) && p.next == At(c, i + 1);
      if p.prev != null {
        p.prev.next := p.next;
      } else {
        buckets[l] := p.next;
      }
      if p.next != null {
        p.next.prev := p.prev;
      }
    }

    method UnlinkAge(p: Entry, ghost j: nat)
      requires j < |ages| && p == ages[j] && Distinct(ages) && Aged(ages)
      requires oldest == At(ages, 0) && newest == At(ages, |ages| - 1)
      modifies this`oldest, this`newest, ages`older, ages`newer
      ensures Aged(Delete(ages, j)) && oldest == At(Delete(ages, j), 0) && newest == At(Delete(ages, j), |ages| - 2)
    {
      assert p.older == At(ages, j - 1) && p.newer == At(ages, j + 1);
      if p.older != null {
        p.older.newer := p.newer;
      } else {
        oldest := p.newer;
      }
      if p.newer != null {
        p.newer.older := p.older;
      } else {
        newest := p.older;
      }
    }

    // ----- lookup -----

    method TouchChain(l: nat, p: Entry, h: Heuristics, ghost c: seq<Entry>, ghost i: nat)
      requires l < buckets.Length && i < |c| && p == c[i] && Distinct(c) && Chained(c) && buckets[l] == At(c, 0)
      modifies buckets, c`next, c`prev
      ensures Chained(Touched(h, c, i))
      ensures buckets[..] == old(buckets[..])[l := At(Touched(h, c, i), 0)]
    {
      hide Chained, Distinct;
      match h
      case NoHeuristics => assert Touched(h, c, i) == c;
      case Transpose => Transpose(l, p, c, i);
      case MoveToFront => MoveToFront(l, p, c, i);
    }

    /** Relinking one chain leaves the others linked. */
    method TouchLinks(l: nat, p: Entry, h: Heuristics, ghost i: nat)
      requires Valid() && l < |chains| && i < |chains[l]| && p == chains[l][i]
      modifies buckets, chains[l]`next, chains[l]`prev
      ensures Chained(Touched(h, chains[l], i))
      ensures buckets[..] == old(buckets[..])[l := At(Touched(h, chains[l], i), 0)]
      ensures forall b :: 0 <= b < |chains| && b != l ==> Chained(chains[b])
    {
      hide WellFormed, Bucket, Touched, Chained, Aged, Model;
      ChainDistinct(l);
      Apart(l);
      TouchChain(l, p, h, chains[l], i);
      forall b | 0 <= b < |chains| && b != l ensures Chained(chains[b]) {
        assert old(Chained(chains[b])) && Disjoint(chains[b], chains[l]);
      }
    }

    /** The heuristics applied to the i-th entry of a chain. */
    method Touch(l: nat, p: Entry, h: Heuristics, ghost i: nat)
      requires Valid() && l < |chains| && i < |chains[l]| && p == chains[l][i]
      modifies this`chains, buckets, chains[l]`next, chains[l]`prev
      ensures Valid() && chains == old(chains)[l := Touched(h, old(chains[l]), i)]
      ensures Items(ages) == old(Items(ages))
    {
      hide WellFormed, Bucket, Touched, KeysOf, Chained, Aged, Items, Headed;
      ghost var before := Model();
      ghost var c, r := chains[l], Touched(h, chains[l], i);
      TouchedEntries(h, c, i);
      HeadedUpdate(buckets[..], nr[..], chains, l, r);
      TouchLinks(l, p, h, i);
      chains := chains[l := r];
      assert Members();
      assert nr[..] == old(nr[..])[l := |c|];
      assert Links();
      KeyChainsUpdate(old(chains), l, r);
      TouchWellFormed(hash, before, h, l, i);
    }

    /** search_in_bucket. */
    method SearchInBucket(l: nat, key: Key, h: Heuristics) returns (p: Entry?)
      requires Valid() && l == Bucket(hash, bits, key)
      modifies this`chains, buckets, chains[l]`next, chains[l]`prev
      ensures Valid() && Items(ages) == old(Items(ages))
      ensures |chains| == old(|chains|) && KeyChains(chains) == old(KeyChains(chains))[l := Searched(h, Keys(old(chains[l])), key)]
      ensures p == null <==> key !in Keys(old(chains[l]))
      ensures p != null ==> p in chains[l] && p.key == key
      ensures h == NoHeuristics ==> chains == old(chains)
    {
      hide Bucket, Touched, KeysOf, Chained, Aged, Items, WellFormed;
      ghost var c := chains[l];
      ghost var i;
      p, i := FindInChain(buckets[l], key, c);
      if p != null {
        FoundAt(c, key, i);
        TouchedEntries(h, c, i);
        KeyChainsUpdate(chains, l, Touched(h, c, i));
        Touch(l, p, h, i);
      } else {
        assert key !in Keys(c);
      }
    }

    /** Where an entry found in a chain sits in the age list, and what the model says of its key. */
    lemma {:induction false} Locate(l: nat, p: Entry) returns (i: nat, j: nat)
      requires Valid() && l < |chains| && p in chains[l]
      ensures i < |chains[l]| && chains[l][i] == p && i == IndexOf(Keys(chains[l]), p.key)
      ensures j < |ages| && ages[j] == p && j == IndexOf(KeysOf(Items(ages)), p.key)
      ensures p.key in KeysOf(Items(ages)) && Lookup(Model(), p.key) == p.data
    {
      hide IndexOf, Bucket, Shape;
      i :| 0 <= i < |chains[l]| && chains[l][i] == p;
      assert Unique(KeyChains(chains)[l]);
      FirstIndex(Keys(chains[l]), i);
      InBucket(l, p);
      j :| 0 <= j < |ages| && ages[j] == p;
      FirstIndex(KeysOf(Items(ages)), j);
    }

    lemma {:induction false} Absent(l: nat, key: Key)
      requires Valid() && l == Bucket(hash, bits, key)
      ensures l < |chains| && (key in Keys(chains[l]) <==> key in KeysOf(Items(ages)))
      ensures key !in Keys(chains[l]) ==> Lookup(Model(), key) == NULL
    {
      hide Bucket, IndexOf, KeysOf;
      assert KeyChains(chains)[l] == Keys(chains[l]);
    }

    /** Bucket and entry of a key: how every operation starts. */
    method Find(key: Key, h: Heuristics) returns (l: nat, p: Entry?)
      requires Valid()
      modifies this`chains, buckets, ages`next, ages`prev
      ensures Valid() && Items(ages) == old(Items(ages)) && |chains| == old(|chains|)
      ensures KeyChains(chains) == Search(Cfg().(heuristics := h), old(Model()), key).chains
      ensures l == Bucket(hash, bits, key) && (p == null <==> key !in KeysOf(Items(ages)))
      ensures p != null ==> l < |chains| && p in chains[l] && p.key == key
      ensures h == NoHeuristics ==> chains == old(chains)
    {
      hide WellFormed, KeysOf, Chained, Aged, IndexOf, Keys, Searched, Items, Lookup, Touched;
      l := Bitwise(BitAnd, hash(key), mask);
      assert l == Bucket(hash, bits, key);
      hide Bucket;
      Absent(l, key);
      p := SearchInBucket(l, key, h);
    }

    /** ght_get. */
    method Get(key: Key) returns (d: Pointer)
      requires Valid()
      modifies this`chains, buckets, ages`next, ages`prev
      ensures Valid() && Model() == Search(Cfg(), old(Model()), key)
      ensures d == Lookup(Model(), key)
    {
      hide WellFormed, KeysOf, Chained, Aged, IndexOf, Keys, Shape, Searched, Items, Lookup, Bucket;
      var l, p := Find(key, heuristics);
      Absent(l, key);
      if p == null {
        return NULL;
      }
      ghost var i, j := Locate(l, p);
      return p.data;
    }

    /** ght_replace: the old data, or null for an absent key. */
    method Replace(key: Key, data: Pointer) returns (d: Pointer)
      requires Valid()
      modifies this`chains, buckets, ages`next, ages`prev, ages`data
      ensures Valid() && Model() == TableSpec.Replace(Cfg(), old(Model()), key, data)
      ensures d == Lookup(old(Model()), key)
    {
      hide WellFormed, Chained, Aged, IndexOf, Keys, Searched, Bucket, Shape, Items, KeysOf, Distinct, KeyChains;
      ghost var before := Model();
      var l, p := Find(key, heuristics);
      Absent(l, key);
      if p == null {
        return NULL;
      }
      ghost var i, j := Locate(l, p);
      AgesDistinct();
      d := p.data;
      SetData(p, data, j);
      ReplaceWellFormed(Cfg(), before, key, data);
    }

    method SetData(p: Entry, data: Pointer, ghost j: nat)
      requires Shape() && j < |ages| && ages[j] == p && Distinct(ages)
      modifies p`data
      ensures Shape() && Items(ages) == old(Items(ages))[j := Item(p.key, data)]
    {
      hide Sizes, Members, Heads, Links, Ends;
      p.data := data;
    }

    // ----- removal -----

    /** Both lists without p; the other chains stay linked. */
    method Unlink(l: nat, p: Entry, ghost i: nat, ghost j: nat)
      requires Valid() && l < |chains| && i < |chains[l]| && chains[l][i] == p && j < |ages| && ages[j] == p
      modifies this`oldest, this`newest, buckets, chains[l]`next, chains[l]`prev, ages`older, ages`newer
      ensures Chained(Delete(chains[l], i)) && buckets[..] == old(buckets[..])[l := At(Delete(chains[l], i), 0)]
      ensures Aged(Delete(ages, j)) && oldest == At(Delete(ages, j), 0) && newest == At(Delete(ages, j), |ages| - 2)
      ensures Within(chains[l := Delete(chains[l], i)], ages) && AllChained(chains[l := Delete(chains[l], i)], ages)
    {
      hide WellFormed, Bucket, Chained, Aged, Model, Distinct;
      ChainDistinct(l);
      AgesDistinct();
      Apart(l);
      RemoveFromChain(l, p, chains[l], i, j);
      ghost var cs := chains[l := Delete(chains[l], i)];
      forall b | 0 <= b < |cs| ensures Chained(cs[b]) {
        assert b != l ==> old(Chained(chains[b])) && Disjoint(chains[b], chains[l]);
      }
    }

    /** ght_remove: the data of the removed entry, or null. */
    method Remove(key: Key) returns (d: Pointer)
      requires Valid()
      modifies this`chains, this`ages, this`items, this`oldest, this`newest, buckets, nr
      modifies ages`next, ages`prev, ages`older, ages`newer
      ensures Valid() && Model() == TableSpec.Remove(Cfg(), old(Model()), key)
      ensures d == Lookup(old(Model()), key) && forall i :: 0 <= i < |ages| ==> ages[i] in old(ages)
    {
      hide WellFormed, Chained, Aged, IndexOf, Keys, Searched, Bucket, Shape, Items, KeysOf, Distinct, KeyChains;
      var l, p := Find(key, NoHeuristics);
      Absent(l, key);
      if p == null {
        return NULL;
      }
      ghost var i, j := Locate(l, p);
      d := p.data;
      ChainInAges(l);
      TakeOut(l, p, i, j);
    }

    lemma {:induction false} ChainInAges(l: nat)
      requires Valid() && l < |chains|
      ensures forall i :: 0 <= i < |chains[l]| ==> chains[l][i] in ages
    {
    }

    method TakeOut(l: nat, p: Entry, ghost i: nat, ghost j: nat)
      requires Valid() && l == Bucket(hash, bits, p.key) && l < |chains| && p in chains[l]
      requires i < |chains[l]| && chains[l][i] == p && i == IndexOf(Keys(chains[l]), p.key)
      requires j < |ages| && ages[j] == p && j == IndexOf(KeysOf(Items(ages)), p.key) && p.key in KeysOf(Items(ages))
      modifies this`chains, this`ages, this`items, this`oldest, this`newest, buckets, nr
      modifies chains[l]`next, chains[l]`prev, ages`older, ages`newer
      ensures Valid() && Model() == TableSpec.Remove(Cfg(), old(Model()), p.key)
      ensures forall i :: 0 <= i < |ages| ==> ages[i] in old(ages)
    {
      hide WellFormed, Bucket, IndexOf, Items, KeysOf, Shape, Keys, KeyChains;
      ghost var before := Model();
      ghost var c, a := chains[l], ages;
      KeyChainsUpdate(chains, l, Delete(c, i));
      KeysDeleted(c, i);
      InBucket(l, p);
      assert forall k :: 0 <= k < |a| - 1 ==> Delete(a, j)[k] in a;
      Detach(l, p, i, j);
      ItemsDeleted(a, j);
      RemoveWellFormed(Cfg(), before, p.key);
    }

    method Detach(l: nat, p: Entry, ghost i: nat, ghost j: nat)
      requires Valid() && l < |chains| && i < |chains[l]| && chains[l][i] == p && j < |ages| && ages[j] == p
      modifies this`chains, this`ages, this`items, this`oldest, this`newest, buckets, nr
      modifies chains[l]`next, chains[l]`prev, ages`older, ages`newer
      ensures Shape() && chains == old(chains)[l := Delete(old(chains[l]), i)] && ages == Delete(old(ages), j)
    {
      hide WellFormed, AllChained, Aged, Model, Within, Headed, Delete;
      ghost var cs, a := chains[l := Delete(chains[l], i)], Delete(ages, j);
      DetachLinks(l, p, i, j, cs, a);
      chains, ages := cs, a;
    }

    method DetachLinks(l: nat, p: Entry, ghost i: nat, ghost j: nat, ghost cs: seq<seq<Entry>>, ghost a: seq<Entry>)
      requires Valid() && l < |chains| && i < |chains[l]| && chains[l][i] == p && j < |ages| && ages[j] == p
      requires cs == chains[l := Delete(chains[l], i)] && a == Delete(ages, j)
      modifies this`items, this`oldest, this`newest, buckets, nr
      modifies chains[l]`next, chains[l]`prev, ages`older, ages`newer
      ensures items == |a| && Within(cs, a) && AllChained(cs, a) && Headed(buckets[..], nr[..], cs)
      ensures Aged(a) && oldest == At(a, 0) && newest == At(a, |a| - 1)
    {
      hide WellFormed, Chained, AllChained, Aged, Bucket, Model, Distinct, Within, Disjoint, Headed;
      ghost var c := chains[l];
      Apart(l);
      ChainDistinct(l);
      WithinDelete(chains, ages, l, i, j);
      WithinLess(cs, ages, j);
      HeadedUpdate(buckets[..], nr[..], chains, l, Delete(c, i));
      Unlink(l, p, i, j);
      Uncount(l);
      AllChainedIn(cs, ages, a);
    }

    method Uncount(l: nat)
      requires l < nr.Length && items > 0
      modifies this`items, nr
      ensures items == old(items) - 1 && nr[..] == old(nr[..])[l := old(nr[..])[l] - 1]
    {
      items := items - 1;
      nr[l] := nr[l] - 1;
    }

    // ----- insertion -----

    method LinkFirst(l: nat, e: Entry, ghost c: seq<Entry>)
      requires l < buckets.Length && Distinct(c) && e !in c && Chained(c) && buckets[l] == At(c, 0)
      modifies buckets, e`next, e`prev, c`prev
      ensures Chained([e] + c) && buckets[..] == old(buckets[..])[l := e]
    {
      e.next := buckets[l];
      e.prev := null;
      if buckets[l] != null {
        buckets[l].prev := e;
      }
      buckets[l] := e;
    }

    /** The entry becomes the newest. */
    method AppendAge(e: Entry, ghost a: seq<Entry>)
      requires Distinct(a) && e !in a && Aged(a) && oldest == At(a, 0) && newest == At(a, |a| - 1) && e.newer == null
      modifies this`oldest, this`newest, e`older, a`newer
      ensures Aged(a + [e]) && oldest == At(a + [e], 0) && newest == e
    {
      if oldest == null {
        oldest := e;
      }
      e.older := newest;
      if newest != null {
        newest.newer := e;
      }
      newest := e;
    }

    /** The chain of bucket l and the age list, both linked. */
    ghost predicate Lists(l: nat, c: seq<Entry>, a: seq<Entry>)
      reads this`buckets, this`oldest, this`newest, buckets, c`next, c`prev, a`older, a`newer
    {
      l < buckets.Length && Distinct(c) && Chained(c) && buckets[l] == At(c, 0) &&
      Distinct(a) && Aged(a) && oldest == At(a, 0) && newest == At(a, |a| - 1)
    }

    /** Off with the last entry of a chain: it becomes the chain without its end. */
    method EvictLast(l: nat, ghost c: seq<Entry>, ghost j: nat)
      requires Lists(l, c, ages) && |c| > 1 && j < |ages| && ages[j] == c[|c| - 1]
      modifies this`oldest, this`newest, buckets, c`next, c`prev, ages`older, ages`newer
      ensures Lists(l, c[..|c| - 1], Delete(ages, j)) && buckets[..] == old(buckets[..])
    {
      hide Chained, Aged;
      var p := LastOf(buckets[l], c);
      RemoveFromChain(l, p, c, |c| - 1, j);
      assert Delete(c, |c| - 1) == c[..|c| - 1];
    }

    method LastOf(first: Entry?, ghost c: seq<Entry>) returns (p: Entry)
      requires Chained(c) && |c| > 0 && first == c[0]
      ensures p == c[|c| - 1]
    {
      p := first;
      ghost var i := 0;
      while p.next != null
        invariant 0 <= i < |c| && p == c[i]
        decreases |c| - i
      {
        p, i := p.next, i + 1;
      }
    }

    method Count(l: nat)
      requires l < nr.Length
      modifies this`items, nr
      ensures items == old(items) + 1 && nr[..] == old(nr[..])[l := old(nr[..])[l] + 1]
    {
      nr[l] := nr[l] + 1;
      items := items + 1;
    }

    ghost predicate FullBucket(l: nat)
      reads this, nr
      requires l < nr.Length
    {
      bucketLimit != 0 && nr[l] >= bucketLimit
    }

    method LinkFirstOf(l: nat, e: Entry, ghost c: seq<Entry>)
      requires Lists(l, c, ages) && e !in c
      modifies buckets, e`next, e`prev, c`prev
      ensures Lists(l, [e] + c, ages) && buckets[..] == old(buckets[..])[l := e]
    {
      hide Chained, Aged;
      DistinctCons(e, c);
      LinkFirst(l, e, c);
    }

    /** Links a new entry into its chain; a full bucket drops its last one. */
    method PlaceInChain(l: nat, e: Entry, ghost c: seq<Entry>, ghost j: nat)
      requires Lists(l, c, ages) && e !in c && l < nr.Length && (buckets as object) != nr && nr[l] == |c|
      requires FullBucket(l) ==> |c| > 0 && j < |ages| && ages[j] == c[|c| - 1]
      modifies this`items, this`oldest, this`newest, buckets, nr
      modifies e`next, e`prev, c`next, c`prev, ages`older, ages`newer
      ensures buckets[..] == old(buckets[..])[l := e]
      ensures old(FullBucket(l)) ==> Lists(l, ([e] + c)[..|c|], Delete(ages, j)) && nr[..] == old(nr[..]) && items == old(items)
      ensures !old(FullBucket(l)) ==>
        Lists(l, [e] + c, ages) && nr[..] == old(nr[..])[l := |c| + 1] && items == old(items) + 1
    {
      hide Lists, Delete;
      ghost var d := [e] + c;
      LinkFirstOf(l, e, c);
      if bucketLimit != 0 && nr[l] >= bucketLimit {
        assert d[|d| - 1] == c[|c| - 1];
        EvictLast(l, d, j);
      } else {
        Count(l);
      }
    }

    /** The new chain of bucket l. */
    static function PlacedChain(full: bool, e: Entry, c: seq<Entry>): (r: seq<Entry>) {
      if full then ([e] + c)[..|c|] else [e] + c
    }

    /** The age list without the entry a full bucket gives up. */
    static function Spared(full: bool, a: seq<Entry>, j: nat): (r: seq<Entry>) {
      if full && j < |a| then Delete(a, j) else a
    }

    /** The last entry of a full chain is the j-th oldest. */
    ghost predicate VictimAt(full: bool, l: nat, j: nat)
      reads this
      requires l < |chains|
    {
      full ==> |chains[l]| > 0 && j < |ages| && ages[j] == chains[l][|chains[l]| - 1]
    }

    /** The state once the new chains and ages are in place. */
    ghost predicate Ready(cs: seq<seq<Entry>>, a: seq<Entry>)
      reads this`items, this`oldest, this`newest, this`buckets, this`nr, buckets, nr, a`next, a`prev, a`older, a`newer
    {
      items == |a| && |cs| == buckets.Length == nr.Length &&
      Within(cs, a) && AllChained(cs, a) && Headed(buckets[..], nr[..], cs) &&
      Aged(a) && oldest == At(a, 0) && newest == At(a, |a| - 1)
    }

    /** Every chain but that of bucket l is linked. */
    ghost predicate Others(l: nat)
      reads this, ages`next, ages`prev
      requires Members()
    {
      forall b :: 0 <= b < |chains| && b != l ==> Chained(chains[b])
    }

    method PlaceChains(l: nat, e: Entry, ghost j: nat, ghost full: bool)
      requires Valid() && l < |chains| && e !in ages && full == FullBucket(l) && VictimAt(full, l, j)
      modifies this`items, this`oldest, this`newest, buckets, nr
      modifies e`next, e`prev, chains[l]`next, chains[l]`prev, ages`older, ages`newer
      ensures Lists(l, PlacedChain(full, e, chains[l]), Spared(full, ages, j)) && Others(l)
      ensures items == |Spared(full, ages, j)| + 1 && buckets[..] == old(buckets[..])[l := e]
      ensures nr[..] == old(nr[..])[l := |PlacedChain(full, e, chains[l])|]
    {
      hide WellFormed, Bucket, Model, Chained, Aged, Distinct, Lists;
      ghost var c := chains[l];
      StartLists(l);
      Apart(l);
      Newcomer(e);
      PlaceInChain(l, e, c, j);
      forall b | 0 <= b < |chains| && b != l ensures Chained(chains[b]) {
        assert old(Chained(chains[b])) && Disjoint(chains[b], c) && e !in chains[b];
      }
    }

    lemma {:induction false} StartLists(l: nat)
      requires Valid() && l < |chains|
      ensures Lists(l, chains[l], ages)
    {
      hide WellFormed, Model;
      ChainDistinct(l);
      AgesDistinct();
    }

    /** Last step: the entry joins the age list, and everything is linked. */
    method Join(e: Entry, l: nat, ghost r: seq<Entry>, ghost a: seq<Entry>, ghost cs: seq<seq<Entry>>)
      requires Members() && l < |chains| && cs == chains[l := r] && |cs| == buckets.Length == nr.Length
      requires Lists(l, r, a) && Others(l) && e !in a && e.newer == null && items == |a| + 1
      requires Within(cs, a + [e]) && Headed(buckets[..], nr[..], cs)
      modifies this`oldest, this`newest, e`older, a`newer
      ensures Ready(cs, a + [e])
    {
      hide Chained, Aged, Distinct, Headed, Within;
      AppendAge(e, a);
    }

    method PlaceLinks(l: nat, e: Entry, ghost j: nat, ghost full: bool)
      requires Valid() && l < |chains| && e !in ages && e.newer == null && full == FullBucket(l) && VictimAt(full, l, j)
      modifies this`items, this`oldest, this`newest, buckets, nr
      modifies e`next, e`prev, e`older, chains[l]`next, chains[l]`prev, ages`older, ages`newer
      ensures Ready(chains[l := PlacedChain(full, e, chains[l])], Spared(full, ages, j) + [e])
    {
      hide WellFormed, Bucket, Model, Chained, Aged, Distinct, Headed, Lists, Others;
      ghost var r, a := PlacedChain(full, e, chains[l]), Spared(full, ages, j);
      HeadedUpdate(buckets[..], nr[..], chains, l, r);
      ChainDistinct(l);
      Apart(l);
      WithinPlaced(chains, ages, l, e, full, j);
      PlaceChains(l, e, j, full);
      Join(e, l, r, a, chains[l := r]);
    }

    lemma {:induction false} Newcomer(e: Entry)
      requires Valid() && e !in ages
      ensures forall b :: 0 <= b < |chains| ==> e !in chains[b]
    {
    }

    ghost predicate VictimIs(key: Key, j: nat)
      reads this, ages
      requires |chains| == Pow2(bits)
    {
      Full(Cfg(), Model(), key) ==>
        && j < |ages| && ages[j].key == Victim(Cfg(), Model(), key)
        && j == IndexOf(KeysOf(Items(ages)), ages[j].key) && ages[j].key in KeysOf(Items(ages))
    }

    /** The entry a full bucket gives up, found in the age list. */
    lemma {:induction false} FindVictim(l: nat, key: Key) returns (j: nat)
      requires Valid() && l == Bucket(hash, bits, key) && l < |chains|
      ensures FullBucket(l) <==> Full(Cfg(), Model(), key)
      ensures VictimAt(FullBucket(l), l, j)
      ensures VictimIs(key, j)
    {
      hide WellFormed, Bucket, IndexOf, KeysOf, Items, Aged, Chained;
      ghost var c := chains[l];
      assert nr[l] == |c| by { HeadedUpdate(buckets[..], nr[..], chains, l, c); }
      assert KeyChains(chains)[l] == Keys(c);
      j := 0;
      if FullBucket(l) {
        ghost var i;
        i, j := Locate(l, c[|c| - 1]);
      }
    }

    /** What the new chains and ages mean. */
    lemma {:induction false} PlacedModel(l: nat, e: Entry, j: nat, full: bool)
      requires Valid() && l == Bucket(hash, bits, e.key) && l < |chains| && full == Full(Cfg(), Model(), e.key)
      requires VictimIs(e.key, j)
      ensures TableSpec.Table(bits, KeyChains(chains[l := PlacedChain(full, e, chains[l])]), Items(Spared(full, ages, j) + [e]))
           == TableSpec.Place(Cfg(), Model(), e.key, e.data)
    {
      hide WellFormed, Bucket, IndexOf, KeysOf, Items, Shape;
      ghost var c, r := chains[l], PlacedChain(full, e, chains[l]);
      KeyChainsUpdate(chains, l, r);
      PlacedKeys(full, e, c);
      assert KeyChains(chains)[l] == Keys(c);
      ItemsSnoc(Spared(full, ages, j), e);
      if full { ItemsDeleted(ages, j); }
    }

    method PlaceShape(l: nat, e: Entry, ghost j: nat, ghost full: bool)
      requires Valid() && l < |chains| && e !in ages && e.newer == null && full == FullBucket(l) && VictimAt(full, l, j)
      modifies this`chains, this`ages, this`items, this`oldest, this`newest, buckets, nr
      modifies e`next, e`prev, e`older, chains[l]`next, chains[l]`prev, ages`older, ages`newer
      ensures Shape() && chains == old(chains[l := PlacedChain(full, e, chains[l])])
      ensures ages == old(Spared(full, ages, j)) + [e]
    {
      hide WellFormed, Model, Headed, Aged, AllChained, Within, PlacedChain, Spared;
      ghost var cs, a := chains[l := PlacedChain(full, e, chains[l])], Spared(full, ages, j) + [e];
      PlaceLinks(l, e, j, full);
      chains, ages := cs, a;
    }

    /** Links a new entry in as the newest of all and the first of its bucket. */
    method Place(l: nat, e: Entry)
      requires Valid() && l == Bucket(hash, bits, e.key) && e !in ages && e.newer == null
      requires e.key !in KeysOf(Items(ages))
      modifies this`chains, this`ages, this`items, this`oldest, this`newest, buckets, nr
      modifies e`next, e`prev, e`older, ages`next, ages`prev, ages`older, ages`newer
      ensures Valid() && Model() == TableSpec.Place(Cfg(), old(Model()), e.key, e.data)
      ensures forall i :: 0 <= i < |ages| ==> ages[i] == e || ages[i] in old(ages)
    {
      hide WellFormed, Bucket, IndexOf, KeysOf, Items, Full, Shape, Keys, KeyChains, TableSpec.Place;
      ghost var before := Model();
      BucketInRange(l, e.key);
      ChainInAges(l);
      ghost var j := FindVictim(l, e.key);
      ghost var full := FullBucket(l);
      PlacedModel(l, e, j, full);
      PlaceWellFormed(Cfg(), before, e.key, e.data);
      SparedIn(full, ages, j);
      PlaceShape(l, e, j, full);
    }

    lemma {:induction false} BucketInRange(l: nat, key: Key)
      requires Valid() && l == Bucket(hash, bits, key)
      ensures l < |chains| == Pow2(bits) == nr.Length
    {
    }

    /** ght_insert: 0, or -1 for a key that is already there. */
    method Insert(key: Key, data: Pointer) returns (r: int)
      requires Valid()
      modifies this`chains, this`ages, this`items, this`oldest, this`newest, this`size, this`mask, this`bits, this`buckets, this`nr
      modifies buckets, nr, ages`next, ages`prev, ages`older, ages`newer
      ensures Valid() && Cfg() == old(Cfg()) && Model() == TableSpec.Insert(Cfg(), old(Model()), key, data)
      ensures r == if key in KeysOf(old(Items(ages))) then -1 else 0
      ensures (buckets == old(buckets) || fresh(buckets)) && (nr == old(nr) || fresh(nr))
      ensures forall i :: 0 <= i < |ages| ==> ages[i] in old(ages) || fresh(ages[i])
      decreases if automaticRehash then 2 else 0, 2
    {
      hide WellFormed, Bucket, KeysOf, Items, Keys, KeyChains, TableSpec.Place, TableSpec.Rehash, Shape;
      ghost var before := Model();
      var l, p := Find(key, NoHeuristics);
      Absent(l, key);
      MaskBucket(key);
      NoTouch(Cfg(), before, key);
      if p != null {
        return -1;
      }
      InsertNew(l, key, data);
      return 0;
    }

    method InsertNew(l0: nat, key: Key, data: Pointer)
      requires Valid() && l0 == Bucket(hash, bits, key) && key !in KeysOf(Items(ages))
      modifies this`chains, this`ages, this`items, this`oldest, this`newest, this`size, this`mask, this`bits, this`buckets, this`nr
      modifies buckets, nr, ages`next, ages`prev, ages`older, ages`newer
      ensures Valid() && Cfg() == old(Cfg()) && Model() == TableSpec.Insert(Cfg(), old(Model()), key, data)
      ensures (buckets == old(buckets) || fresh(buckets)) && (nr == old(nr) || fresh(nr))
      ensures forall i :: 0 <= i < |ages| ==> ages[i] in old(ages) || fresh(ages[i])
      decreases if automaticRehash then 2 else 0, 1
    {
      hide WellFormed, Bucket, KeysOf, Items, Keys, KeyChains, TableSpec.Place, TableSpec.Rehash, Shape;
      Absent(l0, key);
      var e := new Entry(key, data);
      var l := Grow(l0, key);
      Place(l, e);
    }

    /** Rehashes when there are more than two entries per bucket. */
    method Grow(l0: nat, key: Key) returns (l: nat)
      requires Valid() && l0 == Bucket(hash, bits, key) && key !in KeysOf(Items(ages))
      modifies this`chains, this`ages, this`items, this`oldest, this`newest, this`size, this`mask, this`bits, this`buckets, this`nr
      ensures Valid() && Cfg() == old(Cfg()) && l == Bucket(hash, bits, key) && key !in KeysOf(Items(ages))
      ensures Model() == var t := old(Model());
        if automaticRehash && |t.items| > 2 * Pow2(t.bits) then TableSpec.Rehash(Cfg(), t, 2 * Pow2(t.bits)) else t
      ensures (buckets == old(buckets) && nr == old(nr) && ages == old(ages))
        || (fresh(buckets) && fresh(nr) && forall i :: 0 <= i < |ages| ==> fresh(ages[i]))
      decreases if automaticRehash then 2 else 0, 0
    {
      hide WellFormed, KeysOf, Items, Keys, KeyChains, TableSpec.Rehash, Bucket, Within, AllChained, Headed, Aged;
      l := l0;
      MaskBucket(key);
      if automaticRehash && items > 2 * size {
        RehashKeeps(Cfg(), Model(), 2 * size);
        KeysPrefix(Items(ages), |Walked(Items(ages))|);
        Rehash(2 * size);
        MaskBucket(key);
        l := Bitwise(BitAnd, hash(key), mask);
      }
    }

    /** ght_rehash: a table of the new size takes the place of this one, filled by a walk over the
        age list. */
    method Rehash(n: nat)
      requires Valid()
      modifies this`chains, this`ages, this`items, this`oldest, this`newest, this`size, this`mask, this`bits, this`buckets, this`nr
      ensures Valid() && Cfg() == old(Cfg()) && Model() == TableSpec.Rehash(Cfg(), old(Model()), n)
      ensures fresh(buckets) && fresh(nr) && forall i :: 0 <= i < |ages| ==> fresh(ages[i])
      decreases 1, 1
    {
      hide WellFormed, Bucket, KeysOf, Items, KeyChains, Shape, TableSpec.Rehash;
      var tmp := Copy(n);
      TakeOver(tmp);
    }

    /** The other table's arrays and entries become this table's. */
    method TakeOver(tmp: Table)
      requires tmp.Valid() && tmp != this && tmp.hash == hash
      modifies this`chains, this`ages, this`items, this`oldest, this`newest, this`size, this`mask, this`bits, this`buckets, this`nr
      ensures Valid() && Model() == tmp.Model() && buckets == tmp.buckets && nr == tmp.nr && ages == tmp.ages
    {
      hide Valid, Model;
      size, mask, items, buckets, nr := tmp.size, tmp.mask, tmp.items, tmp.buckets, tmp.nr;
      oldest, newest := tmp.oldest, tmp.newest;
      bits, chains, ages := tmp.bits, tmp.chains, tmp.ages;
      SameState(tmp);
    }

    lemma {:induction false} SameState(tmp: Table)
      requires tmp.Valid() && tmp.hash == hash && tmp.size == size && tmp.mask == mask && tmp.items == items
      requires tmp.buckets == buckets && tmp.nr == nr && tmp.oldest == oldest && tmp.newest == newest
      requires tmp.bits == bits && tmp.chains == chains && tmp.ages == ages
      ensures Valid() && Model() == tmp.Model()
    {
      hide WellFormed, Within, AllChained, Headed, Aged, Items, KeyChains;
    }

    lemma {:induction false} MaskBucket(key: Key)
      requires Valid()
      ensures Bitwise(BitAnd, hash(key), mask) == Bucket(hash, bits, key)
      ensures |chains| == Pow2(bits) == size
    {
    }

    /** tmp holds the first i items, inserted one after the other. */
    static ghost predicate Copied(tmp: Table, cfg: Config, n: nat, its: seq<Item>, i: nat)
      reads tmp, tmp.buckets, tmp.nr, tmp.ages
    {
      i <= |its| && tmp.Valid() && tmp.Cfg() == Plain(cfg) && tmp.Model() == PlaceAll(Plain(cfg), Empty(n), its[..i])
    }

    /** A new table of n buckets with the items of this one. */
    method Copy(n: nat) returns (tmp: Table)
      requires Valid()
      ensures fresh(tmp) && fresh(tmp.buckets) && fresh(tmp.nr) && forall i :: 0 <= i < |tmp.ages| ==> fresh(tmp.ages[i])
      ensures tmp.Valid() && tmp.Cfg() == Plain(Cfg()) && tmp.Model() == TableSpec.Rehash(Cfg(), Model(), n)
      decreases 1, 0
    {
      hide Valid, WellFormed, Items, PlaceAll, Copied, Walked;
      tmp := new Table(n, hash);
      ghost var its := Items(ages);
      NonePlaced(Plain(Cfg()), n, its);
      CopiedFirst(tmp, n);
      ghost var i := Walk(tmp, Cfg(), n, its);
      CopiedAll(tmp, n, its, i);
    }

    /** The loop of ght_rehash: ght_first and ght_next over this table until one of them returns null
        data. */
    method Walk(tmp: Table, ghost cfg: Config, ghost n: nat, ghost its: seq<Item>) returns (ghost i: nat)
      requires Valid() && its == Items(ages) && Copied(tmp, cfg, n, its, 0) && tmp != this && tmp.ages == []
      requires {buckets as object, nr} !! {tmp.buckets as object, tmp.nr}
      modifies tmp, tmp.buckets, tmp.nr
      ensures Copied(tmp, cfg, n, its, i)
      ensures (forall k :: 0 <= k < i ==> its[k].data != NULL) && (i < |its| ==> its[i].data == NULL)
      ensures (tmp.buckets == old(tmp.buckets) || fresh(tmp.buckets)) && (tmp.nr == old(tmp.nr) || fresh(tmp.nr))
      ensures forall k :: 0 <= k < |tmp.ages| ==> fresh(tmp.ages[k])
      decreases 0, 4
    {
      hide Valid, WellFormed, Items, PlaceAll, Copied, Walked, KeyChains;
      Linked();
      var p := oldest;
      var next := if p == null then null else p.newer;
      i := 0;
      while p != null && p.data != NULL
        invariant i <= |ages| && p == At(ages, i) && next == At(ages, i + 1)
        invariant forall k :: 0 <= k < i ==> its[k].data != NULL
        invariant (tmp.buckets == old(tmp.buckets) || fresh(tmp.buckets)) && (tmp.nr == old(tmp.nr) || fresh(tmp.nr))
        invariant forall k :: 0 <= k < |tmp.ages| ==> fresh(tmp.ages[k])
        invariant Copied(tmp, cfg, n, its, i)
        decreases |ages| - i
      {
        CopyOne(tmp, p, cfg, n, its, i);
        p := next;
        next := if p == null then null else p.newer;
        i := i + 1;
      }
    }

    lemma {:induction false} CopiedFirst(tmp: Table, n: nat)
      requires tmp.Valid() && tmp.Model() == Empty(n) && tmp.Cfg() == Config(hash, NoHeuristics, 0, false)
      ensures Copied(tmp, Cfg(), n, Items(ages), 0)
    {
      hide Valid, Model;
    }

    lemma {:induction false} CopiedAll(tmp: Table, n: nat, its: seq<Item>, i: nat)
      requires Copied(tmp, Cfg(), n, its, i) && its == Items(ages) && (i < |its| ==> its[i].data == NULL)
      requires forall k :: 0 <= k < i ==> its[k].data != NULL
      ensures tmp.Valid() && tmp.Cfg() == Plain(Cfg()) && tmp.Model() == TableSpec.Rehash(Cfg(), Model(), n)
    {
      hide Valid, Items, PlaceAll, Walked;
      WalkedIs(its, i);
    }

    static method CopyOne(tmp: Table, p: Entry, ghost cfg: Config, ghost n: nat, ghost its: seq<Item>, ghost i: nat)
      requires i < |its| && its[i] == Item(p.key, p.data) && Unique(KeysOf(its)) && Copied(tmp, cfg, n, its, i)
      modifies tmp, tmp.buckets, tmp.nr, tmp.ages
      ensures Copied(tmp, cfg, n, its, i + 1)
      ensures (tmp.buckets == old(tmp.buckets) || fresh(tmp.buckets)) && (tmp.nr == old(tmp.nr) || fresh(tmp.nr))
      ensures forall k :: 0 <= k < |tmp.ages| ==> tmp.ages[k] in old(tmp.ages) || fresh(tmp.ages[k])
      decreases 0, 3
    {
      hide WellFormed, Bucket, KeysOf, Items, KeyChains, Table.Shape, PlaceAll;
      var r := tmp.Insert(p.key, p.data);
      PlacedNext(tmp.Cfg(), n, its, i);
    }

    lemma {:induction false} Linked()
      requires Valid()
      ensures oldest == At(ages, 0) && Unique(KeysOf(Items(ages)))
      ensures forall i :: 0 <= i < |ages| ==>
        ages[i].newer == At(ages, i + 1) && Items(ages)[i] == Item(ages[i].key, ages[i].data)
    {
      hide WellFormed;
      AgesLinked();
      UniqueItems();
    }

    lemma {:induction false} AgesLinked()
      requires Valid()
      ensures oldest == At(ages, 0) && forall i :: 0 <= i < |ages| ==> ages[i].newer == At(ages, i + 1)
    {
    }

    lemma {:induction false} UniqueItems()
      requires Valid()
      ensures Unique(KeysOf(Items(ages)))
    {
    }

    /** ght_create, with the hash function to use. */
    constructor (n: nat, hash: Key -> u32)
      ensures Valid() && Model() == Empty(n) && Cfg() == Config(hash, NoHeuristics, 0, false)
      ensures fresh(buckets) && fresh(nr) && ages == []
    {
      var i, s := 1, 1;
      while s < n
        invariant i >= 1 && s == Pow2(i - 1) && (i > 1 ==> Pow2(i - 2) < n) && BitsFor(n) == BitsFrom(i - 1, n)
        decreases n - s
      {
        s := Pow2(i);
        i := i + 1;
      }
      size, mask, items := s, Pow2(i - 1) - 1, 0;
      this.hash, heuristics, automaticRehash, bucketLimit := hash, NoHeuristics, false, 0;
      buckets := new Entry?[s](_ => null);
      nr := new int[s](_ => 0);
      oldest, newest := null, null;
      bits, chains, ages := i - 1, seq(Pow2(i - 1), _ => []), [];
      new;
      EmptyWellFormed(hash, n);
    }
  }

  lemma {:induction false} NonePlaced(cfg: Config, n: nat, its: seq<Item>)
    ensures PlaceAll(cfg, Empty(n), its[..0]) == Empty(n)
  {
  }

  /** Inserting the next item into the new table places it. */
  lemma {:induction false} PlacedNext(cfg: Config, n: nat, its: seq<Item>, i: nat)
    requires i < |its| && Unique(KeysOf(its)) && cfg == Plain(cfg)
    ensures TableSpec.Insert(cfg, PlaceAll(cfg, Empty(n), its[..i]), its[i].key, its[i].data)
         == PlaceAll(cfg, Empty(n), its[..i + 1])
  {
    hide Bucket, TableSpec.Place, IndexOf;
    KeysPrefix(its, i);
    PlaceAllFacts(cfg, n, its[..i]);
    var t := PlaceAll(cfg, Empty(n), its[..i]);
    assert its[..i + 1][..i] == its[..i];
    assert KeysOf(its)[i] == its[i].key && its[i].key !in KeysOf(its)[..i];
    assert its[i].key !in t.chains[Bucket(cfg.hash, t.bits, its[i].key)];
  }

  lemma {:induction false} WalkedIs(its: seq<Item>, i: nat)
    requires i <= |its| && forall k :: 0 <= k < i ==> its[k].data != NULL
    requires i < |its| ==> its[i].data == NULL
    ensures Walked(its) == its[..i]
  {
  }

  lemma {:induction false} SparedIn(full: bool, a: seq<Entry>, j: nat)
    ensures forall i :: 0 <= i < |Table.Spared(full, a, j)| ==> Table.Spared(full, a, j)[i] in a
  {
  }

  lemma {:induction false} PlacedKeys(full: bool, e: Entry, c: seq<Entry>)
    ensures Keys(Table.PlacedChain(full, e, c)) == if full then ([e.key] + Keys(c))[..|c|] else [e.key] + Keys(c)
    ensures full && |c| > 0 ==> ([e.key] + Keys(c))[..|c|] == [e.key] + Keys(c)[..|c| - 1]
  {
  }

  lemma {:induction false} ItemsSnoc(a: seq<Entry>, e: Entry)
    ensures Items(a + [e]) == Items(a) + [Item(e.key, e.data)]
  {
  }

  lemma {:induction false} WithinPlaced(chains: seq<seq<Entry>>, a: seq<Entry>, l: nat, e: Entry, full: bool, j: nat)
    requires Within(chains, a) && l < |chains| && Distinct(chains[l])
    requires forall b :: 0 <= b < |chains| && b != l ==> Disjoint(chains[b], chains[l])
    requires full ==> |chains[l]| > 0 && j < |a| && a[j] == chains[l][|chains[l]| - 1]
    ensures Within(chains[l := Table.PlacedChain(full, e, chains[l])], Table.Spared(full, a, j) + [e])
  {
    hide Distinct;
    var cs, s := chains[l := Table.PlacedChain(full, e, chains[l])], Table.Spared(full, a, j);
    if full { WithinDelete(chains, a, l, |chains[l]| - 1, j); }
    var ds := if full then chains[l := Delete(chains[l], |chains[l]| - 1)] else chains;
    forall b, k | 0 <= b < |cs| && 0 <= k < |cs[b]| ensures cs[b][k] in s + [e] {
      if b == l {
        if k > 0 { assert cs[b][k] == chains[l][k - 1] == ds[l][k - 1]; }
      } else {
        assert cs[b][k] == ds[b][k];
      }
    }
  }

  lemma {:induction false} DistinctCons(e: Entry, c: seq<Entry>)
    requires Distinct(c) && e !in c
    ensures Distinct([e] + c)
  {
  }

  lemma {:induction false} WithinDelete(chains: seq<seq<Entry>>, a: seq<Entry>, l: nat, i: nat, j: nat)
    requires Within(chains, a) && l < |chains| && i < |chains[l]| && j < |a| && chains[l][i] == a[j] && Distinct(chains[l])
    requires forall b :: 0 <= b < |chains| && b != l ==> Disjoint(chains[b], chains[l])
    ensures Within(chains[l := Delete(chains[l], i)], Delete(a, j))
  {
    var cs := chains[l := Delete(chains[l], i)];
    forall b, k | 0 <= b < |cs| && 0 <= k < |cs[b]| ensures cs[b][k] in Delete(a, j) {
      var e := cs[b][k];
      if b == l {
        assert e == chains[l][if k < i then k else k + 1];
      } else {
        assert Disjoint(chains[b], chains[l]) && e == chains[b][k];
      }
      assert e in a && e != a[j];
      StillIn(a, j, e);
    }
  }

  lemma {:induction false} StillIn(a: seq<Entry>, j: nat, e: Entry)
    requires j < |a| && e in a && e != a[j]
    ensures e in Delete(a, j)
  {
    var k :| 0 <= k < |a| && a[k] == e;
    assert Delete(a, j)[if k < j then k else k - 1] == e;
  }

  lemma {:induction false} KeysDeleted(c: seq<Entry>, i: nat)
    requires i < |c|
    ensures Keys(Delete(c, i)) == Delete(Keys(c), i)
  {
  }

  lemma {:induction false} ItemsDeleted(a: seq<Entry>, j: nat)
    requires j < |a|
    ensures Items(Delete(a, j)) == Delete(Items(a), j)
  {
  }

  lemma {:induction false} FirstIndex(c: seq<Key>, i: nat)
    requires Unique(c) && i < |c|
    ensures IndexOf(c, c[i]) == i
  {
    assert c[i] in c;
  }

  /** The loop of search_in_bucket. */
  method FindInChain(first: Entry?, key: Key, ghost c: seq<Entry>) returns (p: Entry?, ghost i: nat)
    requires Chained(c) && first == At(c, 0)
    ensures i <= |c| && p == At(c, i) && (p != null ==> p.key == key)
    ensures forall j :: 0 <= j < i ==> c[j].key != key
  {
    p, i := first, 0;
    while p != null && p.key != key
      invariant 0 <= i <= |c| && p == At(c, i)
      invariant forall j :: 0 <= j < i ==> c[j].key != key
      decreases |c| - i
    {
      p, i := p.next, i + 1;
    }
  }

  lemma {:induction false} KeyChainsUpdate(chains: seq<seq<Entry>>, l: nat, r: seq<Entry>)
    requires l < |chains|
    ensures KeyChains(chains[l := r]) == KeyChains(chains)[l := Keys(r)]
  {
  }

  lemma {:induction false} FoundAt(c: seq<Entry>, key: Key, i: nat)
    requires i < |c| && c[i].key == key && forall j :: 0 <= j < i ==> c[j].key != key
    ensures key in Keys(c) && IndexOf(Keys(c), key) == i
  {
    hide IndexOf;
    assert Keys(c)[i] == key;
  }

  lemma {:induction false} TouchedEntries(h: Heuristics, c: seq<Entry>, i: nat)
    requires i < |c|
    ensures Keys(Touched(h, c, i)) == Touched(h, Keys(c), i)
    ensures c[i] in Touched(h, c, i)
    ensures forall j :: 0 <= j < |c| ==> Touched(h, c, i)[j] in c
    ensures h == NoHeuristics ==> Touched(h, c, i) == c
  {
    match h
    case NoHeuristics =>
    case MoveToFront => FrontedEntries(c, i);
    case Transpose => TransposedEntries(c, i);
  }

  lemma {:induction false} FrontedEntries(c: seq<Entry>, i: nat)
    requires i < |c|
    ensures Keys(Touched(MoveToFront, c, i)) == Touched(MoveToFront, Keys(c), i)
    ensures c[i] in Touched(MoveToFront, c, i)
    ensures forall j :: 0 <= j < |c| ==> Touched(MoveToFront, c, i)[j] in c
  {
    assert Touched(MoveToFront, c, i)[0] == c[i];
  }

  lemma {:induction false} TransposedEntries(c: seq<Entry>, i: nat)
    requires i < |c|
    ensures Keys(Touched(Heuristics.Transpose, c, i)) == Touched(Heuristics.Transpose, Keys(c), i)
    ensures c[i] in Touched(Heuristics.Transpose, c, i)
    ensures forall j :: 0 <= j < |c| ==> Touched(Heuristics.Transpose, c, i)[j] in c
  {
    var r := Touched(Heuristics.Transpose, c, i);
    if i > 0 { assert r[i - 1] == c[i] && r[i] == c[i - 1]; } else { assert r[0] == c[0]; }
  }

  lemma {:induction false} TouchWellFormed(hash: Key -> u32, t: TableSpec.Table, h: Heuristics, l: nat, i: nat)
    requires WellFormed(hash, t) && l < |t.chains| && i < |t.chains[l]|
    ensures WellFormed(hash, t.(chains := t.chains[l := Touched(h, t.chains[l], i)]))
  {
    hide Bucket, Touched, KeysOf;
    TouchedKeeps(h, t.chains[l], i);
  }
}
