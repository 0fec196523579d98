/** Histories played on the linked structure itself. */
module CacheRuns {
  import opened TableSpec
  import opened TableHistory
  import opened HashTable

  method Perform(t: HashTable.Table, op: Op)
    requires t.Valid()
    modifies t, t.buckets, t.nr, t.ages
    ensures t.Valid() && t.Cfg() == old(t.Cfg()) && t.Model() == Do(t.Cfg(), old(t.Model()), op)
    ensures (t.buckets == old(t.buckets) || fresh(t.buckets)) && (t.nr == old(t.nr) || fresh(t.nr))
    ensures forall i :: 0 <= i < |t.ages| ==> t.ages[i] in old(t.ages) || fresh(t.ages[i])
  {
    hide WellFormed, HashTable.Table.Shape, HashTable.Table.Model, Search, Replace, Insert, Remove, Lookup, KeysOf, Items;
    match op
    case GetOp(k) => var d := t.Get(k);
    case ReplaceOp(k, d) => var was := t.Replace(k, d);
    case InsertOp(k, d) => var r := t.Insert(k, d);
    case RemoveOp(k) => var d := t.Remove(k);
  }

  /** A table with the given settings after the given calls: the linked structure ends up as the
      history says, so the theorems about histories are theorems about it. */
  method PlayOut(cfg: Config, n: nat, ops: seq<Op>) returns (t: HashTable.Table)
    ensures t.Valid() && t.Cfg() == cfg && t.Model() == Play(cfg, n, ops)
  {
    hide WellFormed, HashTable.Table.Shape, HashTable.Table.Model, Do;
    t := new HashTable.Table(n, cfg.hash);
    Configure(t, cfg);
    for i := 0 to |ops|
      invariant fresh(t) && fresh(t.buckets) && fresh(t.nr) && forall k :: 0 <= k < |t.ages| ==> fresh(t.ages[k])
      invariant t.Valid() && t.Cfg() == cfg && t.Model() == Play(cfg, n, ops[..i])
    {
      assert ops[..i + 1][..i] == ops[..i];
      Perform(t, ops[i]);
    }
    assert ops[..|ops|] == ops;
  }

  /** ght_set_heuristics, ght_set_rehash and ght_set_bounded_buckets. */
  method Configure(t: HashTable.Table, cfg: Config)
    requires t.Valid() && t.hash == cfg.hash
    modifies t`heuristics, t`automaticRehash, t`bucketLimit
    ensures t.Valid() && t.Cfg() == cfg && t.Model() == old(t.Model())
  {
    hide WellFormed;
    t.heuristics, t.automaticRehash, t.bucketLimit := cfg.heuristics, cfg.autoRehash, cfg.limit;
  }
}
