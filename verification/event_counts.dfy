/** Hit counts keyed by record (`EventCounts`, an `unordered_map<EventRecord, size_t>` in
    kotlin-native/runtime/src/main/cpp/profiler/Profiler.hpp) and the two ways they change:
    one more hit of a key, and the key-wise merge performed by `Profiler::aggregate`. */
module EventCounts {

  type Counts<K> = map<K, nat>

  /** The count of `k`; a key that is absent counts as 0, as `operator[]` default-constructs it. */
  function Get<K>(m: Counts<K>, k: K): nat {
    if k in m then m[k] else 0
  }

  /** The sum of the counts of `keys` (keys absent from `m` contribute 0). */
  ghost function SumOver<K>(m: Counts<K>, keys: set<K>): nat
    decreases keys
  {
    if keys == {} then 0
    else
      var k :| k in keys;
      Get(m, k) + SumOver(m, keys - {k})
  }

  /** The number of hits recorded in `m`. */
  ghost function Total<K>(m: Counts<K>): nat {
    SumOver(m, m.Keys)
  }

  /** Any key can be split off a sum, whichever key the definition happened to pick. */
  lemma {:induction false} SumOverRemove<K>(m: Counts<K>, keys: set<K>, k: K)
    requires k in keys
    ensures SumOver(m, keys) == Get(m, k) + SumOver(m, keys - {k})
    decreases |keys|
  {
    var j :| j in keys && SumOver(m, keys) == Get(m, j) + SumOver(m, keys - {j});
    if j != k {
      SumOverRemove(m, keys - {j}, k);
      SumOverRemove(m, keys - {k}, j);
      assert keys - {j} - {k} == keys - {k} - {j};
    }
  }

  /** Sums are taken pointwise: if `c` agrees with `a + b` on `keys`, so do their sums. */
  lemma {:induction false} SumOverAdd<K>(a: Counts<K>, b: Counts<K>, c: Counts<K>, keys: set<K>)
    requires forall k | k in keys :: Get(c, k) == Get(a, k) + Get(b, k)
    ensures SumOver(c, keys) == SumOver(a, keys) + SumOver(b, keys)
    decreases |keys|
  {
    if keys != {} {
      var k :| k in keys;
      SumOverRemove(a, keys, k);
      SumOverRemove(b, keys, k);
      SumOverRemove(c, keys, k);
      SumOverAdd(a, b, c, keys - {k});
    }
  }

  /** Summing over more keys than the map holds adds nothing. */
  lemma {:induction false} SumOverExtraKeys<K>(m: Counts<K>, keys: set<K>)
    requires m.Keys <= keys
    ensures SumOver(m, keys) == Total(m)
    decreases |keys|
  {
    if keys != m.Keys {
      assert !(keys <= m.Keys);
      var k :| k in keys && k !in m.Keys;
      SumOverRemove(m, keys, k);
      SumOverExtraKeys(m, keys - {k});
    }
  }

  /** Sums agree where the maps agree. */
  lemma {:induction false} SumOverSame<K>(a: Counts<K>, b: Counts<K>, keys: set<K>)
    requires forall k | k in keys :: Get(a, k) == Get(b, k)
    ensures SumOver(a, keys) == SumOver(b, keys)
    decreases |keys|
  {
    if keys != {} {
      var k :| k in keys;
      SumOverRemove(a, keys, k);
      SumOverRemove(b, keys, k);
      SumOverSame(a, b, keys - {k});
    }
  }

  /** Count maps with the same keys and the same counts are the same map. */
  lemma CountsExt<K>(a: Counts<K>, b: Counts<K>)
    requires a.Keys == b.Keys
    requires forall k | k in a :: a[k] == b[k]
    ensures a == b
  {
  }

  /** `++counts[key]`: one more hit of `key`, creating it when absent; nothing else changes. */
  function Hit<K>(m: Counts<K>, key: K): (r: Counts<K>)
    ensures r.Keys == m.Keys + {key}
    ensures Get(r, key) == Get(m, key) + 1
    ensures forall k | k in m && k != key :: r[k] == m[k]
    ensures Total(r) == Total(m) + 1
  {
    var r := m[key := Get(m, key) + 1];
    HitTotal(m, key, r);
    r
  }

  lemma HitTotal<K>(m: Counts<K>, key: K, r: Counts<K>)
    requires r == m[key := Get(m, key) + 1]
    ensures Total(r) == Total(m) + 1
  {
    var one := map[key := 1];
    SumOverRemove(one, r.Keys, key);
    SumOverExtraKeys(one, r.Keys);
    SumOverExtraKeys(map[], r.Keys - {key});
    SumOverSame(one, map[], r.Keys - {key});
    SumOverAdd(m, one, r, r.Keys);
    SumOverExtraKeys(m, r.Keys);
    SumOverRemove(one, one.Keys, key);
  }

  /** `Profiler::aggregate`: every count of `data` is added to `agg` key by key, creating keys
      that were absent; keys that `data` lacks keep their count. */
  function Aggregate<K>(agg: Counts<K>, data: Counts<K>): (r: Counts<K>)
    ensures r.Keys == agg.Keys + data.Keys
    ensures forall k | k in r :: r[k] == Get(agg, k) + Get(data, k)
  {
    map k | k in agg.Keys + data.Keys :: Get(agg, k) + Get(data, k)
  }

  /** Merging conserves hits: the grand total grows by exactly the merged total. */
  lemma AggregateTotal<K>(agg: Counts<K>, data: Counts<K>)
    ensures Total(Aggregate(agg, data)) == Total(agg) + Total(data)
  {
    var r := Aggregate(agg, data);
    SumOverAdd(agg, data, r, r.Keys);
    SumOverExtraKeys(agg, r.Keys);
    SumOverExtraKeys(data, r.Keys);
  }

  /** Merge order does not matter: merging A then B equals merging B then A. */
  lemma AggregateCommutes<K>(agg: Counts<K>, a: Counts<K>, b: Counts<K>)
    ensures Aggregate(Aggregate(agg, a), b) == Aggregate(Aggregate(agg, b), a)
  {
    var x := Aggregate(Aggregate(agg, a), b);
    var y := Aggregate(Aggregate(agg, b), a);
    assert forall k | k in x :: x[k] == y[k];
  }

  /** Merging an empty buffer leaves the aggregate as it was. */
  lemma AggregateEmpty<K>(agg: Counts<K>)
    ensures Aggregate(agg, map[]) == agg
  {
    var r := Aggregate(agg, map[]);
    assert forall k | k in r :: r[k] == agg[k];
  }

  /** The loop of `Profiler::aggregate`, one `aggregated[key] += value` per entry of `data`. */
  method AggregateLoop<K>(agg: Counts<K>, data: Counts<K>) returns (r: Counts<K>)
    ensures r == Aggregate(agg, data)
  {
    r := agg;
    var todo := data.Keys;
    while todo != {}
      invariant todo <= data.Keys
      invariant forall k :: k in r <==> k in agg || (k in data && k !in todo)
      invariant forall k :: Get(r, k) == Get(agg, k) + (if k in todo then 0 else Get(data, k))
      decreases |todo|
    {
      var key :| key in todo;
      r := r[key := Get(r, key) + data[key]];
      todo := todo - {key};
    }
    IsAggregate(agg, data, r);
  }

  /** A map holding every key of either input, each with the sum of its two counts, is their merge. */
  lemma IsAggregate<K>(agg: Counts<K>, data: Counts<K>, r: Counts<K>)
    requires forall k :: k in r <==> k in agg || k in data
    requires forall k :: Get(r, k) == Get(agg, k) + Get(data, k)
    ensures r == Aggregate(agg, data)
  {
    CountsExt(r, Aggregate(agg, data));
  }
}
