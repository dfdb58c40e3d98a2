/** Python's built-in dict, which remembers the order in which its keys were
    first inserted: a key→value map together with that insertion order.
    Only the operations the LRU cache uses are modelled. */
module OrderedDict {
  import opened Seqs

  datatype Dict<K(==), V> = Dict(order: seq<K>, vals: map<K, V>)

  /** The order lists every key of the map exactly once. */
  predicate Valid<K(==), V>(d: Dict<K, V>) {
    Distinct(d.order) && Elements(d.order) == d.vals.Keys
  }

  function Empty<K(==), V>(): (d: Dict<K, V>)
    ensures Valid(d) && Len(d) == 0
  {
    Dict([], map[])
  }

  /** len(d). */
  function Len<K(==), V>(d: Dict<K, V>): nat {
    |d.vals|
  }

  /** A valid dict is as long as its key order. */
  lemma LenIsOrderLength<K, V>(d: Dict<K, V>)
    requires Valid(d)
    ensures Len(d) == |d.order|
  {
    DistinctCardinality(d.order);
  }

  /** d.pop(k): take `k` out of the map and out of the order; the other
      keys keep their order. Python raises KeyError for an absent key. */
  function Pop<K(==), V>(d: Dict<K, V>, k: K): (r: (Dict<K, V>, V))
    requires Valid(d) && k in d.vals
    ensures Valid(r.0)
    ensures r.0.order == Remove(d.order, k)
    ensures r.0.vals == d.vals - {k}
    ensures r.1 == d.vals[k]
  {
    (Dict(Remove(d.order, k), d.vals - {k}), d.vals[k])
  }

  /** d[k] = v: overwrite in place when `k` is present, otherwise append
      `k` at the end of the order. */
  function SetItem<K(==), V>(d: Dict<K, V>, k: K, v: V): (r: Dict<K, V>)
    requires Valid(d)
    ensures Valid(r)
    ensures r.vals == d.vals[k := v]
    ensures k in d.vals ==> r.order == d.order
    ensures k !in d.vals ==> r.order == d.order + [k]
  {
    if k in d.vals then Dict(d.order, d.vals[k := v])
    else
      var r := Dict(d.order + [k], d.vals[k := v]);
      assert Distinct(r.order) by {
        forall a, b | 0 <= a < b < |r.order|
          ensures r.order[a] != r.order[b]
        {
          if b == |d.order| {
            assert r.order[a] in d.order;
          }
        }
      }
      assert Elements(r.order) == Elements(d.order) + {k};
      r
  }

  /** next(iter(d)): the key inserted longest ago. */
  function FirstKey<K(==), V>(d: Dict<K, V>): (k: K)
    requires Valid(d) && |d.order| > 0
    ensures k in d.vals
  {
    d.order[0]
  }
}
