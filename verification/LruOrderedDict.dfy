/** LRU cache over an insertion-ordered dict (lruCacheUsingOrderedDict.py).
    Recency is the dict's insertion order: touching a key pops it and puts
    it back at the end, and an overflowing `put` pops the first key.

    This is also the abstract LRU policy that the linked-list LRU cache
    (module LruDll) is proved to implement. */
module LruOrderedDict {
  import opened Seqs
  import opened Options
  import opened OrderedDict

  datatype Cache<K(==), V> = Cache(capacity: int, dict: Dict<K, V>)

  /** LRUCache(capacity): an empty dict. The source does not check the
      capacity; the invariant below needs it to be non-negative. */
  function New<K(==), V>(capacity: int): (c: Cache<K, V>)
    ensures c.dict.order == [] && c.dict.vals == map[]
  {
    Cache(capacity, Empty())
  }

  /** Keys are distinct, the order lists exactly the stored keys, and the
      dict never holds more than `capacity` entries. */
  predicate Inv<K(==), V>(c: Cache<K, V>) {
    Valid(c.dict) && Len(c.dict) <= c.capacity
  }

  /** LRUCache.put: drop the old entry of `k`, append `k` with `v`, and pop
      the oldest key when the dict has grown past `capacity`. */
  function Put<K(==), V>(c: Cache<K, V>, k: K, v: V): (r: Cache<K, V>)
    requires Valid(c.dict)
    ensures Valid(r.dict) && r.capacity == c.capacity
    ensures k in r.dict.vals ==> r.dict.vals[k] == v
  {
    var d1 := if k in c.dict.vals then Pop(c.dict, k).0 else c.dict;
    var d2 := SetItem(d1, k, v);
    assert k in Elements(d2.order);
    var d3 := if Len(d2) > c.capacity then Pop(d2, FirstKey(d2)).0 else d2;
    Cache(c.capacity, d3)
  }

  /** LRUCache.get: on a hit, pop `k` and put it back at the end, and return
      its value; on a miss return None and leave the dict alone. */
  function Get<K(==), V>(c: Cache<K, V>, k: K): (r: (Cache<K, V>, Option<V>))
    requires Valid(c.dict)
    ensures Valid(r.0.dict) && r.0.capacity == c.capacity
    ensures r.1.Some? <==> k in c.dict.vals
  {
    if k in c.dict.vals then
      var (d1, v) := Pop(c.dict, k);
      var d2 := SetItem(d1, k, v);
      (Cache(c.capacity, d2), Some(d2.vals[k]))
    else (c, None)
  }

  /** A hit returns the stored value unchanged, moves the key to the end
      (most recent), and keeps all other keys in their relative order. */
  lemma GetHit<K, V>(c: Cache<K, V>, k: K)
    requires Valid(c.dict) && k in c.dict.vals
    ensures Get(c, k).1 == Some(c.dict.vals[k])
    ensures Get(c, k).0.dict.order == Remove(c.dict.order, k) + [k]
    ensures Get(c, k).0.dict.vals == c.dict.vals
  {
    var d1 := Pop(c.dict, k).0;
    assert d1.vals[k := c.dict.vals[k]] == c.dict.vals;
  }

  /** A miss returns None and changes nothing. */
  lemma GetMiss<K, V>(c: Cache<K, V>, k: K)
    requires Valid(c.dict) && k !in c.dict.vals
    ensures Get(c, k) == (c, None)
  {
  }

  /** put on a present key: the new value replaces the old one, the key
      moves to the end, and the size is unchanged, so nothing is evicted. */
  lemma PutPresent<K, V>(c: Cache<K, V>, k: K, v: V)
    requires Inv(c) && k in c.dict.vals
    ensures Put(c, k, v).dict.order == Remove(c.dict.order, k) + [k]
    ensures Put(c, k, v).dict.vals == c.dict.vals[k := v]
  {
    var d1 := Pop(c.dict, k).0;
    assert d1.vals[k := v] == c.dict.vals[k := v];
  }

  /** put on an absent key: `k` is appended; when the dict was already full
      the first key of the grown order, the least recently used one, is
      popped, so exactly one key leaves. */
  lemma PutAbsent<K, V>(c: Cache<K, V>, k: K, v: V)
    requires Inv(c) && k !in c.dict.vals
    ensures Len(c.dict) < c.capacity ==>
              && Put(c, k, v).dict.order == c.dict.order + [k]
              && Put(c, k, v).dict.vals == c.dict.vals[k := v]
    ensures Len(c.dict) == c.capacity ==>
              var grown := c.dict.order + [k];
              && Put(c, k, v).dict.order == grown[1..]
              && Put(c, k, v).dict.vals == c.dict.vals[k := v] - {grown[0]}
  {
    var d2 := SetItem(c.dict, k, v);
    assert Len(d2) == Len(c.dict) + 1;
    if Len(d2) > c.capacity {
      RemoveFirst(d2.order);
    }
  }

  /** With room for at least one entry, the key evicted from a full cache is
      the oldest stored key, and the new key becomes the most recent. */
  lemma PutEvictsOldest<K, V>(c: Cache<K, V>, k: K, v: V)
    requires Inv(c) && c.capacity >= 1 && k !in c.dict.vals && Len(c.dict) == c.capacity
    ensures |c.dict.order| > 0
    ensures Put(c, k, v).dict.order == c.dict.order[1..] + [k]
    ensures Put(c, k, v).dict.vals == c.dict.vals[k := v] - {c.dict.order[0]}
  {
    LenIsOrderLength(c.dict);
    PutAbsent(c, k, v);
    AppendThenDropFirst(c.dict.order, k);
  }

  /** No sequence of puts and gets lets the dict outgrow its capacity. */
  lemma OperationsKeepInv<K, V>(c: Cache<K, V>, k: K, v: V)
    requires Inv(c)
    ensures Inv(Put(c, k, v))
    ensures Inv(Get(c, k).0)
  {
    if k in c.dict.vals {
      PutPresent(c, k, v);
      GetHit(c, k);
      assert Put(c, k, v).dict.vals.Keys == c.dict.vals.Keys;
    } else {
      PutAbsent(c, k, v);
      if Len(c.dict) == c.capacity {
        var grown := c.dict.order + [k];
        LenIsOrderLength(c.dict);
        assert grown[0] in c.dict.vals[k := v];
        assert |(c.dict.vals[k := v] - {grown[0]}).Keys| == |c.dict.vals|;
      }
    }
  }

  /** Round trip: with room for at least one entry, a get right after
      put(k, v) returns v. */
  lemma PutThenGet<K, V>(c: Cache<K, V>, k: K, v: V)
    requires Inv(c) && c.capacity >= 1
    ensures Get(Put(c, k, v), k).1 == Some(v)
  {
    if k in c.dict.vals {
      PutPresent(c, k, v);
    } else {
      PutAbsent(c, k, v);
      if Len(c.dict) == c.capacity {
        LenIsOrderLength(c.dict);
        assert (c.dict.order + [k])[0] == c.dict.order[0];
        assert c.dict.order[0] in c.dict.vals;
      }
    }
  }

  /** The demonstration run: capacity 2, put(1,10), put(2,20), put(1,11),
      put(3,30) leaves {1: 11, 3: 30} with 1 older than 3; the update of 1
      made 2 the least recently used key, so 2 is the one evicted. */
  lemma DemoTrace()
    ensures
      var c4 := Put(Put(Put(Put(New<int, int>(2), 1, 10), 2, 20), 1, 11), 3, 30);
      c4.dict.order == [1, 3] && c4.dict.vals == map[1 := 11, 3 := 30]
  {
    var c0 := New<int, int>(2);
    PutAbsent(c0, 1, 10);
    OperationsKeepInv(c0, 1, 10);
    var c1 := Put(c0, 1, 10);
    DemoSecondPut(c1);
    var c2 := Put(c1, 2, 20);
    DemoUpdate(c2);
    var c3 := Put(c2, 1, 11);
    DemoEviction(c3);
  }

  lemma DemoSecondPut(c: Cache<int, int>)
    requires Inv(c) && c.capacity == 2 && c.dict.order == [1] && c.dict.vals == map[1 := 10]
    ensures Inv(Put(c, 2, 20))
    ensures Put(c, 2, 20).dict.order == [1, 2]
    ensures Put(c, 2, 20).dict.vals == map[1 := 10, 2 := 20]
  {
    DemoFacts();
    PutAbsent(c, 2, 20);
    OperationsKeepInv(c, 2, 20);
  }

  /** put(1, 11) refreshes key 1, leaving 2 as the least recently used key. */
  lemma DemoUpdate(c: Cache<int, int>)
    requires Inv(c) && c.capacity == 2 && c.dict.order == [1, 2] && c.dict.vals == map[1 := 10, 2 := 20]
    ensures Inv(Put(c, 1, 11))
    ensures Put(c, 1, 11).dict.order == [2, 1]
    ensures Put(c, 1, 11).dict.vals == map[1 := 11, 2 := 20]
  {
    DemoRemoval();
    DemoFacts();
    PutPresent(c, 1, 11);
    OperationsKeepInv(c, 1, 11);
  }

  /** put(3, 30) on the full cache evicts 2. */
  lemma DemoEviction(c: Cache<int, int>)
    requires Inv(c) && c.capacity == 2 && c.dict.order == [2, 1] && c.dict.vals == map[1 := 11, 2 := 20]
    ensures Put(c, 3, 30).dict.order == [1, 3]
    ensures Put(c, 3, 30).dict.vals == map[1 := 11, 3 := 30]
  {
    DemoFacts();
    PutEvictsOldest(c, 3, 30);
  }

  /** The sequence and map arithmetic of the demonstration run. */
  lemma DemoFacts()
    ensures [] + [1] == [1] && [1] + [2] == [1, 2]
    ensures [2] + [1] == [2, 1]
    ensures [2, 1][0] == 2 && [2, 1][1..] + [3] == [1, 3]
    ensures map[1 := 10, 2 := 20][1 := 11] == map[1 := 11, 2 := 20]
    ensures map[1 := 11, 2 := 20][3 := 30] - {2} == map[1 := 11, 3 := 30]
  {
  }

  lemma DemoRemoval()
    ensures Remove([1, 2], 1) == [2]
  {
    RemoveFirst([1, 2]);
  }
}
