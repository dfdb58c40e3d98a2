/** LRU cache over a sentinel doubly linked list (lruCacheUsingDLL.py): a
    key→node map plus one list whose order is recency, least recent just
    after the head sentinel and most recent just before the tail sentinel.

    The node map is modelled by the values it leads to (`cache`), and the
    list by its pointer graph (`dll`). The recency order is not stored: it
    is read off the pointers by walking from the head. The list's unused
    `length` field is not modelled. */
module LruDll {
  import opened Seqs
  import opened Options
  import opened LinkedList
  import OrderedDict
  import LruOrderedDict

  datatype Lru<K(==), V> = Lru(capacity: int, cache: map<K, V>, dll: Links<K>)

  /** LRUCache(capacity): no entries and an empty list. */
  function New<K(==), V>(capacity: int): Lru<K, V> {
    Lru(capacity, map[], Empty())
  }

  /** The recency order: the keys met following `next` from the head. */
  function Order<K(==), V>(st: Lru<K, V>): seq<K> {
    Walk(st.dll, Head, |st.cache|)
  }

  /** The list links each cached key exactly once, and nothing else. */
  predicate WellLinked<K(==), V>(st: Lru<K, V>) {
    Valid(st.dll, Order(st)) && Elements(Order(st)) == st.cache.Keys
  }

  /** Reachable states: well linked, and never more than `capacity` keys. */
  predicate Inv<K(==), V>(st: Lru<K, V>) {
    WellLinked(st) && |st.cache| <= st.capacity
  }

  /** The step shared by get and put: unlink the node of `k` if it is
      linked, and link a node for `k` holding `v` just before the tail.
      `k` becomes the most recent key; the others keep their order. */
  function Touch<K(==), V>(st: Lru<K, V>, k: K, v: V): (r: Lru<K, V>)
    requires WellLinked(st)
    ensures WellLinked(r) && r.capacity == st.capacity
    ensures Order(r) == Remove(Order(st), k) + [k]
    ensures r.cache == st.cache[k := v]
  {
    var s := Order(st);
    MoveToTailValid(st.dll, s, k);
    var d1 := if k in s then Unlink(st.dll, k) else st.dll;
    var r := st.(cache := st.cache[k := v], dll := InsertAtTail(d1, k));
    TouchOrder(st, k, r);
    r
  }

  /** The links `Touch` builds spell the touched order. */
  lemma TouchOrder<K, V>(st: Lru<K, V>, k: K, r: Lru<K, V>)
    requires WellLinked(st) && r.cache.Keys == st.cache.Keys + {k}
    requires Valid(r.dll, Remove(Order(st), k) + [k])
    ensures WellLinked(r) && Order(r) == Remove(Order(st), k) + [k]
  {
    var s := Order(st);
    var s' := Remove(s, k) + [k];
    assert Elements(s') == Elements(Remove(s, k)) + {k};
    OrderIs(r, s');
  }

  /** The eviction step of put: unlink the node right after the head, the
      least recent one, and drop its key from the map. */
  function EvictFirst<K(==), V>(st: Lru<K, V>): (r: Lru<K, V>)
    requires WellLinked(st) && |st.cache| > 0
    ensures WellLinked(r) && r.capacity == st.capacity
    ensures |Order(st)| > 0
    ensures Order(r) == Order(st)[1..]
    ensures r.cache == st.cache - {Order(st)[0]}
    ensures |r.cache| == |st.cache| - 1
  {
    var s := Order(st);
    InvLength(st);
    UnlinkFirstValid(st.dll, s);
    var lru := st.dll.next[Head];
    var r := st.(cache := st.cache - {lru.key}, dll := Unlink(st.dll, lru.key));
    EvictOrder(st, r);
    r
  }

  /** The links `EvictFirst` builds spell the order without its first key. */
  lemma EvictOrder<K, V>(st: Lru<K, V>, r: Lru<K, V>)
    requires WellLinked(st) && |Order(st)| > 0
    requires r.cache == st.cache - {Order(st)[0]}
    requires Valid(r.dll, Order(st)[1..])
    ensures WellLinked(r) && Order(r) == Order(st)[1..]
    ensures |r.cache| == |st.cache| - 1
  {
    var s := Order(st);
    assert s == [s[0]] + s[1..];
    assert Elements(s[1..]) == Elements(s) - {s[0]};
    OrderIs(r, s[1..]);
  }

  /** LRUCache.get: on a hit, unlink the node and link it again before the
      tail, then return its value; on a miss return None. */
  function Get<K(==), V>(st: Lru<K, V>, k: K): (r: (Lru<K, V>, Option<V>))
    requires WellLinked(st)
    ensures WellLinked(r.0) && r.0.capacity == st.capacity
    ensures r.1.Some? <==> k in st.cache
  {
    if k in st.cache then (Touch(st, k, st.cache[k]), Some(st.cache[k]))
    else (st, None)
  }

  /** LRUCache.put: touch `k` with the new value; then, if the map has grown
      past `capacity`, evict the node after the head. */
  function Put<K(==), V>(st: Lru<K, V>, k: K, v: V): (r: Lru<K, V>)
    requires WellLinked(st)
    ensures WellLinked(r) && r.capacity == st.capacity
    ensures k in r.cache ==> r.cache[k] == v
    ensures |st.cache| <= st.capacity ==> |r.cache| <= st.capacity
  {
    var t := Touch(st, k, v);
    if |t.cache| > st.capacity then EvictFirst(t) else t
  }

  /** The abstract LRU state: the dict whose insertion order is the list
      order and whose values are the cached values. */
  function Abs<K(==), V>(st: Lru<K, V>): LruOrderedDict.Cache<K, V> {
    LruOrderedDict.Cache(st.capacity, OrderedDict.Dict(Order(st), st.cache))
  }

  /** If the pointers link `s` and `s` lists exactly the cached keys, then
      `s` is the order read off the pointers. */
  lemma OrderIs<K, V>(st: Lru<K, V>, s: seq<K>)
    requires Valid(st.dll, s) && Elements(s) == st.cache.Keys
    ensures Order(st) == s
  {
    DistinctCardinality(s);
    assert |st.cache| == |st.cache.Keys|;
    WalkValid(st.dll, s);
  }

  /** The list is exactly as long as the map. */
  lemma InvLength<K, V>(st: Lru<K, V>)
    requires WellLinked(st)
    ensures |Order(st)| == |st.cache|
  {
    DistinctCardinality(Order(st));
  }

  /** A new cache with a non-negative capacity satisfies the invariant. */
  lemma NewInv<K, V>(capacity: int)
    requires capacity >= 0
    ensures Inv(New<K, V>(capacity)) && Order(New<K, V>(capacity)) == []
  {
    EmptyValid<K>();
    assert Elements<K>([]) == {};
  }

  /** get on a present key returns its value, moves it to the tail and keeps
      the other keys in their relative order; no key is added or removed. */
  lemma GetHit<K, V>(st: Lru<K, V>, k: K)
    requires WellLinked(st) && k in st.cache
    ensures Get(st, k).1 == Some(st.cache[k])
    ensures Order(Get(st, k).0) == Remove(Order(st), k) + [k]
    ensures Get(st, k).0.cache == st.cache
  {
  }

  /** get on an absent key returns None and changes nothing. */
  lemma GetMiss<K, V>(st: Lru<K, V>, k: K)
    requires WellLinked(st) && k !in st.cache
    ensures Get(st, k) == (st, None)
  {
  }

  /** put on a present key of a reachable cache moves it to the tail with
      the new value; the size is unchanged, so nothing is evicted. */
  lemma PutPresent<K, V>(st: Lru<K, V>, k: K, v: V)
    requires Inv(st) && k in st.cache
    ensures Order(Put(st, k, v)) == Remove(Order(st), k) + [k]
    ensures Put(st, k, v).cache == st.cache[k := v]
  {
    assert |st.cache[k := v]| == |st.cache|;
  }

  /** put on an absent key appends it at the tail; when the map then holds
      more than `capacity` keys, exactly the key after the head sentinel,
      the least recently used one, leaves both the list and the map. */
  lemma PutAbsent<K, V>(st: Lru<K, V>, k: K, v: V)
    requires Inv(st) && k !in st.cache
    ensures |st.cache| < st.capacity ==>
              && Order(Put(st, k, v)) == Order(st) + [k]
              && Put(st, k, v).cache == st.cache[k := v]
    ensures |st.cache| == st.capacity ==>
              var grown := Order(st) + [k];
              && Order(Put(st, k, v)) == grown[1..]
              && Put(st, k, v).cache == st.cache[k := v] - {grown[0]}
  {
    assert Remove(Order(st), k) == Order(st);
    assert |st.cache[k := v]| == |st.cache| + 1;
  }

  /** put and get keep a reachable cache reachable: the map never outgrows
      its capacity. */
  lemma OperationsKeepInv<K, V>(st: Lru<K, V>, k: K, v: V)
    requires Inv(st)
    ensures Inv(Put(st, k, v)) && Inv(Get(st, k).0)
  {
  }

  /** The linked-list cache implements the dict-based LRU policy: reading
      the list as an insertion-ordered dict, put and get on the list do
      what put and get do on the dict, and return the same result. */
  lemma Refines<K, V>(st: Lru<K, V>, k: K, v: V)
    requires Inv(st)
    ensures LruOrderedDict.Inv(Abs(st))
    ensures Abs(Put(st, k, v)) == LruOrderedDict.Put(Abs(st), k, v)
    ensures Abs(Get(st, k).0) == LruOrderedDict.Get(Abs(st), k).0
    ensures Get(st, k).1 == LruOrderedDict.Get(Abs(st), k).1
  {
    InvLength(st);
    OperationsKeepInv(st, k, v);
    assert OrderedDict.Valid(Abs(st).dict);
    if k in st.cache {
      PutPresent(st, k, v);
      LruOrderedDict.PutPresent(Abs(st), k, v);
      GetHit(st, k);
      LruOrderedDict.GetHit(Abs(st), k);
    } else {
      PutAbsent(st, k, v);
      LruOrderedDict.PutAbsent(Abs(st), k, v);
      GetMiss(st, k);
      LruOrderedDict.GetMiss(Abs(st), k);
    }
  }

  /** The demonstration run: capacity 2, put(1,10), put(2,20), put(1,11),
      put(3,30) leaves {1: 11, 3: 30} with list order 1, 3. */
  method Demo() returns (order: seq<int>, cache: map<int, int>)
    ensures order == [1, 3] && cache == map[1 := 11, 3 := 30]
  {
    var st0 := New<int, int>(2);
    NewInv<int, int>(2);
    assert Abs(st0) == LruOrderedDict.New(2);
    Refines(st0, 1, 10);
    OperationsKeepInv(st0, 1, 10);
    var st1 := Put(st0, 1, 10);
    Refines(st1, 2, 20);
    OperationsKeepInv(st1, 2, 20);
    var st2 := Put(st1, 2, 20);
    Refines(st2, 1, 11);
    OperationsKeepInv(st2, 1, 11);
    var st3 := Put(st2, 1, 11);
    Refines(st3, 3, 30);
    var st4 := Put(st3, 3, 30);
    LruOrderedDict.DemoTrace();
    order, cache := Order(st4), st4.cache;
  }
}
