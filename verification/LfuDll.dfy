/** The O(1) LFU cache of lfuCacheUsingDLL.py with its frequency lists as
    linked lists: `freq_map` maps a frequency to a sentinel doubly linked
    list with a `size` counter (module SizedDll), and every operation does
    the source's pointer surgery.

    Reading each list as the keys met walking `size` nodes from its head
    gives the bucket-level state of module LfuBuckets (`Abs`). Each
    operation here is proved to act on that reading exactly as the
    bucket-level operation does, so every property proved there (the
    bucket invariant, `min_freq`, eviction of a least frequently used key,
    the documented run) holds of the linked-list cache too. */
module LfuDll {
  import opened Seqs
  import opened Options
  import opened LinkedList
  import SizedDll
  import LfuBuckets

  datatype Lfu<K(==), V> = Lfu(
    capacity: int,
    cache: map<K, LfuBuckets.Node<V>>,
    freqMap: map<int, SizedDll.Dll<K>>,
    minFreq: int)

  /** The keys of a list: walk `size` nodes from the head. */
  function Members<K(==)>(d: SizedDll.Dll<K>): seq<K> {
    Walk(d.links, Head, if d.size < 0 then 0 else d.size)
  }

  /** Every list read as its sequence of keys. */
  function Buckets<K(==)>(lists: map<int, SizedDll.Dll<K>>): map<int, seq<K>> {
    map f | f in lists :: Members(lists[f])
  }

  /** The bucket-level state this linked-list state stands for. */
  function Abs<K(==), V>(st: Lfu<K, V>): LfuBuckets.Lfu<K, V> {
    LfuBuckets.Lfu(st.capacity, st.cache, Buckets(st.freqMap), st.minFreq)
  }

  /** Every list chains its members between its sentinels and counts them. */
  predicate Linked<K(==), V>(st: Lfu<K, V>) {
    SizedDll.Represents(st.freqMap, Buckets(st.freqMap))
  }

  /** Reachable states: well-linked lists whose reading satisfies the
      bucket and `min_freq` invariants. */
  predicate Inv<K(==), V>(st: Lfu<K, V>) {
    Linked(st) && LfuBuckets.Inv(Abs(st))
  }

  /** If the lists hold the sequences `b`, then `b` is how they read. */
  lemma BucketsAre<K>(lists: map<int, SizedDll.Dll<K>>, b: map<int, seq<K>>)
    requires SizedDll.Represents(lists, b)
    ensures Buckets(lists) == b
  {
    forall f | f in lists
      ensures Members(lists[f]) == b[f]
    {
      SizedDll.SizeBoundsWalk(lists[f], b[f]);
    }
  }

  /** LFUCache(capacity): no nodes, no lists, min_freq 1. */
  function New<K(==), V>(capacity: int): (st: Lfu<K, V>)
    ensures Linked(st) && Abs(st) == LfuBuckets.New(capacity)
  {
    var st := Lfu(capacity, map[], map[], 1);
    assert Buckets(st.freqMap) == map[];
    st
  }

  /** _delete_from_freq_map: delete the node of `k` from the list of its
      frequency. */
  function DeleteFromFreqMap<K(==), V>(st: Lfu<K, V>, k: K): (r: Lfu<K, V>)
    requires Linked(st) && k in st.cache && st.cache[k].freq in st.freqMap
    requires k in Buckets(st.freqMap)[st.cache[k].freq]
    ensures Linked(r) && Abs(r) == LfuBuckets.DeleteFromFreqMap(Abs(st), k)
  {
    var f := st.cache[k].freq;
    var b := Buckets(st.freqMap);
    SizedDll.DeleteRefines(st.freqMap, b, f, k);
    var r := st.(freqMap := st.freqMap[f := SizedDll.Delete(st.freqMap[f], k)]);
    BucketsAre(r.freqMap, b[f := Remove(b[f], k)]);
    r
  }

  /** _add_to_freq_map: fetch the list of the node's frequency, or a new
      one, and insert the node before its tail. */
  function AddToFreqMap<K(==), V>(st: Lfu<K, V>, k: K): (r: Lfu<K, V>)
    requires Linked(st) && k in st.cache
    requires st.cache[k].freq in st.freqMap ==> k !in Buckets(st.freqMap)[st.cache[k].freq]
    ensures Linked(r) && Abs(r) == LfuBuckets.AddToFreqMap(Abs(st), k)
  {
    var f := st.cache[k].freq;
    var b := Buckets(st.freqMap);
    SizedDll.AddRefines(st.freqMap, b, f, k);
    var d := if f in st.freqMap then st.freqMap[f] else SizedDll.New();
    var r := st.(freqMap := st.freqMap[f := SizedDll.Insert(d, k)]);
    BucketsAre(r.freqMap, b[f := (if f in b then b[f] else []) + [k]]);
    r
  }

  /** _update: delete the node from its list; if the list of min_freq now
      has size 0, raise min_freq; bump the node's frequency and add it to
      the list of the new frequency. */
  function Update<K(==), V>(st: Lfu<K, V>, k: K): (r: Lfu<K, V>)
    requires Inv(st) && k in st.cache
    ensures Inv(r) && Abs(r) == LfuBuckets.Update(Abs(st), k)
  {
    UpdateCanDelete(st, k);
    var s1 := DeleteFromFreqMap(st, k);
    DeleteKeepsMinList(st, k, s1);
    NotInNextList(st, k, s1);
    var s2 := Bump(s1, k);
    BumpRefines(s1, k);
    var r := AddToFreqMap(s2, k);
    UpdateRefines(st, k, r);
    r
  }

  /** The middle of _update: the size test on the list of min_freq, then
      the frequency bump. */
  function Bump<K(==), V>(s1: Lfu<K, V>, k: K): Lfu<K, V>
    requires k in s1.cache && s1.minFreq in s1.freqMap
  {
    var node := s1.cache[k];
    var minFreq := if s1.freqMap[s1.minFreq].size == 0 then s1.minFreq + 1 else s1.minFreq;
    s1.(cache := s1.cache[k := node.(freq := node.freq + 1)], minFreq := minFreq)
  }

  /** The node of a cached key is linked in the list of its frequency. */
  lemma UpdateCanDelete<K, V>(st: Lfu<K, V>, k: K)
    requires Inv(st) && k in st.cache
    ensures st.cache[k].freq in st.freqMap && k in Buckets(st.freqMap)[st.cache[k].freq]
  {
  }

  /** After the delete, min_freq still names a list. */
  lemma DeleteKeepsMinList<K, V>(st: Lfu<K, V>, k: K, s1: Lfu<K, V>)
    requires Inv(st) && k in st.cache
    requires Abs(s1) == LfuBuckets.DeleteFromFreqMap(Abs(st), k)
    ensures k in s1.cache && s1.minFreq in s1.freqMap
  {
    LfuBuckets.MinBucketCheck(Abs(st), k);
    assert s1.minFreq in Buckets(s1.freqMap);
  }

  /** The size test is the emptiness test, so the linked bump reads as
      the bucket-level bump. */
  lemma BumpRefines<K, V>(s1: Lfu<K, V>, k: K)
    requires Linked(s1) && k in s1.cache && s1.minFreq in s1.freqMap
    ensures Linked(Bump(s1, k)) && Bump(s1, k).cache[k].freq == s1.cache[k].freq + 1
    ensures Bump(s1, k).freqMap == s1.freqMap
    ensures Abs(Bump(s1, k)) == LfuBuckets.Bump(Abs(s1), k)
  {
    SizedDll.EmptyTestRefines(s1.freqMap, Buckets(s1.freqMap), s1.minFreq);
  }

  /** After the delete, the node is in no list of the next frequency. */
  lemma NotInNextList<K, V>(st: Lfu<K, V>, k: K, s1: Lfu<K, V>)
    requires Inv(st) && k in st.cache
    requires Abs(s1) == LfuBuckets.DeleteFromFreqMap(Abs(st), k)
    ensures k in s1.cache && s1.cache[k].freq == st.cache[k].freq
    ensures st.cache[k].freq + 1 in s1.freqMap ==> k !in Buckets(s1.freqMap)[st.cache[k].freq + 1]
  {
    NotInNextBucket(Abs(st), k);
  }

  lemma NotInNextBucket<K, V>(a: LfuBuckets.Lfu<K, V>, k: K)
    requires LfuBuckets.BucketsMatch(a) && k in a.cache
    ensures var a1 := LfuBuckets.DeleteFromFreqMap(a, k);
            a.cache[k].freq + 1 in a1.freqMap ==> k !in a1.freqMap[a.cache[k].freq + 1]
  {
    var f := a.cache[k].freq;
    var a1 := LfuBuckets.DeleteFromFreqMap(a, k);
    if f + 1 in a1.freqMap {
      assert a1.freqMap[f + 1] == a.freqMap[f + 1];
    }
  }

  /** The linked-list update ends where the bucket-level update does. */
  lemma UpdateRefines<K, V>(st: Lfu<K, V>, k: K, r: Lfu<K, V>)
    requires Inv(st) && k in st.cache
    requires var a1 := LfuBuckets.DeleteFromFreqMap(Abs(st), k);
             && a1.minFreq in a1.freqMap
             && Linked(r) && Abs(r) == LfuBuckets.AddToFreqMap(LfuBuckets.Bump(a1, k), k)
    ensures Inv(r) && Abs(r) == LfuBuckets.Update(Abs(st), k)
  {
    UpdateAgrees(Abs(st), k, Abs(r));
  }

  /** At the bucket level: deleting, the min_freq test, the bump and the
      add are the bucket-level update, which keeps the invariant. */
  lemma UpdateAgrees<K, V>(a: LfuBuckets.Lfu<K, V>, k: K, ar: LfuBuckets.Lfu<K, V>)
    requires LfuBuckets.Inv(a) && k in a.cache
    requires var a1 := LfuBuckets.DeleteFromFreqMap(a, k);
             && a1.minFreq in a1.freqMap
             && ar == LfuBuckets.AddToFreqMap(LfuBuckets.Bump(a1, k), k)
    ensures LfuBuckets.Inv(ar) && ar == LfuBuckets.Update(a, k)
  {
    assert ar == LfuBuckets.Update(a, k);
    LfuBuckets.UpdateKeepsInv(a, k);
  }

  /** The eviction in put: delete the node after the head of the list of
      min_freq, then drop its key from the cache. */
  function Evict<K(==), V>(st: Lfu<K, V>): (r: Lfu<K, V>)
    requires Inv(st) && |st.cache| > 0
    ensures Linked(r) && Abs(r) == LfuBuckets.Evict(Abs(st))
  {
    var a := Abs(st);
    LfuBuckets.VictimIsLeastFrequent(a);
    SizedDll.EvictHeadRefines(st.freqMap, a.freqMap, st.minFreq);
    var d := st.freqMap[st.minFreq];
    var victim := d.links.next[Head].key;
    var r := st.(freqMap := st.freqMap[st.minFreq := SizedDll.Delete(d, victim)],
                 cache := st.cache - {victim});
    BucketsAre(r.freqMap, a.freqMap[st.minFreq := a.freqMap[st.minFreq][1..]]);
    r
  }

  /** A new node of frequency 1 enters the cache, min_freq is reset to 1,
      and the node is added to the list of frequency 1. */
  function Insert<K(==), V>(st: Lfu<K, V>, k: K, v: V): (r: Lfu<K, V>)
    requires Linked(st) && LfuBuckets.BucketsMatch(Abs(st)) && k !in st.cache
    ensures Linked(r) && Abs(r) == LfuBuckets.Insert(Abs(st), k, v)
  {
    var s := st.(cache := st.cache[k := LfuBuckets.Node(v, 1)], minFreq := 1);
    assert Buckets(s.freqMap) == Abs(st).freqMap;
    AddToFreqMap(s, k)
  }

  /** LFUCache.put: a cached key gets the new value and is updated; a new
      key first evicts when the cache is full, then enters. */
  function Put<K(==), V>(st: Lfu<K, V>, k: K, v: V): (r: Lfu<K, V>)
    requires Inv(st)
    ensures Inv(r) && Abs(r) == LfuBuckets.Put(Abs(st), k, v)
  {
    LfuBuckets.PutKeepsInv(Abs(st), k, v);
    if k in st.cache then
      var s := st.(cache := st.cache[k := st.cache[k].(val := v)]);
      assert Abs(s) == LfuBuckets.SetValue(Abs(st), k, v);
      Update(s, k)
    else
      var s := if |st.cache| == st.capacity then Evict(st) else st;
      PutMadeRoom(st, s);
      Insert(s, k, v)
  }

  /** After the capacity test the reading is the bucket-level state after
      MakeRoom, whose buckets still match. */
  lemma PutMadeRoom<K, V>(st: Lfu<K, V>, s: Lfu<K, V>)
    requires Inv(st)
    requires |st.cache| == st.capacity ==> |st.cache| > 0 && Linked(s) && Abs(s) == LfuBuckets.Evict(Abs(st))
    requires |st.cache| != st.capacity ==> s == st
    ensures Linked(s) && Abs(s) == LfuBuckets.MakeRoom(Abs(st))
    ensures LfuBuckets.BucketsMatch(Abs(s)) && s.cache.Keys <= st.cache.Keys
  {
    if |st.cache| == st.capacity {
      LfuBuckets.EvictKeepsBuckets(Abs(st));
    }
  }

  /** LFUCache.get: on a hit, update the node and return its value; on a
      miss return None. */
  function Get<K(==), V>(st: Lfu<K, V>, k: K): (r: (Lfu<K, V>, Option<V>))
    requires Inv(st)
    ensures Inv(r.0)
    ensures Abs(r.0) == LfuBuckets.Get(Abs(st), k).0 && r.1 == LfuBuckets.Get(Abs(st), k).1
  {
    if k in st.cache then
      var s := Update(st, k);
      (s, Some(s.cache[k].val))
    else (st, None)
  }

  /** The documented capacity-2 run on the linked lists: after the last put
      the list of frequency 1 holds Orange, the list of frequency 2 holds
      Mango, each with size 1, and min_freq is 1. */
  method Demo() returns (final: Lfu<LfuBuckets.Fruit, int>)
    ensures final.cache == map[LfuBuckets.Mango := LfuBuckets.Node(41, 2), LfuBuckets.Orange := LfuBuckets.Node(30, 1)]
    ensures Buckets(final.freqMap) == map[1 := [LfuBuckets.Orange], 2 := [LfuBuckets.Mango]]
    ensures final.freqMap.Keys == {1, 2} && final.freqMap[1].size == 1 && final.freqMap[2].size == 1
    ensures final.minFreq == 1
  {
    var st := New<LfuBuckets.Fruit, int>(2);
    assert Inv(st);
    LfuBuckets.DemoApple(Abs(st));
    st := Put(st, LfuBuckets.Apple, 40);
    LfuBuckets.DemoBanana(Abs(st));
    st := Put(st, LfuBuckets.Banana, 20);
    LfuBuckets.DemoAppleAgain(Abs(st));
    st := Put(st, LfuBuckets.Apple, 110);
    LfuBuckets.DemoOrange(Abs(st));
    st := Put(st, LfuBuckets.Orange, 30);
    LfuBuckets.DemoMango(Abs(st));
    st := Put(st, LfuBuckets.Mango, 40);
    LfuBuckets.DemoMangoAgain(Abs(st));
    st := Put(st, LfuBuckets.Mango, 41);
    LfuBuckets.DemoOrangeAgain(Abs(st));
    st := Put(st, LfuBuckets.Orange, 30);
    DemoSizes(st);
    final := st;
  }

  /** Each list of the final state counts its one node. */
  lemma DemoSizes(st: Lfu<LfuBuckets.Fruit, int>)
    requires Linked(st) && Buckets(st.freqMap) == map[1 := [LfuBuckets.Orange], 2 := [LfuBuckets.Mango]]
    ensures st.freqMap.Keys == {1, 2} && st.freqMap[1].size == 1 && st.freqMap[2].size == 1
  {
    assert st.freqMap.Keys == Buckets(st.freqMap).Keys;
    assert SizedDll.Holds(st.freqMap[1], Buckets(st.freqMap)[1]);
    assert SizedDll.Holds(st.freqMap[2], Buckets(st.freqMap)[2]);
  }
}
