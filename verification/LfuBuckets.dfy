/** The O(1) LFU cache of lfuCacheUsingDLL.py, with each frequency bucket's
    doubly linked list read as the sequence of its keys, least recently
    touched first. Module LfuDll shows that the linked lists with their
    `size` counters (module SizedDll) implement these sequences.

    State: `cache` maps a key to its node (value and access frequency),
    `freqMap` maps a frequency to its bucket, and `minFreq` is maintained
    incrementally so that eviction need not search. */
module LfuBuckets {
  import opened Seqs
  import opened Options

  /** A node: its value and how often it has been accessed. The node's key
      is the key the cache maps to it. */
  datatype Node<V> = Node(val: V, freq: int)

  datatype Lfu<K(==), V> = Lfu(capacity: int, cache: map<K, Node<V>>, freqMap: map<int, seq<K>>, minFreq: int)

  /** LFUCache(capacity): empty maps and min_freq 1. */
  function New<K(==), V>(capacity: int): (r: Lfu<K, V>)
    ensures |r.cache| == 0
    ensures Inv(r) <==> capacity >= 1
  {
    Lfu(capacity, map[], map[], 1)
  }

  /** freq_map.get(f, DLL()): the bucket of `f`, or a new empty one. */
  function BucketOf<K(==)>(freqMap: map<int, seq<K>>, f: int): seq<K> {
    if f in freqMap then freqMap[f] else []
  }

  /** Every cached key sits in the bucket of its own frequency, which is
      positive; every bucket lists distinct cached keys of its frequency. */
  predicate BucketsMatch<K(==), V>(st: Lfu<K, V>) {
    && (forall k | k in st.cache ::
          st.cache[k].freq >= 1 && st.cache[k].freq in st.freqMap && k in st.freqMap[st.cache[k].freq])
    && (forall f | f in st.freqMap :: Distinct(st.freqMap[f]))
    && (forall f, k | f in st.freqMap && k in st.freqMap[f] :: k in st.cache && st.cache[k].freq == f)
  }

  /** When the cache holds anything, `minFreq` names a non-empty bucket, and
      no non-empty bucket has a smaller frequency. */
  predicate MinFreqIsLeast<K(==), V>(st: Lfu<K, V>) {
    && (|st.cache| > 0 ==> st.minFreq in st.freqMap && |st.freqMap[st.minFreq]| > 0)
    && (forall f | f in st.freqMap && |st.freqMap[f]| > 0 :: st.minFreq <= f)
  }

  /** Reachable states. The source never checks the capacity: with
      capacity 0 the first put raises KeyError, so a positive capacity is
      part of the invariant. */
  predicate Inv<K(==), V>(st: Lfu<K, V>) {
    && st.capacity >= 1
    && |st.cache| <= st.capacity
    && BucketsMatch(st)
    && MinFreqIsLeast(st)
  }

  /** _delete_from_freq_map: splice `k` out of the bucket of its frequency. */
  function DeleteFromFreqMap<K(==), V>(st: Lfu<K, V>, k: K): Lfu<K, V>
    requires k in st.cache && st.cache[k].freq in st.freqMap
  {
    var f := st.cache[k].freq;
    st.(freqMap := st.freqMap[f := Remove(st.freqMap[f], k)])
  }

  /** _add_to_freq_map: append `k` at the tail of the bucket of its
      frequency, creating the bucket if there is none. */
  function AddToFreqMap<K(==), V>(st: Lfu<K, V>, k: K): Lfu<K, V>
    requires k in st.cache
  {
    var f := st.cache[k].freq;
    st.(freqMap := st.freqMap[f := BucketOf(st.freqMap, f) + [k]])
  }

  /** _update: delete the node from its bucket; if the min_freq bucket is
      now empty, raise min_freq by one; bump the node's frequency and add
      it to the bucket of its new frequency. Every other key keeps its
      node. */
  function Update<K(==), V>(st: Lfu<K, V>, k: K): (r: Lfu<K, V>)
    requires Inv(st) && k in st.cache
    ensures r.capacity == st.capacity && r.cache.Keys == st.cache.Keys
    ensures r.cache[k] == Node(st.cache[k].val, st.cache[k].freq + 1)
    ensures forall j | j in st.cache && j != k :: r.cache[j] == st.cache[j]
  {
    MinBucketCheck(st, k);
    AddToFreqMap(Bump(DeleteFromFreqMap(st, k), k), k)
  }

  /** The middle of _update, after the delete: the emptiness test on the
      min_freq bucket, then the frequency bump. */
  function Bump<K(==), V>(s1: Lfu<K, V>, k: K): Lfu<K, V>
    requires k in s1.cache && s1.minFreq in s1.freqMap
  {
    var node := s1.cache[k];
    var minFreq := if |s1.freqMap[s1.minFreq]| == 0 then s1.minFreq + 1 else s1.minFreq;
    s1.(cache := s1.cache[k := node.(freq := node.freq + 1)], minFreq := minFreq)
  }

  /** The eviction in put: the head of the min_freq bucket leaves its bucket
      and the cache. */
  function Evict<K(==), V>(st: Lfu<K, V>): Lfu<K, V>
    requires Inv(st) && |st.cache| > 0
  {
    var b := st.freqMap[st.minFreq];
    st.(cache := st.cache - {b[0]}, freqMap := st.freqMap[st.minFreq := b[1..]])
  }

  /** LFUCache.get: on a hit, update the node and return its value; on a
      miss return None and change nothing. */
  function Get<K(==), V>(st: Lfu<K, V>, k: K): (r: (Lfu<K, V>, Option<V>))
    requires Inv(st)
    ensures r.1.Some? <==> k in st.cache
    ensures r.1.Some? ==> r.1.value == st.cache[k].val
  {
    if k in st.cache then
      var s := Update(st, k);
      (s, Some(s.cache[k].val))
    else (st, None)
  }

  /** LFUCache.put: a present key gets the new value and is updated; an
      absent key first evicts when the cache is full, then enters with
      frequency 1 at the tail of bucket 1, and min_freq becomes 1. */
  function Put<K(==), V>(st: Lfu<K, V>, k: K, v: V): (r: Lfu<K, V>)
    requires Inv(st)
    ensures r.capacity == st.capacity
    ensures k in r.cache && r.cache[k].val == v
  {
    if k in st.cache then Update(SetValue(st, k, v), k)
    else Insert(MakeRoom(st), k, v)
  }

  /** node.val = val, for a present key. */
  function SetValue<K(==), V>(st: Lfu<K, V>, k: K, v: V): (r: Lfu<K, V>)
    requires Inv(st) && k in st.cache
    ensures Inv(r) && k in r.cache
  {
    SetValueKeepsInv(st, k, v);
    st.(cache := st.cache[k := st.cache[k].(val := v)])
  }

  /** The capacity test of put: evict only when the cache is full. */
  function MakeRoom<K(==), V>(st: Lfu<K, V>): Lfu<K, V>
    requires Inv(st)
  {
    if |st.cache| == st.capacity then Evict(st) else st
  }

  /** A new node for `k` at frequency 1 goes to the tail of bucket 1, and
      min_freq is reset to 1. */
  function Insert<K(==), V>(st: Lfu<K, V>, k: K, v: V): Lfu<K, V> {
    AddToFreqMap(st.(cache := st.cache[k := Node(v, 1)], minFreq := 1), k)
  }

  /** Giving a node a new value touches no frequency, bucket or minimum. */
  lemma SetValueKeepsInv<K, V>(st: Lfu<K, V>, k: K, v: V)
    requires Inv(st) && k in st.cache
    ensures Inv(st.(cache := st.cache[k := st.cache[k].(val := v)]))
  {
    assert st.cache[k := st.cache[k].(val := v)].Keys == st.cache.Keys;
  }

  /** Each cached key lies in exactly one bucket, the bucket of its
      frequency. */
  lemma ExactlyOneBucket<K, V>(st: Lfu<K, V>, k: K, f: int)
    requires BucketsMatch(st) && k in st.cache && f in st.freqMap
    ensures k in st.freqMap[f] <==> f == st.cache[k].freq
  {
  }

  /** The buckets together hold exactly the cached keys. */
  lemma KeysAreBucketUnion<K, V>(st: Lfu<K, V>, k: K)
    requires BucketsMatch(st)
    ensures k in st.cache <==> exists f :: f in st.freqMap && k in st.freqMap[f]
  {
    if k in st.cache {
      var f := st.cache[k].freq;
      assert f in st.freqMap && k in st.freqMap[f];
    }
  }

  /** A non-empty bucket has a positive frequency: it holds a cached key of
      that frequency. */
  lemma NonEmptyBucketPositive<K, V>(st: Lfu<K, V>, f: int)
    requires BucketsMatch(st) && f in st.freqMap && |st.freqMap[f]| > 0
    ensures f >= 1
  {
    var j := st.freqMap[f][0];
    assert j in st.freqMap[f];
    assert j in st.cache && st.cache[j].freq == f;
  }

  /** _update tests whether the min_freq bucket is empty, not whether the
      node's own bucket is. Under the invariant the two agree where it
      matters: after the delete, the min_freq bucket is empty exactly when
      the node was the only key of minimum frequency. */
  lemma MinBucketCheck<K, V>(st: Lfu<K, V>, k: K)
    requires Inv(st) && k in st.cache
    ensures st.minFreq in DeleteFromFreqMap(st, k).freqMap
    ensures |DeleteFromFreqMap(st, k).freqMap[st.minFreq]| == 0
            <==> st.cache[k].freq == st.minFreq && st.freqMap[st.minFreq] == [k]
  {
    var f := st.cache[k].freq;
    var b := st.freqMap[f];
    if f == st.minFreq && |b| == 1 {
      assert b[0] in b;
      assert b == [k];
    }
  }

  /** How _update moves a key: its frequency grows by one, it leaves its old
      bucket, whose other keys keep their order, and joins the tail of the
      next bucket; min_freq grows, by one, exactly when the key was alone at
      the minimum frequency. Nothing else changes. */
  lemma UpdateMoves<K, V>(st: Lfu<K, V>, k: K)
    requires Inv(st) && k in st.cache
    ensures var f := st.cache[k].freq;
            && Update(st, k).cache == st.cache[k := Node(st.cache[k].val, f + 1)]
            && Update(st, k).freqMap
               == st.freqMap[f := Remove(st.freqMap[f], k)][f + 1 := BucketOf(st.freqMap, f + 1) + [k]]
            && Update(st, k).minFreq
               == if f == st.minFreq && st.freqMap[f] == [k] then st.minFreq + 1 else st.minFreq
  {
    MinBucketCheck(st, k);
  }

  /** The moved key keeps every bucket matching its frequencies. */
  lemma MoveKeepsBuckets<K, V>(st: Lfu<K, V>, k: K, r: Lfu<K, V>)
    requires BucketsMatch(st) && k in st.cache
    requires var f := st.cache[k].freq;
             && r.cache == st.cache[k := Node(st.cache[k].val, f + 1)]
             && r.freqMap == st.freqMap[f := Remove(st.freqMap[f], k)][f + 1 := BucketOf(st.freqMap, f + 1) + [k]]
    ensures BucketsMatch(r)
  {
    var f := st.cache[k].freq;
    var old1 := BucketOf(st.freqMap, f + 1);
    assert k !in old1;
    AppendDistinct(old1, k);
    forall j | j in r.cache
      ensures r.cache[j].freq >= 1 && r.cache[j].freq in r.freqMap && j in r.freqMap[r.cache[j].freq]
    {
      if j != k {
        var g := st.cache[j].freq;
        if g == f {
          assert j in Elements(Remove(st.freqMap[f], k));
        } else if g == f + 1 {
          assert j in old1;
        }
      }
    }
    forall g, j | g in r.freqMap && j in r.freqMap[g]
      ensures j in r.cache && r.cache[j].freq == g
    {
      if g == f + 1 {
        assert j in Elements(old1 + [k]);
      } else if g == f {
        assert j in Elements(st.freqMap[f]) - {k};
      }
    }
  }

  /** The moved key keeps min_freq the least non-empty frequency. */
  lemma MoveKeepsMinFreq<K, V>(st: Lfu<K, V>, k: K, r: Lfu<K, V>)
    requires Inv(st) && k in st.cache
    requires var f := st.cache[k].freq;
             && r.cache.Keys == st.cache.Keys
             && r.freqMap == st.freqMap[f := Remove(st.freqMap[f], k)][f + 1 := BucketOf(st.freqMap, f + 1) + [k]]
             && r.minFreq == if f == st.minFreq && st.freqMap[f] == [k] then st.minFreq + 1 else st.minFreq
    ensures MinFreqIsLeast(r)
  {
    var f := st.cache[k].freq;
    assert st.minFreq <= f;
    if f == st.minFreq && st.freqMap[f] == [k] {
      assert Remove(st.freqMap[f], k) == [];
      forall g | g in r.freqMap && |r.freqMap[g]| > 0
        ensures r.minFreq <= g
      {
        if g != f + 1 {
          assert g != f;
          assert g in st.freqMap && |st.freqMap[g]| > 0;
        }
      }
    } else {
      MinBucketCheck(st, k);
      assert |r.freqMap[st.minFreq]| > 0;
      forall g | g in r.freqMap && |r.freqMap[g]| > 0
        ensures r.minFreq <= g
      {
        if g != f + 1 && g != f {
          assert g in st.freqMap && |st.freqMap[g]| > 0;
        }
      }
    }
  }

  /** _update keeps the invariant. */
  lemma UpdateKeepsInv<K, V>(st: Lfu<K, V>, k: K)
    requires Inv(st) && k in st.cache
    ensures Inv(Update(st, k))
  {
    UpdateMoves(st, k);
    MoveKeepsBuckets(st, k, Update(st, k));
    MoveKeepsMinFreq(st, k, Update(st, k));
  }

  /** The key a full cache evicts is the head of the min_freq bucket: it has
      the smallest frequency of all cached keys, and its bucket holds every
      key of that frequency. Which of them is at the head follows from how
      the buckets change: keys join at the tail (`UpdateMoves`, `PutNew`)
      and `Remove` keeps the order of the others. */
  lemma VictimIsLeastFrequent<K, V>(st: Lfu<K, V>)
    requires Inv(st) && |st.cache| > 0
    ensures st.minFreq in st.freqMap && |st.freqMap[st.minFreq]| > 0
    ensures var victim := st.freqMap[st.minFreq][0];
            && victim in st.cache && st.cache[victim].freq == st.minFreq
            && (forall j | j in st.cache :: st.cache[victim].freq <= st.cache[j].freq)
            && (forall j | j in st.cache && st.cache[j].freq == st.minFreq :: j in st.freqMap[st.minFreq])
  {
    var b := st.freqMap[st.minFreq];
    assert b[0] in b;
    forall j | j in st.cache
      ensures st.minFreq <= st.cache[j].freq
    {
      assert j in st.freqMap[st.cache[j].freq];
    }
  }

  /** Evicting the victim keeps the buckets matching and removes exactly
      that key. */
  lemma EvictKeepsBuckets<K, V>(st: Lfu<K, V>)
    requires Inv(st) && |st.cache| > 0
    ensures st.minFreq in st.freqMap && |st.freqMap[st.minFreq]| > 0
    ensures BucketsMatch(Evict(st))
    ensures Evict(st).cache.Keys == st.cache.Keys - {st.freqMap[st.minFreq][0]}
    ensures |Evict(st).cache| == |st.cache| - 1
  {
    var b := st.freqMap[st.minFreq];
    var r := Evict(st);
    assert r.cache == st.cache - {b[0]};
    assert b[0] in st.cache by {
      assert b[0] in b;
    }
    DropHeadKeepsBuckets(st, st.minFreq, r);
    RemoveKeySize(st.cache, b[0]);
  }

  /** Removing a present key shrinks a map by one. */
  lemma RemoveKeySize<K, W>(m: map<K, W>, x: K)
    requires x in m
    ensures |m - {x}| == |m| - 1
  {
    assert m.Keys == (m - {x}).Keys + {x};
  }

  /** Taking the head key out of a bucket and out of the cache keeps the
      buckets matching. */
  lemma DropHeadKeepsBuckets<K, V>(st: Lfu<K, V>, f: int, r: Lfu<K, V>)
    requires BucketsMatch(st) && f in st.freqMap && |st.freqMap[f]| > 0
    requires r.cache == st.cache - {st.freqMap[f][0]}
    requires r.freqMap == st.freqMap[f := st.freqMap[f][1..]]
    ensures BucketsMatch(r)
  {
    var b := st.freqMap[f];
    var victim := b[0];
    assert victim in b;
    assert st.cache[victim].freq == f;
    assert b == [victim] + b[1..];
    assert victim !in b[1..];
    forall j | j in r.cache
      ensures r.cache[j].freq >= 1 && r.cache[j].freq in r.freqMap && j in r.freqMap[r.cache[j].freq]
    {
      if st.cache[j].freq == f {
        assert j in b;
      }
    }
    forall g, j | g in r.freqMap && j in r.freqMap[g]
      ensures j in r.cache && r.cache[j].freq == g
    {
      if g == f {
        assert j in b;
      } else {
        assert j in st.freqMap[g];
      }
    }
  }

  /** A new key entering at frequency 1 keeps the buckets matching. */
  lemma InsertKeepsBuckets<K, V>(st: Lfu<K, V>, k: K, v: V)
    requires BucketsMatch(st) && k !in st.cache
    ensures BucketsMatch(Insert(st, k, v))
  {
    var r := Insert(st, k, v);
    var old1 := BucketOf(st.freqMap, 1);
    assert k !in old1;
    AppendDistinct(old1, k);
    forall g, j | g in r.freqMap && j in r.freqMap[g]
      ensures j in r.cache && r.cache[j].freq == g
    {
      if g == 1 {
        assert j in Elements(old1 + [k]);
      }
    }
  }

  /** get on a present key returns its value and performs _update: the
      frequency grows by exactly one, the key moves to the tail of the next
      bucket, and the key set and all values are unchanged. */
  lemma GetHit<K, V>(st: Lfu<K, V>, k: K)
    requires Inv(st) && k in st.cache
    ensures Get(st, k).1 == Some(st.cache[k].val)
    ensures var f := st.cache[k].freq;
            var r := Get(st, k).0;
            && r.cache == st.cache[k := Node(st.cache[k].val, f + 1)]
            && r.freqMap == st.freqMap[f := Remove(st.freqMap[f], k)][f + 1 := BucketOf(st.freqMap, f + 1) + [k]]
            && Inv(r)
  {
    UpdateMoves(st, k);
    UpdateKeepsInv(st, k);
  }

  /** get on an absent key returns None and changes nothing. */
  lemma GetMiss<K, V>(st: Lfu<K, V>, k: K)
    requires Inv(st) && k !in st.cache
    ensures Get(st, k) == (st, None)
  {
  }

  /** put on a present key replaces the value in place and bumps the
      frequency as get does; it never evicts and the number of keys stays
      the same. */
  lemma PutPresent<K, V>(st: Lfu<K, V>, k: K, v: V)
    requires Inv(st) && k in st.cache
    ensures var f := st.cache[k].freq;
            var r := Put(st, k, v);
            && r.cache == st.cache[k := Node(v, f + 1)]
            && r.freqMap == st.freqMap[f := Remove(st.freqMap[f], k)][f + 1 := BucketOf(st.freqMap, f + 1) + [k]]
            && r.minFreq == (if f == st.minFreq && st.freqMap[f] == [k] then st.minFreq + 1 else st.minFreq)
            && r.cache.Keys == st.cache.Keys
  {
    var s1 := SetValue(st, k, v);
    assert Put(st, k, v) == Update(s1, k);
    UpdateMoves(s1, k);
  }

  /** put of a new key: it enters bucket 1 at the tail with frequency 1 and
      min_freq becomes 1. Below capacity nothing leaves; at capacity exactly
      one key leaves, the head of the min_freq bucket. */
  lemma PutNew<K, V>(st: Lfu<K, V>, k: K, v: V)
    requires Inv(st) && k !in st.cache
    ensures Put(st, k, v).minFreq == 1
    ensures Put(st, k, v).cache[k] == Node(v, 1)
    ensures |st.cache| < st.capacity ==>
              && Put(st, k, v).cache == st.cache[k := Node(v, 1)]
              && Put(st, k, v).freqMap == st.freqMap[1 := BucketOf(st.freqMap, 1) + [k]]
    ensures |st.cache| == st.capacity ==>
              && st.minFreq in st.freqMap && |st.freqMap[st.minFreq]| > 0
              && var b := st.freqMap[st.minFreq];
                 var rest := st.freqMap[st.minFreq := b[1..]];
                 && Put(st, k, v).cache == (st.cache - {b[0]})[k := Node(v, 1)]
                 && Put(st, k, v).freqMap == rest[1 := BucketOf(rest, 1) + [k]]
  {
  }

  /** put keeps the invariant; in particular the cache never holds more
      than `capacity` keys. */
  lemma PutKeepsInv<K, V>(st: Lfu<K, V>, k: K, v: V)
    requires Inv(st)
    ensures Inv(Put(st, k, v))
    ensures |Put(st, k, v).cache| <= st.capacity
  {
    if k in st.cache {
      UpdateKeepsInv(SetValue(st, k, v), k);
    } else {
      PutNewKeepsInv(st, k, v);
    }
  }

  lemma PutNewKeepsInv<K, V>(st: Lfu<K, V>, k: K, v: V)
    requires Inv(st) && k !in st.cache
    ensures Inv(Put(st, k, v))
  {
    var s1 := MakeRoom(st);
    if |st.cache| == st.capacity {
      EvictKeepsBuckets(st);
    }
    assert k !in s1.cache && |s1.cache| < st.capacity && BucketsMatch(s1);
    InsertKeepsBuckets(s1, k, v);
    InsertSetsMinFreq(s1, k, v);
    assert |s1.cache[k := Node(v, 1)]| == |s1.cache| + 1;
  }

  /** After a new key enters bucket 1, min_freq 1 is the least non-empty
      frequency. */
  lemma InsertSetsMinFreq<K, V>(st: Lfu<K, V>, k: K, v: V)
    requires BucketsMatch(st) && k !in st.cache
    ensures MinFreqIsLeast(Insert(st, k, v))
  {
    var r := Insert(st, k, v);
    InsertKeepsBuckets(st, k, v);
    assert 1 in r.freqMap && k in r.freqMap[1];
    forall g | g in r.freqMap && |r.freqMap[g]| > 0
      ensures r.minFreq <= g
    {
      NonEmptyBucketPositive(r, g);
    }
  }

  /** The keys of the documented run. */
  datatype Fruit = Apple | Banana | Orange | Mango

  /** The documented capacity-2 run: put Apple 40, Banana 20, Apple 110,
      Orange 30, Mango 40, Mango 41, Orange 30. Updating Mango empties
      bucket 1 and raises min_freq to 2; the last put then evicts Apple,
      the least recently touched key of bucket 2, and resets min_freq to 1. */
  method Demo() returns (afterMango: Lfu<Fruit, int>, final: Lfu<Fruit, int>)
    ensures afterMango.cache == map[Apple := Node(110, 2), Mango := Node(41, 2)]
    ensures afterMango.freqMap == map[1 := [], 2 := [Apple, Mango]]
    ensures afterMango.minFreq == 2
    ensures final.cache == map[Mango := Node(41, 2), Orange := Node(30, 1)]
    ensures final.freqMap == map[1 := [Orange], 2 := [Mango]]
    ensures final.minFreq == 1
  {
    var st := New<Fruit, int>(2);
    assert Inv(st);
    DemoApple(st);
    st := Put(st, Apple, 40);
    DemoBanana(st);
    st := Put(st, Banana, 20);
    DemoAppleAgain(st);
    st := Put(st, Apple, 110);
    DemoOrange(st);
    st := Put(st, Orange, 30);
    DemoMango(st);
    st := Put(st, Mango, 40);
    DemoMangoAgain(st);
    st := Put(st, Mango, 41);
    afterMango := st;
    DemoOrangeAgain(st);
    st := Put(st, Orange, 30);
    final := st;
  }

  lemma DemoApple(st: Lfu<Fruit, int>)
    requires Inv(st) && st == New(2)
    ensures Inv(Put(st, Apple, 40))
    ensures Put(st, Apple, 40).cache == map[Apple := Node(40, 1)]
    ensures Put(st, Apple, 40).freqMap == map[1 := [Apple]]
    ensures Put(st, Apple, 40).minFreq == 1
  {
    DemoAppleFacts();
    PutNew(st, Apple, 40);
    PutKeepsInv(st, Apple, 40);
  }

  lemma DemoAppleFacts()
    ensures map[][Apple := Node(40, 1)] == map[Apple := Node(40, 1)]
    ensures BucketOf(map[], 1) + [Apple] == [Apple]
    ensures map[][1 := [Apple]] == map[1 := [Apple]]
  {
  }

  lemma DemoBanana(st: Lfu<Fruit, int>)
    requires Inv(st) && st.capacity == 2
    requires st.cache == map[Apple := Node(40, 1)] && st.freqMap == map[1 := [Apple]] && st.minFreq == 1
    ensures Inv(Put(st, Banana, 20))
    ensures Put(st, Banana, 20).cache == map[Apple := Node(40, 1), Banana := Node(20, 1)]
    ensures Put(st, Banana, 20).freqMap == map[1 := [Apple, Banana]]
    ensures Put(st, Banana, 20).minFreq == 1
  {
    DemoBananaFacts();
    PutNew(st, Banana, 20);
    PutKeepsInv(st, Banana, 20);
  }

  lemma DemoBananaFacts()
    ensures |map[Apple := Node(40, 1)]| == 1
    ensures map[Apple := Node(40, 1)][Banana := Node(20, 1)] == map[Apple := Node(40, 1), Banana := Node(20, 1)]
    ensures BucketOf(map[1 := [Apple]], 1) + [Banana] == [Apple, Banana]
    ensures map[1 := [Apple]][1 := [Apple, Banana]] == map[1 := [Apple, Banana]]
  {
  }

  /** Apple moves to bucket 2; bucket 1 still holds Banana, so min_freq
      stays 1. */
  lemma DemoAppleAgain(st: Lfu<Fruit, int>)
    requires Inv(st) && st.capacity == 2
    requires st.cache == map[Apple := Node(40, 1), Banana := Node(20, 1)]
    requires st.freqMap == map[1 := [Apple, Banana]] && st.minFreq == 1
    ensures Inv(Put(st, Apple, 110))
    ensures Put(st, Apple, 110).cache == map[Apple := Node(110, 2), Banana := Node(20, 1)]
    ensures Put(st, Apple, 110).freqMap == map[1 := [Banana], 2 := [Apple]]
    ensures Put(st, Apple, 110).minFreq == 1
  {
    PutKeepsInv(st, Apple, 110);
    DemoAppleAgainFacts();
    PutPresent(st, Apple, 110);
    assert st.cache[Apple].freq == 1 && st.freqMap[1] != [Apple];
  }

  lemma DemoAppleAgainFacts()
    ensures Remove([Apple, Banana], Apple) == [Banana]
    ensures [Apple, Banana] != [Apple]
    ensures BucketOf(map[1 := [Apple, Banana]][1 := [Banana]], 2) + [Apple] == [Apple]
    ensures map[1 := [Apple, Banana]][1 := [Banana]][2 := [Apple]] == map[1 := [Banana], 2 := [Apple]]
    ensures map[Apple := Node(40, 1), Banana := Node(20, 1)][Apple := Node(110, 2)]
            == map[Apple := Node(110, 2), Banana := Node(20, 1)]
  {
    RemoveFirst([Apple, Banana]);
  }

  /** The cache is full: Banana, alone in the min_freq bucket, is evicted. */
  lemma DemoOrange(st: Lfu<Fruit, int>)
    requires Inv(st) && st.capacity == 2
    requires st.cache == map[Apple := Node(110, 2), Banana := Node(20, 1)]
    requires st.freqMap == map[1 := [Banana], 2 := [Apple]] && st.minFreq == 1
    ensures Inv(Put(st, Orange, 30))
    ensures Put(st, Orange, 30).cache == map[Apple := Node(110, 2), Orange := Node(30, 1)]
    ensures Put(st, Orange, 30).freqMap == map[1 := [Orange], 2 := [Apple]]
    ensures Put(st, Orange, 30).minFreq == 1
  {
    DemoOrangeFacts();
    PutNew(st, Orange, 30);
    PutKeepsInv(st, Orange, 30);
  }

  lemma DemoOrangeFacts()
    ensures |map[Apple := Node(110, 2), Banana := Node(20, 1)]| == 2
    ensures [Banana][0] == Banana && [Banana][1..] == []
    ensures (map[Apple := Node(110, 2), Banana := Node(20, 1)] - {Banana})[Orange := Node(30, 1)]
            == map[Apple := Node(110, 2), Orange := Node(30, 1)]
    ensures BucketOf(map[1 := [Banana], 2 := [Apple]][1 := []], 1) + [Orange] == [Orange]
    ensures map[1 := [Banana], 2 := [Apple]][1 := []][1 := [Orange]] == map[1 := [Orange], 2 := [Apple]]
  {
  }

  /** Orange, now alone at frequency 1, is evicted for Mango. */
  lemma DemoMango(st: Lfu<Fruit, int>)
    requires Inv(st) && st.capacity == 2
    requires st.cache == map[Apple := Node(110, 2), Orange := Node(30, 1)]
    requires st.freqMap == map[1 := [Orange], 2 := [Apple]] && st.minFreq == 1
    ensures Inv(Put(st, Mango, 40))
    ensures Put(st, Mango, 40).cache == map[Apple := Node(110, 2), Mango := Node(40, 1)]
    ensures Put(st, Mango, 40).freqMap == map[1 := [Mango], 2 := [Apple]]
    ensures Put(st, Mango, 40).minFreq == 1
  {
    DemoMangoFacts();
    PutNew(st, Mango, 40);
    PutKeepsInv(st, Mango, 40);
  }

  lemma DemoMangoFacts()
    ensures |map[Apple := Node(110, 2), Orange := Node(30, 1)]| == 2
    ensures [Orange][0] == Orange && [Orange][1..] == []
    ensures (map[Apple := Node(110, 2), Orange := Node(30, 1)] - {Orange})[Mango := Node(40, 1)]
            == map[Apple := Node(110, 2), Mango := Node(40, 1)]
    ensures BucketOf(map[1 := [Orange], 2 := [Apple]][1 := []], 1) + [Mango] == [Mango]
    ensures map[1 := [Orange], 2 := [Apple]][1 := []][1 := [Mango]] == map[1 := [Mango], 2 := [Apple]]
  {
  }

  /** Mango was alone at the minimum frequency: bucket 1 empties and
      min_freq rises to 2. */
  lemma DemoMangoAgain(st: Lfu<Fruit, int>)
    requires Inv(st) && st.capacity == 2
    requires st.cache == map[Apple := Node(110, 2), Mango := Node(40, 1)]
    requires st.freqMap == map[1 := [Mango], 2 := [Apple]] && st.minFreq == 1
    ensures Inv(Put(st, Mango, 41))
    ensures Put(st, Mango, 41).cache == map[Apple := Node(110, 2), Mango := Node(41, 2)]
    ensures Put(st, Mango, 41).freqMap == map[1 := [], 2 := [Apple, Mango]]
    ensures Put(st, Mango, 41).minFreq == 2
  {
    DemoMangoAgainFacts();
    PutPresent(st, Mango, 41);
    PutKeepsInv(st, Mango, 41);
  }

  lemma DemoMangoAgainFacts()
    ensures Remove([Mango], Mango) == []
    ensures BucketOf(map[1 := [Mango], 2 := [Apple]][1 := []], 2) + [Mango] == [Apple, Mango]
    ensures map[1 := [Mango], 2 := [Apple]][1 := []][2 := [Apple, Mango]] == map[1 := [], 2 := [Apple, Mango]]
    ensures map[Apple := Node(110, 2), Mango := Node(40, 1)][Mango := Node(41, 2)]
            == map[Apple := Node(110, 2), Mango := Node(41, 2)]
  {
    RemoveFirst([Mango]);
  }

  /** Both keys are at frequency 2; Apple joined bucket 2 first, so it is
      the one evicted. */
  lemma DemoOrangeAgain(st: Lfu<Fruit, int>)
    requires Inv(st) && st.capacity == 2
    requires st.cache == map[Apple := Node(110, 2), Mango := Node(41, 2)]
    requires st.freqMap == map[1 := [], 2 := [Apple, Mango]] && st.minFreq == 2
    ensures Inv(Put(st, Orange, 30))
    ensures Put(st, Orange, 30).cache == map[Mango := Node(41, 2), Orange := Node(30, 1)]
    ensures Put(st, Orange, 30).freqMap == map[1 := [Orange], 2 := [Mango]]
    ensures Put(st, Orange, 30).minFreq == 1
  {
    DemoOrangeAgainFacts();
    PutNew(st, Orange, 30);
    PutKeepsInv(st, Orange, 30);
  }

  lemma DemoOrangeAgainFacts()
    ensures |map[Apple := Node(110, 2), Mango := Node(41, 2)]| == 2
    ensures [Apple, Mango][0] == Apple && [Apple, Mango][1..] == [Mango]
    ensures (map[Apple := Node(110, 2), Mango := Node(41, 2)] - {Apple})[Orange := Node(30, 1)]
            == map[Mango := Node(41, 2), Orange := Node(30, 1)]
    ensures BucketOf(map[1 := [], 2 := [Apple, Mango]][2 := [Mango]], 1) + [Orange] == [Orange]
    ensures map[1 := [], 2 := [Apple, Mango]][2 := [Mango]][1 := [Orange]] == map[1 := [Orange], 2 := [Mango]]
  {
  }
}
