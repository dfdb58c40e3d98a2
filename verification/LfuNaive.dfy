/** The naive LFU cache of lfuCache.py: a key→value dict and a key→count
    dict. A put of a new key into a full cache finds the minimum count by
    scanning, and then evicts EVERY key that has that count, so one
    insertion can remove several keys. */
module LfuNaive {
  import opened Options

  datatype Naive<K(==), V> = Naive(capacity: int, cache: map<K, V>, frequency: map<K, int>)

  /** LFUCache(capacity): both dicts empty. */
  function New<K(==), V>(capacity: int): (r: Naive<K, V>)
    ensures |r.cache| == 0
    ensures Inv(r) <==> capacity >= 1
  {
    Naive(capacity, map[], map[])
  }

  /** The two dicts always have the same keys. */
  predicate SameKeys<K(==), V>(st: Naive<K, V>) {
    st.cache.Keys == st.frequency.Keys
  }

  /** Reachable states: same keys, positive counts, and (for a positive
      capacity, which the source assumes: `min` of an empty sequence raises
      ValueError) never more than `capacity` keys. */
  predicate Inv<K(==), V>(st: Naive<K, V>) {
    && st.capacity >= 1
    && SameKeys(st)
    && |st.cache| <= st.capacity
    && (forall k | k in st.frequency :: st.frequency[k] >= 1)
  }

  /** Some key of a non-empty count map has the least count. */
  lemma {:induction false} LeastKeyExists<K>(frequency: map<K, int>)
    requires |frequency| > 0
    ensures exists k :: k in frequency && forall j | j in frequency :: frequency[k] <= frequency[j]
    decreases |frequency|
  {
    var x :| x in frequency;
    var rest := frequency - {x};
    if |rest| > 0 {
      LeastKeyExists(rest);
      var m :| m in rest && forall j | j in rest :: rest[m] <= rest[j];
      var least := if frequency[x] < frequency[m] then x else m;
      forall j | j in frequency
        ensures frequency[least] <= frequency[j]
      {
        if j != x {
          assert j in rest;
        }
      }
    } else {
      forall j | j in frequency
        ensures frequency[x] <= frequency[j]
      {
        assert j !in rest;
      }
    }
  }

  /** min(frequency.values()): a count some key has, and no key has less. */
  function MinFreq<K(==)>(frequency: map<K, int>): (m: int)
    requires |frequency| > 0
    ensures exists k :: k in frequency && frequency[k] == m
    ensures forall j | j in frequency :: m <= frequency[j]
  {
    LeastKeyExists(frequency);
    var k :| k in frequency && forall j | j in frequency :: frequency[k] <= frequency[j];
    frequency[k]
  }

  /** keys_to_remove: every key whose count is the minimum. */
  function Doomed<K(==)>(frequency: map<K, int>): set<K>
    requires |frequency| > 0
  {
    set k | k in frequency && frequency[k] == MinFreq(frequency)
  }

  /** LFUCache.get: on a hit, count one more access and return the value;
      on a miss return None and change nothing. */
  function Get<K(==), V>(st: Naive<K, V>, k: K): (r: (Naive<K, V>, Option<V>))
    requires SameKeys(st)
    ensures SameKeys(r.0) && r.0.capacity == st.capacity
    ensures r.1.Some? <==> k in st.cache
  {
    if k in st.cache then (st.(frequency := st.frequency[k := st.frequency[k] + 1]), Some(st.cache[k]))
    else (st, None)
  }

  /** The eviction in put: remove every key of minimum count from both
      dicts. */
  function EvictAllLeast<K(==), V>(st: Naive<K, V>): (r: Naive<K, V>)
    requires SameKeys(st) && |st.frequency| > 0
    ensures SameKeys(r) && r.capacity == st.capacity
  {
    var doomed := Doomed(st.frequency);
    st.(cache := st.cache - doomed, frequency := st.frequency - doomed)
  }

  /** LFUCache.put: a present key counts one more access and takes the new
      value; a new key first triggers eviction when the cache is at or over
      capacity, then enters with count 1. */
  function Put<K(==), V>(st: Naive<K, V>, k: K, v: V): (r: Naive<K, V>)
    requires SameKeys(st) && st.capacity >= 1
    ensures SameKeys(r) && r.capacity == st.capacity
    ensures k in r.cache && r.cache[k] == v
  {
    if k in st.cache then
      st.(frequency := st.frequency[k := st.frequency[k] + 1], cache := st.cache[k := v])
    else
      var st1 := if |st.cache| >= st.capacity then EvictAllLeast(st) else st;
      st1.(frequency := st1.frequency[k := 1], cache := st1.cache[k := v])
  }

  /** get on a present key returns its value and counts exactly one more
      access to it; no other key or count changes. */
  lemma GetHit<K, V>(st: Naive<K, V>, k: K)
    requires SameKeys(st) && k in st.cache
    ensures Get(st, k).1 == Some(st.cache[k])
    ensures Get(st, k).0.cache == st.cache
    ensures Get(st, k).0.frequency == st.frequency[k := st.frequency[k] + 1]
  {
  }

  /** get on an absent key returns None and changes nothing. */
  lemma GetMiss<K, V>(st: Naive<K, V>, k: K)
    requires SameKeys(st) && k !in st.cache
    ensures Get(st, k) == (st, None)
  {
  }

  /** put on a present key replaces the value and counts one more access;
      nothing is evicted and the size is unchanged. */
  lemma PutPresent<K, V>(st: Naive<K, V>, k: K, v: V)
    requires SameKeys(st) && st.capacity >= 1 && k in st.cache
    ensures Put(st, k, v).cache == st.cache[k := v]
    ensures Put(st, k, v).frequency == st.frequency[k := st.frequency[k] + 1]
    ensures |Put(st, k, v).cache| == |st.cache|
  {
    assert st.cache[k := v].Keys == st.cache.Keys;
  }

  /** put of a new key below capacity adds it with count 1 and evicts
      nothing. */
  lemma PutNewWithRoom<K, V>(st: Naive<K, V>, k: K, v: V)
    requires SameKeys(st) && st.capacity >= 1 && k !in st.cache && |st.cache| < st.capacity
    ensures Put(st, k, v).cache == st.cache[k := v]
    ensures Put(st, k, v).frequency == st.frequency[k := 1]
  {
  }

  /** put of a new key into a full cache removes every key whose count is
      the current minimum, however many there are, keeps every other key
      with its value and count, and adds the new key with count 1. */
  lemma PutNewWhenFull<K, V>(st: Naive<K, V>, k: K, v: V)
    requires SameKeys(st) && st.capacity >= 1 && k !in st.cache && |st.cache| >= st.capacity
    ensures |st.frequency| > 0
    ensures Put(st, k, v).frequency[k] == 1 && Put(st, k, v).cache[k] == v
    ensures forall j | j in st.cache ::
              && (j in Put(st, k, v).cache <==> st.frequency[j] != MinFreq(st.frequency))
              && (j in Put(st, k, v).cache ==>
                    Put(st, k, v).cache[j] == st.cache[j] && Put(st, k, v).frequency[j] == st.frequency[j])
    ensures Put(st, k, v).cache.Keys == st.cache.Keys - Doomed(st.frequency) + {k}
  {
    assert |st.frequency| == |st.frequency.Keys| == |st.cache.Keys| == |st.cache|;
  }

  /** At least one key leaves a full cache, so the size bound holds after
      every put. */
  lemma EvictionFreesRoom<K, V>(st: Naive<K, V>)
    requires SameKeys(st) && |st.frequency| > 0
    ensures |Doomed(st.frequency)| >= 1
    ensures |EvictAllLeast(st).cache| <= |st.cache| - 1
  {
    var m := MinFreq(st.frequency);
    var k :| k in st.frequency && st.frequency[k] == m;
    assert k in Doomed(st.frequency);
    var kept := st.cache - Doomed(st.frequency);
    assert kept.Keys <= st.cache.Keys - {k};
    SubsetSize(kept.Keys, st.cache.Keys - {k});
    assert |st.cache.Keys - {k}| == |st.cache.Keys| - 1;
  }

  lemma {:induction false} SubsetSize<T>(a: set<T>, b: set<T>)
    requires a <= b
    ensures |a| <= |b|
    decreases b
  {
    if a != {} {
      var x :| x in a;
      SubsetSize(a - {x}, b - {x});
    }
  }

  /** put keeps the two dicts in step, counts positive, and the size
      within capacity. */
  lemma PutKeepsInv<K, V>(st: Naive<K, V>, k: K, v: V)
    requires Inv(st)
    ensures Inv(Put(st, k, v))
  {
    if k in st.cache {
      PutPresent(st, k, v);
    } else if |st.cache| >= st.capacity {
      assert |st.frequency| == |st.cache| by {
        assert |st.frequency.Keys| == |st.cache.Keys|;
      }
      EvictionFreesRoom(st);
      var st1 := EvictAllLeast(st);
      assert |st1.cache[k := v]| <= |st1.cache| + 1;
    } else {
      assert |st.cache[k := v]| <= |st.cache| + 1;
    }
  }

  /** get keeps the invariant. */
  lemma GetKeepsInv<K, V>(st: Naive<K, V>, k: K)
    requires Inv(st)
    ensures Inv(Get(st, k).0)
  {
  }

  /** The documented run with capacity 2: put(1,10), put(2,20), put(1,11),
      put(2,21) leave both keys at count 2; put(3,30) then evicts BOTH,
      leaving only {3: 30}. */
  method Demo() returns (beforeLast: Naive<int, int>, final: Naive<int, int>)
    ensures beforeLast.cache == map[1 := 11, 2 := 21] && beforeLast.frequency == map[1 := 2, 2 := 2]
    ensures final.cache == map[3 := 30] && final.frequency == map[3 := 1]
  {
    var st := New<int, int>(2);
    PutNewWithRoom(st, 1, 10);
    st := Put(st, 1, 10);
    assert st.cache == map[1 := 10] && st.frequency == map[1 := 1];
    PutNewWithRoom(st, 2, 20);
    st := Put(st, 2, 20);
    assert st.cache == map[1 := 10, 2 := 20] && st.frequency == map[1 := 1, 2 := 1];
    PutPresent(st, 1, 11);
    st := Put(st, 1, 11);
    assert st.cache == map[1 := 11, 2 := 20] && st.frequency == map[1 := 2, 2 := 1];
    PutPresent(st, 2, 21);
    st := Put(st, 2, 21);
    beforeLast := st;
    DemoLast(st);
    final := Put(st, 3, 30);
  }

  /** Both keys tie at the minimum count 2, so both leave. */
  lemma DemoLast(st: Naive<int, int>)
    requires st.capacity == 2 && st.cache == map[1 := 11, 2 := 21] && st.frequency == map[1 := 2, 2 := 2]
    ensures Put(st, 3, 30).cache == map[3 := 30] && Put(st, 3, 30).frequency == map[3 := 1]
  {
    assert MinFreq(st.frequency) == 2;
    assert Doomed(st.frequency) == {1, 2};
  }
}
