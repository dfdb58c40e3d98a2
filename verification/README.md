# Cache concepts in Dafny

A model of the cache implementations of the `cache_concepts` repository:

- the LRU cache built on an insertion-ordered dict (`lruCacheUsingOrderedDict.py`);
- the O(1) LRU cache built on a key→node map plus a sentinel doubly linked
  list (`lruCacheUsingDLL.py`);
- the O(1) LFU cache built on a key→node map, a frequency→list map of
  sentinel doubly linked lists with `size` counters, and an incrementally
  kept `min_freq` (`lfuCacheUsingDLL.py`);
- the naive LFU cache built on a value dict and a count dict
  (`lfuCache.py`).

Modules, in dependency order:

| module | what it holds |
|---|---|
| `Seqs` | distinct sequences, `Remove` (splice out one element) |
| `Options` | `Option`, standing for the cache's miss signal |
| `LinkedList` | the sentinel doubly linked list as `next`/`prev` maps over node handles; `Valid(l, s)` says the pointers chain the keys `s` between the sentinels; insert before the tail and unlink keep it |
| `OrderedDict` | Python's insertion-ordered dict (`pop`, `d[k] = v`, first key) |
| `LruOrderedDict` | the dict-based LRU cache; this is also the abstract LRU policy |
| `LruDll` | the linked-list LRU cache, with a refinement proof against `LruOrderedDict` |
| `SizedDll` | the LFU's lists with their `size` counter, and the proof that the list operations act on each bucket as the sequence operations used by `LfuBuckets` |
| `LfuBuckets` | the O(1) LFU cache with each bucket read as its sequence of keys; the bucket and `min_freq` invariants |
| `LfuDll` | the O(1) LFU cache on its linked lists, with a proof that each operation reads as the `LfuBuckets` operation |
| `LfuNaive` | the naive LFU cache that evicts every key tied at the minimum count |

The linked lists are modelled at the level of their pointers: a node is
named by its key (each cache links at most one live node per key), and a
list is the pair of finite maps `next` and `prev`. The order of a list is
not stored; it is read off the pointers by walking `next` from the head
(`LinkedList.Walk`), and `LinkedList.WalkValid` shows that this walk gives
back exactly the chained keys. The LRU list therefore keeps the recency
order, least recent first, by pointer surgery alone, and `LruDll.Refines`
shows that, read as an ordered dict, it behaves exactly as the dict-based
cache.

The subtle point of the O(1) LFU cache is `_update`
(`lfuCacheUsingDLL.py:109-111`): after taking a node out of its bucket it
raises `min_freq` when the bucket of `min_freq` is empty, rather than when
the node's own bucket is. `LfuBuckets.MinBucketCheck` shows that these
agree under the invariant: the `min_freq` bucket becomes empty exactly
when the node had the minimum frequency and was alone in its bucket. From
this, `LfuBuckets.UpdateKeepsInv` and `LfuBuckets.PutKeepsInv` show that
`min_freq` always names the least non-empty bucket, so the head of that
bucket is a least frequently used key. `LfuDll` then carries these
results over to the linked lists: every list chains its keys and counts
them in `size`, and reading each list by walking `size` nodes from its
head turns every linked-list operation into the bucket-level one.

The demonstration runs in the `__main__` blocks and docstrings are
modelled as methods whose postconditions state the final states.

## Model

| member | source | states |
|---|---|---|
| `LinkedList.Empty` | lruCacheUsingDLL.py:15-20 | `DLL()`: head.next is the tail and tail.prev is the head (no contract; `EmptyValid` states that it chains no keys) |
| `LinkedList.InsertAtTail` | lruCacheUsingDLL.py:22-27 | `insert`: the four pointer writes that link the node of `k` just before the tail (no contract; `InsertAtTailValid` states its effect on the chain) |
| `LinkedList.Unlink` | lruCacheUsingDLL.py:30-36 | `delete`: the two pointer writes that join the node's neighbours (no contract; `UnlinkValid` states its effect on the chain) |
| `LinkedList.Walk` | lfuCacheUsingDLL.py:29-33 | `__iter__`: the keys met following `next` from the head up to the first sentinel (no contract; `WalkValid` states that it recovers the chain) |
| `LinkedList.EmptyValid` | lruCacheUsingDLL.py:14-20 | a new list chains no keys: head and tail sentinels point at each other |
| `LinkedList.InsertAtTailValid` | lruCacheUsingDLL.py:22-27 | insert before the tail appends a new key after all linked keys, which keep their order |
| `LinkedList.UnlinkValid` | lruCacheUsingDLL.py:30-36 | delete joins the node's own neighbours, splicing exactly that key out and keeping the others in order, without walking the list |
| `LinkedList.MoveToTailValid` | lruCacheUsingDLL.py:75-79 | unlinking a linked key and inserting it again (or inserting a new key) yields the old order without the key, followed by the key |
| `LinkedList.UnlinkFirstValid` | lruCacheUsingDLL.py:80-83 | `head.next` is the first linked key, and deleting it leaves the rest of the chain |
| `LinkedList.WalkValid` | lfuCacheUsingDLL.py:29-33 | following `next` from the head recovers exactly the chained keys in order: the pointers determine the list |
| `OrderedDict.Valid` | lruCacheUsingOrderedDict.py:8-18 | the dict's insertion order lists every stored key exactly once (the invariant that `Pop`, `SetItem` and `FirstKey` keep or use) |
| `OrderedDict.Empty` | lruCacheUsingOrderedDict.py:8 | the empty dict is well formed and has length 0 |
| `OrderedDict.Pop` | lruCacheUsingOrderedDict.py:15 | `pop(k)` returns the value of `k` and removes `k` from the map and the order, keeping the dict well formed |
| `OrderedDict.SetItem` | lruCacheUsingOrderedDict.py:16 | `d[k] = v` stores `v`; an existing key keeps its place, a new key goes at the end |
| `OrderedDict.FirstKey` | lruCacheUsingOrderedDict.py:18 | `next(iter(d))` is a stored key |
| `OrderedDict.Len` | lruCacheUsingOrderedDict.py:17 | `len(d)`: the number of stored keys (no contract; `LenIsOrderLength` relates it to the order) |
| `OrderedDict.LenIsOrderLength` | lruCacheUsingOrderedDict.py:17 | `len(d)` equals the length of the insertion order |
| `LruOrderedDict.Inv` | lruCacheUsingOrderedDict.py:10-27 | reachable states: the dict is well formed and holds at most `capacity` keys |
| `LruOrderedDict.New` | lruCacheUsingOrderedDict.py:6-8 | a new cache has an empty dict |
| `LruOrderedDict.Put` | lruCacheUsingOrderedDict.py:10-18 | put keeps the dict well formed and leaves `v` under `k` whenever `k` stays |
| `LruOrderedDict.Get` | lruCacheUsingOrderedDict.py:20-27 | get returns a value exactly when the key is stored |
| `LruOrderedDict.GetHit` | lruCacheUsingOrderedDict.py:24-26 | a hit returns the stored value, moves the key to the end and keeps the other keys and all values |
| `LruOrderedDict.GetMiss` | lruCacheUsingOrderedDict.py:24-27 | a miss returns None and changes nothing |
| `LruOrderedDict.PutPresent` | lruCacheUsingOrderedDict.py:14-16 | put on a stored key replaces its value and moves it to the end; nothing is evicted |
| `LruOrderedDict.PutAbsent` | lruCacheUsingOrderedDict.py:14-18 | put of a new key appends it; when the dict was full, exactly the first key of the grown order leaves |
| `LruOrderedDict.PutEvictsOldest` | lruCacheUsingOrderedDict.py:17-18 | on a full cache the evicted key is the oldest stored key and the new key becomes the most recent |
| `LruOrderedDict.OperationsKeepInv` | lruCacheUsingOrderedDict.py:10-27 | put and get never let the dict outgrow its capacity |
| `LruOrderedDict.PutThenGet` | lruCacheUsingOrderedDict.py:10-27 | with capacity at least 1, get right after put(k, v) returns v |
| `LruOrderedDict.DemoTrace` | lruCacheUsingOrderedDict.py:30-39 | the run put(1,10), put(2,20), put(1,11), put(3,30) at capacity 2 ends with {1: 11, 3: 30}, 1 older than 3 |
| `LruDll.New` | lruCacheUsingDLL.py:61-64 | `LRUCache(capacity)`: an empty map and a new list (no contract; `NewInv` states that it is well linked) |
| `LruDll.WellLinked` | lruCacheUsingDLL.py:61-83 | the list chains each cached key exactly once and nothing else, read by walking from the head; every operation keeps it |
| `LruDll.Inv` | lruCacheUsingDLL.py:61-83 | reachable states: well linked and at most `capacity` keys |
| `LruDll.Abs` | lruCacheUsingDLL.py:61-83 | reads the linked-list cache as the dict-based cache: the walked order with the map's values (the abstraction of `Refines`) |
| `LruDll.Touch` | lruCacheUsingDLL.py:75-79 | unlink-if-present then insert makes `k` the most recent key with value `v`, other keys keeping their order |
| `LruDll.EvictFirst` | lruCacheUsingDLL.py:80-83 | evicting `head.next` removes the least recent key from both list and map, and shrinks the map by one |
| `LruDll.Get` | lruCacheUsingDLL.py:66-72 | get keeps the list chaining exactly the map's keys and returns a value exactly on a hit |
| `LruDll.Put` | lruCacheUsingDLL.py:74-83 | put keeps the list chaining exactly the map's keys, stores `v` under `k` when `k` stays, and keeps the capacity bound |
| `LruDll.NewInv` | lruCacheUsingDLL.py:61-64 | a new cache is empty and well linked |
| `LruDll.GetHit` | lruCacheUsingDLL.py:66-71 | a hit returns the value and moves the key to the tail, others keeping their order |
| `LruDll.GetMiss` | lruCacheUsingDLL.py:66-72 | a miss returns the miss signal and changes nothing |
| `LruDll.PutPresent` | lruCacheUsingDLL.py:75-79 | put on a cached key moves it to the tail with the new value; nothing is evicted |
| `LruDll.PutAbsent` | lruCacheUsingDLL.py:74-83 | put of a new key appends it; on overflow exactly the node after the head leaves list and map |
| `LruDll.OperationsKeepInv` | lruCacheUsingDLL.py:66-83 | put and get keep the list well linked and the map within capacity |
| `LruDll.Refines` | lruCacheUsingDLL.py:66-83 | read as an ordered dict, the linked-list cache does exactly what the dict-based cache does on put and get, with the same result |
| `LruDll.Demo` | lruCacheUsingDLL.py:41-60 | the documented run ends with {1: 11, 3: 30} and list order 1, 3 |
| `SizedDll.New` | lfuCacheUsingDLL.py:16-21 | a new list chains no keys and has size 0 |
| `SizedDll.Insert` | lfuCacheUsingDLL.py:35-44 | `insert`: link the node before the tail and add one to `size` (no contract; `InsertHolds` states its effect) |
| `SizedDll.Delete` | lfuCacheUsingDLL.py:46-53 | `delete`: join the node's neighbours and subtract one from `size` (no contract; `DeleteHolds` states its effect) |
| `SizedDll.Holds` | lfuCacheUsingDLL.py:15-53 | a list chains the keys of a sequence and its `size` equals their number |
| `SizedDll.InsertHolds` | lfuCacheUsingDLL.py:35-44 | insert appends the key and keeps `size` equal to the number of linked keys |
| `SizedDll.DeleteHolds` | lfuCacheUsingDLL.py:46-53 | delete splices the key out and keeps `size` equal to the number of linked keys |
| `SizedDll.SizeTellsEmpty` | lfuCacheUsingDLL.py:15-53 | `size == 0` exactly when the head points at the tail; otherwise `head.next` is the first key |
| `SizedDll.SizeBoundsWalk` | lfuCacheUsingDLL.py:29-33 | walking `size` nodes from the head yields the list's keys |
| `SizedDll.Represents` | lfuCacheUsingDLL.py:99-100 | every list of the frequency map chains the keys of the bucket of the same frequency and counts them in `size` |
| `SizedDll.AddRefines` | lfuCacheUsingDLL.py:121-126 | `_add_to_freq_map` appends the key to the bucket of its frequency, creating an empty bucket first when there is none |
| `SizedDll.DeleteRefines` | lfuCacheUsingDLL.py:115-119 | `_delete_from_freq_map` splices the key out of the bucket of its frequency |
| `SizedDll.EvictHeadRefines` | lfuCacheUsingDLL.py:146-149 | deleting `head.next` of the `min_freq` list drops the first key of that bucket |
| `SizedDll.EmptyTestRefines` | lfuCacheUsingDLL.py:110 | the `size == 0` test is the bucket-is-empty test |
| `LfuBuckets.New` | lfuCacheUsingDLL.py:97-101 | a new cache is empty, and its state is reachable exactly when the capacity is positive |
| `LfuBuckets.BucketOf` | lfuCacheUsingDLL.py:125 | `freq_map.get(f, DLL())`: the bucket of `f`, empty when there is none (no contract; helper) |
| `LfuBuckets.BucketsMatch` | lfuCacheUsingDLL.py:99-100 | every cached key has a positive frequency and sits in the bucket of that frequency; every bucket lists distinct cached keys of its own frequency |
| `LfuBuckets.MinFreqIsLeast` | lfuCacheUsingDLL.py:101 | on a non-empty cache `min_freq` names a non-empty bucket, and no non-empty bucket has a smaller frequency |
| `LfuBuckets.Inv` | lfuCacheUsingDLL.py:97-154 | reachable states: positive capacity, at most `capacity` keys, `BucketsMatch` and `MinFreqIsLeast` |
| `LfuBuckets.DeleteFromFreqMap` | lfuCacheUsingDLL.py:115-119 | `_delete_from_freq_map`: splice the key out of the bucket of its frequency (no contract; `UpdateMoves` and `MinBucketCheck` state its effect) |
| `LfuBuckets.AddToFreqMap` | lfuCacheUsingDLL.py:121-126 | `_add_to_freq_map`: append the key to the bucket of its frequency, creating it when absent (no contract; `UpdateMoves` and `PutNew` state its effect) |
| `LfuBuckets.Bump` | lfuCacheUsingDLL.py:110-112 | the middle of `_update`: raise `min_freq` when its bucket is empty, then raise the node's frequency (no contract; `MinBucketCheck` and `UpdateMoves` state its effect) |
| `LfuBuckets.Update` | lfuCacheUsingDLL.py:103-113 | `_update` keeps the key set, gives this key frequency f+1 with its value unchanged, and leaves every other key's node as it was |
| `LfuBuckets.Get` | lfuCacheUsingDLL.py:156-168 | get returns a value exactly when the key is cached, and then its stored value |
| `LfuBuckets.Put` | lfuCacheUsingDLL.py:128-154 | after put the key is cached with the new value |
| `LfuBuckets.Evict` | lfuCacheUsingDLL.py:146-150 | the eviction in put: the head of the `min_freq` bucket leaves the bucket and the cache (no contract; `VictimIsLeastFrequent` and `EvictKeepsBuckets` state its effect) |
| `LfuBuckets.MakeRoom` | lfuCacheUsingDLL.py:146 | the capacity test `len(cache) == capacity` that guards the eviction (no contract; `PutNew` states its effect) |
| `LfuBuckets.Insert` | lfuCacheUsingDLL.py:151-154 | a new node at frequency 1 joins the tail of bucket 1 and `min_freq` becomes 1 (no contract; `InsertKeepsBuckets`, `InsertSetsMinFreq` and `PutNew` state its effect) |
| `LfuBuckets.SetValue` | lfuCacheUsingDLL.py:142-143 | changing a node's value keeps the invariant |
| `LfuBuckets.SetValueKeepsInv` | lfuCacheUsingDLL.py:142-143 | a new value touches no frequency, bucket or `min_freq` |
| `LfuBuckets.ExactlyOneBucket` | lfuCacheUsingDLL.py:99-100 | a cached key is in a bucket exactly when the bucket is that of its frequency |
| `LfuBuckets.KeysAreBucketUnion` | lfuCacheUsingDLL.py:99-100 | a key is cached exactly when some bucket holds it |
| `LfuBuckets.NonEmptyBucketPositive` | lfuCacheUsingDLL.py:2 | frequencies start at 1, so every non-empty bucket has a positive frequency |
| `LfuBuckets.MinBucketCheck` | lfuCacheUsingDLL.py:109-111 | after the delete, the `min_freq` bucket is empty exactly when the key had the minimum frequency and was alone in its bucket |
| `LfuBuckets.UpdateMoves` | lfuCacheUsingDLL.py:103-113 | `_update` moves the key from the bucket of f to the tail of the bucket of f+1 and raises `min_freq` exactly in that case |
| `LfuBuckets.MoveKeepsBuckets` | lfuCacheUsingDLL.py:103-113 | moving a key to the next bucket keeps every key in the bucket of its frequency |
| `LfuBuckets.MoveKeepsMinFreq` | lfuCacheUsingDLL.py:109-111 | after the move `min_freq` is still the least non-empty frequency |
| `LfuBuckets.UpdateKeepsInv` | lfuCacheUsingDLL.py:103-113 | `_update` keeps the bucket and `min_freq` invariants |
| `LfuBuckets.VictimIsLeastFrequent` | lfuCacheUsingDLL.py:146-148 | the head of the `min_freq` bucket exists on a non-empty cache and has the least frequency of all cached keys |
| `LfuBuckets.EvictKeepsBuckets` | lfuCacheUsingDLL.py:146-150 | eviction removes exactly the victim from the cache and keeps the buckets matching |
| `LfuBuckets.InsertKeepsBuckets` | lfuCacheUsingDLL.py:151-154 | a new node at frequency 1 keeps the buckets matching |
| `LfuBuckets.InsertSetsMinFreq` | lfuCacheUsingDLL.py:151-154 | resetting `min_freq` to 1 after inserting a new node is right |
| `LfuBuckets.GetHit` | lfuCacheUsingDLL.py:164-167 | a hit returns the value and moves the key one bucket up; the invariant holds after |
| `LfuBuckets.GetMiss` | lfuCacheUsingDLL.py:164-168 | a miss returns the miss signal and changes nothing |
| `LfuBuckets.PutPresent` | lfuCacheUsingDLL.py:141-144 | put on a cached key replaces the value, moves the key one bucket up, adjusts `min_freq`, and evicts nothing |
| `LfuBuckets.PutNew` | lfuCacheUsingDLL.py:145-154 | a new key enters at frequency 1 at the tail of bucket 1 and `min_freq` becomes 1; at capacity exactly the head of the `min_freq` bucket leaves |
| `LfuBuckets.PutKeepsInv` | lfuCacheUsingDLL.py:128-154 | put keeps every invariant, so the cache never exceeds its capacity |
| `LfuBuckets.PutNewKeepsInv` | lfuCacheUsingDLL.py:145-154 | putting a new key keeps every invariant |
| `LfuBuckets.Demo` | lfuCacheUsingDLL.py:56-96 | the documented run: updating Mango empties bucket 1 and raises `min_freq` to 2; the last put evicts Apple and ends with {Mango f2, Orange f1}, `min_freq` 1 |
| `LfuDll.Buckets` | lfuCacheUsingDLL.py:100 | reads every list of the frequency map as the keys met walking `size` nodes from its head |
| `LfuDll.Abs` | lfuCacheUsingDLL.py:97-101 | reads the linked-list cache as the bucket-level cache: same capacity, nodes and `min_freq`, each list read as its bucket |
| `LfuDll.Inv` | lfuCacheUsingDLL.py:97-154 | reachable states: every list chains and counts its bucket, and the bucket-level invariant holds of the reading |
| `LfuDll.New` | lfuCacheUsingDLL.py:97-101 | a new cache has no lists and reads as the empty bucket-level cache with `min_freq` 1 |
| `LfuDll.DeleteFromFreqMap` | lfuCacheUsingDLL.py:115-119 | deleting the node from the list of its frequency keeps every list well linked and reads as splicing the key out of its bucket |
| `LfuDll.AddToFreqMap` | lfuCacheUsingDLL.py:121-126 | inserting the node into the list of its frequency, a new list if there is none, reads as appending the key to that bucket |
| `LfuDll.UpdateCanDelete` | lfuCacheUsingDLL.py:119 | in a reachable state the list of a cached node's frequency exists and links the node |
| `LfuDll.DeleteKeepsMinList` | lfuCacheUsingDLL.py:110 | after the delete `freq_map[min_freq]` still exists, so the size test cannot fail with a missing key |
| `LfuDll.BumpRefines` | lfuCacheUsingDLL.py:110-112 | the size test on the `min_freq` list is the bucket emptiness test, so the `min_freq` step and the frequency bump read as at the bucket level |
| `LfuDll.NotInNextBucket` | lfuCacheUsingDLL.py:112-113 | after the delete the key is in no bucket of the next frequency |
| `LfuDll.NotInNextList` | lfuCacheUsingDLL.py:112-113 | after the delete the node is linked in no list of the next frequency, so inserting it keeps the lists well formed |
| `LfuDll.UpdateAgrees` | lfuCacheUsingDLL.py:103-113 | the four steps of `_update` compose to the bucket-level update, which keeps the invariant |
| `LfuDll.UpdateRefines` | lfuCacheUsingDLL.py:103-113 | the linked-list `_update` ends in the state the bucket-level update reaches |
| `LfuDll.Update` | lfuCacheUsingDLL.py:103-113 | `_update` on the lists keeps the invariant and reads as the bucket-level `_update` |
| `LfuDll.Bump` | lfuCacheUsingDLL.py:110-112 | the middle of `_update` on the lists: the `size == 0` test on the `min_freq` list, then the frequency bump (no contract; `BumpRefines` states that it reads as `LfuBuckets.Bump`) |
| `LfuDll.Evict` | lfuCacheUsingDLL.py:146-150 | deleting `head.next` of the `min_freq` list and its key reads as the bucket-level eviction |
| `LfuDll.Insert` | lfuCacheUsingDLL.py:151-154 | a new node at frequency 1 with `min_freq` reset reads as the bucket-level insertion |
| `LfuDll.PutMadeRoom` | lfuCacheUsingDLL.py:146-150 | after the capacity test the state reads as the bucket-level one and no key was added |
| `LfuDll.Put` | lfuCacheUsingDLL.py:128-154 | put on the lists keeps the invariant and reads as the bucket-level put |
| `LfuDll.Get` | lfuCacheUsingDLL.py:156-168 | get on the lists keeps the invariant, reads as the bucket-level get and returns the same result |
| `LfuDll.Demo` | lfuCacheUsingDLL.py:56-96 | the documented run on the lists ends with list 1 holding Orange and list 2 holding Mango, each of size 1, and `min_freq` 1 |
| `LfuNaive.New` | lfuCache.py:33-36 | a new cache has no keys, and its state is reachable exactly when the capacity is positive |
| `LfuNaive.SameKeys` | lfuCache.py:33-69 | the value dict and the count dict always hold the same keys |
| `LfuNaive.Inv` | lfuCache.py:33-69 | reachable states: positive capacity, the same keys in both dicts, positive counts, at most `capacity` keys |
| `LfuNaive.LeastKeyExists` | lfuCache.py:62 | a non-empty count dict has a key of least count |
| `LfuNaive.MinFreq` | lfuCache.py:62 | `min(frequency.values())` is a count some key has, and no key has less |
| `LfuNaive.Doomed` | lfuCache.py:63 | `keys_to_remove`: every key whose count is the minimum (no contract; `EvictionFreesRoom` and `PutNewWhenFull` state what it holds) |
| `LfuNaive.Get` | lfuCache.py:41-49 | get keeps the two dicts on the same keys and returns a value exactly on a hit |
| `LfuNaive.EvictAllLeast` | lfuCache.py:61-66 | eviction deletes keys from both dicts alike |
| `LfuNaive.Put` | lfuCache.py:51-69 | put keeps the dicts on the same keys and leaves `v` under `k` |
| `LfuNaive.GetHit` | lfuCache.py:46-48 | a hit returns the value and counts one more access to that key only |
| `LfuNaive.GetMiss` | lfuCache.py:46-49 | a miss returns None and changes nothing |
| `LfuNaive.PutPresent` | lfuCache.py:55-59 | put on a present key replaces the value and counts one more access; the size is unchanged |
| `LfuNaive.PutNewWithRoom` | lfuCache.py:60-69 | below capacity a new key enters with count 1 and nothing leaves |
| `LfuNaive.PutNewWhenFull` | lfuCache.py:60-69 | when full, every key at the minimum count leaves, every other key stays with its value and count, and the new key enters with count 1 |
| `LfuNaive.EvictionFreesRoom` | lfuCache.py:61-66 | at least one key has the minimum count, so eviction shrinks the cache by at least one |
| `LfuNaive.PutKeepsInv` | lfuCache.py:51-69 | put keeps the dicts on the same keys, counts positive and the size within capacity |
| `LfuNaive.GetKeepsInv` | lfuCache.py:41-49 | get keeps the invariant |
| `LfuNaive.Demo` | lfuCache.py:71-84 | the run put(1,10), put(2,20), put(1,11), put(2,21), put(3,30) at capacity 2 ties keys 1 and 2 at count 2, so the last put evicts both and leaves {3: 30} |

## Left out

- `lruCache.py`, the timestamp-based LRU cache, is not part of this model.
- `__str__`, `__repr__` and the printing in the `__main__` blocks are left
  out; the demonstration runs are modelled by their final states.
- `DLL.__iter__` is modelled only as the walk from the head
  (`LinkedList.Walk`), not as a generator.
- `DLL.length` in `lruCacheUsingDLL.py` is never read or written after
  initialisation and is not modelled.
- Node objects are named by their keys. `LRUCache.put` in
  `lruCacheUsingDLL.py` builds a fresh node for a key already cached, after
  unlinking the old one; the model reuses the key's handle, which links the
  same chain. Object identity and garbage collection are not modelled.
- The miss signal is `Option.None`. The source returns `-1` on a miss in
  the linked-list caches, so a stored `-1` cannot be told from a miss there;
  the dict-based caches return `None`, so a stored `None` cannot be told
  from a miss there either.
- Capacities below 1 are not modelled for the LFU caches; `capacity >= 1`
  is part of `LfuBuckets.Inv` and `LfuNaive.Inv`. In `lfuCacheUsingDLL.py`
  capacity 0 makes the first put of a new key read the missing
  `freq_map[min_freq]` and raise `KeyError` (lines 146-147), while a
  negative capacity never equals `len(cache)`, so the cache never evicts and
  grows without bound. In `lfuCache.py` the test `>=` (line 61) holds on the
  first put for every capacity up to 0, and `min` of the empty count dict
  (line 62) raises `ValueError`. The LRU caches accept any non-negative
  capacity.
- Operations on states that break the invariants (a cached key missing
  from the count dict, a node outside its bucket) raise `KeyError` in the
  source; the model's preconditions exclude those states instead.
- The docstring of `lfuCache.py` describes an LRU tie-break among the
  least frequent keys; the code evicts every tied key, and the model
  follows the code.
