/** The frequency lists of the LFU cache (class DLL in lfuCacheUsingDLL.py):
    the sentinel doubly linked list of module LinkedList together with the
    `size` counter that insert and delete keep. The LFU cache tests a list
    for emptiness by its `size`, evicts the node after its head, and keeps
    one such list per frequency in `freq_map`.

    The LFU model (module LfuBuckets) works with each bucket as the
    sequence of its keys; `Represents` below states when a map of linked
    lists is that map of sequences, and the lemmas show that the list
    operations the cache performs act on it as the sequence operations
    the model uses. */
module SizedDll {
  import opened Seqs
  import opened LinkedList

  datatype Dll<K(==)> = Dll(links: Links<K>, size: int)

  /** `d` links exactly the distinct keys `s` in order, and counts them. */
  predicate Holds<K(==)>(d: Dll<K>, s: seq<K>) {
    Valid(d.links, s) && d.size == |s|
  }

  /** DLL(): the two sentinels joined, size 0. */
  function New<K(==)>(): (d: Dll<K>)
    ensures Holds(d, [])
  {
    EmptyValid<K>();
    Dll(Empty(), 0)
  }

  /** DLL.insert: link the node before the tail and count it. */
  function Insert<K(==)>(d: Dll<K>, k: K): Dll<K>
    requires Tail in d.links.prev
  {
    Dll(InsertAtTail(d.links, k), d.size + 1)
  }

  /** DLL.delete: join the node's neighbours and uncount it. */
  function Delete<K(==)>(d: Dll<K>, k: K): Dll<K>
    requires Entry(k) in d.links.prev && Entry(k) in d.links.next
  {
    Dll(Unlink(d.links, k), d.size - 1)
  }

  /** insert appends a key that is not yet in the list, and the counter
      stays equal to the number of linked keys. */
  lemma InsertHolds<K>(d: Dll<K>, s: seq<K>, k: K)
    requires Holds(d, s) && k !in s
    ensures Tail in d.links.prev
    ensures Holds(Insert(d, k), s + [k])
  {
    InsertAtTailValid(d.links, s, k);
  }

  /** delete of a linked key splices it out, and the counter stays equal
      to the number of linked keys. */
  lemma DeleteHolds<K>(d: Dll<K>, s: seq<K>, k: K)
    requires Holds(d, s) && k in s
    ensures Entry(k) in d.links.prev && Entry(k) in d.links.next
    ensures Holds(Delete(d, k), Remove(s, k))
  {
    UnlinkValid(d.links, s, k);
  }

  /** The counter is a faithful emptiness test: `size == 0` exactly when
      the head sentinel points at the tail sentinel; otherwise the node
      after the head holds the first, least recently added, key. */
  lemma SizeTellsEmpty<K>(d: Dll<K>, s: seq<K>)
    requires Holds(d, s)
    ensures Head in d.links.next
    ensures d.size == 0 <==> d.links.next[Head] == Tail
    ensures d.size > 0 ==> d.links.next[Head] == Entry(s[0])
  {
    ValidEnds(d.links, s);
  }

  /** Walking `size` nodes from the head recovers the list's keys. */
  lemma SizeBoundsWalk<K>(d: Dll<K>, s: seq<K>)
    requires Holds(d, s)
    ensures d.size >= 0 && Walk(d.links, Head, d.size) == s
  {
    WalkValid(d.links, s);
  }

  /** A map from frequency to linked list stands for the map from
      frequency to key sequence when both have the same frequencies and
      each list holds its sequence. */
  predicate Represents<K(==)>(lists: map<int, Dll<K>>, buckets: map<int, seq<K>>) {
    && lists.Keys == buckets.Keys
    && forall f | f in lists :: Holds(lists[f], buckets[f])
  }

  /** _add_to_freq_map: fetch the list of `f` (a fresh one when there is
      none) and insert `k`; on the sequences this appends `k` to the
      bucket of `f`, creating an empty bucket first when needed. */
  lemma AddRefines<K>(lists: map<int, Dll<K>>, buckets: map<int, seq<K>>, f: int, k: K)
    requires Represents(lists, buckets)
    requires f in buckets ==> k !in buckets[f]
    ensures var d := if f in lists then lists[f] else New();
            && Tail in d.links.prev
            && Represents(lists[f := Insert(d, k)],
                          buckets[f := (if f in buckets then buckets[f] else []) + [k]])
  {
    var d := if f in lists then lists[f] else New();
    var s := if f in buckets then buckets[f] else [];
    assert Holds(d, s);
    InsertHolds(d, s, k);
  }

  /** _delete_from_freq_map: delete the node of `k` from the list of `f`;
      on the sequences this splices `k` out of the bucket of `f`. */
  lemma DeleteRefines<K>(lists: map<int, Dll<K>>, buckets: map<int, seq<K>>, f: int, k: K)
    requires Represents(lists, buckets) && f in buckets && k in buckets[f]
    ensures f in lists && Entry(k) in lists[f].links.prev && Entry(k) in lists[f].links.next
    ensures Represents(lists[f := Delete(lists[f], k)], buckets[f := Remove(buckets[f], k)])
  {
    DeleteHolds(lists[f], buckets[f], k);
  }

  /** The eviction in put: deleting the node after the head of the list of
      `f` drops the first key of the bucket of `f`. */
  lemma EvictHeadRefines<K>(lists: map<int, Dll<K>>, buckets: map<int, seq<K>>, f: int)
    requires Represents(lists, buckets) && f in buckets && |buckets[f]| > 0
    ensures f in lists && Head in lists[f].links.next
    ensures lists[f].links.next[Head] == Entry(buckets[f][0])
    ensures var victim := lists[f].links.next[Head].key;
            && Entry(victim) in lists[f].links.prev && Entry(victim) in lists[f].links.next
            && Represents(lists[f := Delete(lists[f], victim)], buckets[f := buckets[f][1..]])
  {
    var s := buckets[f];
    SizeTellsEmpty(lists[f], s);
    DeleteRefines(lists, buckets, f, s[0]);
    RemoveFirst(s);
  }

  /** The test in _update: the list of `f` has size 0 exactly when the
      bucket of `f` is empty. */
  lemma EmptyTestRefines<K>(lists: map<int, Dll<K>>, buckets: map<int, seq<K>>, f: int)
    requires Represents(lists, buckets) && f in buckets
    ensures f in lists && (lists[f].size == 0 <==> buckets[f] == [])
  {
  }
}
