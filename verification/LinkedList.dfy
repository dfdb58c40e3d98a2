/** The sentinel doubly linked list (class DLL) that both O(1) caches build
    on, at the level of its prev/next pointers.

    A node is named by a handle: the two sentinels, or the entry for a key
    (each cache holds at most one live node per key, so the key identifies
    the node). The pointer graph is a pair of finite maps, `next` and `prev`;
    a node that has been unlinked keeps its stale pointers, as a Python node
    object does. `Valid(l, s)` is the abstraction: the handles
    Head, s[0], ..., s[|s|-1], Tail form a chain in which every `next` is
    matched by the reverse `prev`. */
module LinkedList {
  import opened Seqs

  datatype Handle<K> = Head | Tail | Entry(key: K)

  datatype Links<K(==)> = Links(next: map<Handle<K>, Handle<K>>, prev: map<Handle<K>, Handle<K>>)

  /** A new list: head.next is the tail and tail.prev is the head. */
  function Empty<K(==)>(): Links<K> {
    Links(map[Head := Tail], map[Tail := Head])
  }

  /** DLL.insert: link the node of `k` immediately before the tail sentinel. */
  function InsertAtTail<K(==)>(l: Links<K>, k: K): Links<K>
    requires Tail in l.prev
  {
    var node := Entry(k);
    var last := l.prev[Tail];
    Links(l.next[node := Tail][last := node], l.prev[node := last][Tail := node])
  }

  /** DLL.delete: join the node's own `prev` and `next` to each other,
      without walking from the head. */
  function Unlink<K(==)>(l: Links<K>, k: K): Links<K>
    requires Entry(k) in l.prev && Entry(k) in l.next
  {
    var p := l.prev[Entry(k)];
    var n := l.next[Entry(k)];
    Links(l.next[p := n], l.prev[n := p])
  }

  /** The keys met by following `next` from `from`, at most `n` of them,
      stopping at the first non-entry handle. */
  function Walk<K(==)>(l: Links<K>, from: Handle<K>, n: nat): seq<K>
    decreases n
  {
    if n == 0 || from !in l.next || !l.next[from].Entry? then []
    else [l.next[from].key] + Walk(l, l.next[from], n - 1)
  }

  /** Handle at position `i` of the chain Head, s[0], ..., s[|s|-1], Tail. */
  function At<K(==)>(s: seq<K>, i: nat): Handle<K>
    requires i <= |s| + 1
  {
    if i == 0 then Head else if i == |s| + 1 then Tail else Entry(s[i - 1])
  }

  /** `a.next == b` and `b.prev == a`. */
  predicate Linked<K(==)>(l: Links<K>, a: Handle<K>, b: Handle<K>) {
    a in l.next && l.next[a] == b && b in l.prev && l.prev[b] == a
  }

  /** `l` links exactly the distinct keys `s`, in order, between the sentinels. */
  predicate Valid<K(==)>(l: Links<K>, s: seq<K>) {
    && Distinct(s)
    && forall i | 0 <= i <= |s| :: Linked(l, At(s, i), At(s, i + 1))
  }

  /** Distinct keys give distinct chain positions. */
  lemma AtInjective<K>(s: seq<K>, i: nat, j: nat)
    requires Distinct(s) && i <= |s| + 1 && j <= |s| + 1
    ensures At(s, i) == At(s, j) ==> i == j
  {
    if At(s, i) == At(s, j) && 0 < i <= |s| && 0 < j <= |s| {
      assert s[i - 1] == s[j - 1];
    }
  }

  /** A valid chain starts at Head, ends at Tail, and every member node has
      both pointers set. */
  lemma ValidEnds<K>(l: Links<K>, s: seq<K>)
    requires Valid(l, s)
    ensures Head in l.next && Tail in l.prev
    ensures l.next[Head] == (if |s| == 0 then Tail else Entry(s[0]))
    ensures l.prev[Tail] == (if |s| == 0 then Head else Entry(s[|s| - 1]))
    ensures forall k | k in s :: Entry(k) in l.next && Entry(k) in l.prev
  {
    assert Linked(l, At(s, 0), At(s, 1));
    assert Linked(l, At(s, |s|), At(s, |s| + 1));
    forall k | k in s
      ensures Entry(k) in l.next && Entry(k) in l.prev
    {
      var i :| 0 <= i < |s| && s[i] == k;
      assert At(s, i + 1) == Entry(k);
      assert Linked(l, At(s, i), At(s, i + 1));
      assert Linked(l, At(s, i + 1), At(s, i + 2));
    }
  }

  lemma EmptyValid<K>()
    ensures Valid(Empty<K>(), [])
  {
    assert Linked(Empty<K>(), At([], 0), At([], 1));
  }

  /** DLL.insert appends the key after all current keys, in their order. */
  lemma InsertAtTailValid<K>(l: Links<K>, s: seq<K>, k: K)
    requires Valid(l, s) && k !in s
    ensures Tail in l.prev
    ensures Valid(InsertAtTail(l, k), s + [k])
  {
    ValidEnds(l, s);
    var l' := InsertAtTail(l, k);
    var s' := s + [k];
    var last := At(s, |s|);
    assert l.prev[Tail] == last;
    assert Distinct(s') by {
      forall a, b | 0 <= a < b < |s'|
        ensures s'[a] != s'[b]
      {
        if b == |s| {
          assert s'[a] == s[a];
        }
      }
    }
    forall i | 0 <= i <= |s'|
      ensures Linked(l', At(s', i), At(s', i + 1))
    {
      if i < |s| {
        assert At(s', i) == At(s, i) && At(s', i + 1) == At(s, i + 1);
        assert Linked(l, At(s, i), At(s, i + 1));
        AtInjective(s, i, |s|);
        assert At(s, i) != Entry(k) by {
          if i > 0 {
            assert s[i - 1] in s;
          }
        }
        assert At(s, i + 1) != Entry(k) by {
          assert s[i] in s;
        }
      } else if i == |s| {
        assert At(s', i) == last;
        assert At(s', i + 1) == Entry(k);
        assert last != Entry(k) by {
          if |s| > 0 {
            assert s[|s| - 1] in s;
          }
        }
      } else {
        assert At(s', i) == Entry(k) && At(s', i + 1) == Tail;
        assert last != Entry(k) by {
          if |s| > 0 {
            assert s[|s| - 1] in s;
          }
        }
      }
    }
  }

  /** DLL.delete splices the key out and keeps every other key in order. */
  lemma UnlinkValid<K>(l: Links<K>, s: seq<K>, k: K)
    requires Valid(l, s) && k in s
    ensures Entry(k) in l.prev && Entry(k) in l.next
    ensures Valid(Unlink(l, k), Remove(s, k))
  {
    ValidEnds(l, s);
    var j := IndexOf(s, k);
    var s' := Remove(s, k);
    assert s' == s[..j] + s[j + 1..];
    forall i | 0 <= i <= |s'|
      ensures Linked(Unlink(l, k), At(s', i), At(s', i + 1))
    {
      UnlinkStep(l, s, j, i);
    }
  }

  /** One link of the chain after unlinking `s[j]`: the neighbours of `s[j]`
      are joined, and every other link is untouched. */
  lemma UnlinkStep<K>(l: Links<K>, s: seq<K>, j: nat, i: nat)
    requires Valid(l, s) && j < |s| && i < |s|
    ensures Entry(s[j]) in l.prev && Entry(s[j]) in l.next
    ensures var s' := s[..j] + s[j + 1..];
            Linked(Unlink(l, s[j]), At(s', i), At(s', i + 1))
  {
    var s' := s[..j] + s[j + 1..];
    assert At(s, j + 1) == Entry(s[j]);
    assert Linked(l, At(s, j), At(s, j + 1));
    assert Linked(l, At(s, j + 1), At(s, j + 2));
    var l' := Unlink(l, s[j]);
    if i < j {
      assert At(s', i) == At(s, i) && At(s', i + 1) == At(s, i + 1);
      assert Linked(l, At(s, i), At(s, i + 1));
      AtInjective(s, i, j);
      AtInjective(s, i + 1, j + 2);
    } else if i == j {
      assert At(s', i) == At(s, j) && At(s', i + 1) == At(s, j + 2);
    } else {
      assert At(s', i) == At(s, i + 1) && At(s', i + 1) == At(s, i + 2);
      assert Linked(l, At(s, i + 1), At(s, i + 2));
      AtInjective(s, i + 1, j);
      AtInjective(s, i + 2, j + 2);
    }
  }

  /** Unlinking `k` when it is linked and then inserting it at the tail
      moves `k` to the end and keeps every other key in order. */
  lemma MoveToTailValid<K>(l: Links<K>, s: seq<K>, k: K)
    requires Valid(l, s)
    ensures k in s ==> Entry(k) in l.prev && Entry(k) in l.next
    ensures var l1 := if k in s then Unlink(l, k) else l;
            Tail in l1.prev && Valid(InsertAtTail(l1, k), Remove(s, k) + [k])
  {
    if k in s {
      UnlinkValid(l, s, k);
      InsertAtTailValid(Unlink(l, k), Remove(s, k), k);
    } else {
      InsertAtTailValid(l, s, k);
    }
  }

  /** The node after the head is the first key, and unlinking it leaves
      the rest of the chain. */
  lemma UnlinkFirstValid<K>(l: Links<K>, s: seq<K>)
    requires Valid(l, s) && |s| > 0
    ensures Head in l.next && l.next[Head] == Entry(s[0])
    ensures Entry(s[0]) in l.prev && Entry(s[0]) in l.next
    ensures Valid(Unlink(l, s[0]), s[1..])
  {
    ValidEnds(l, s);
    UnlinkValid(l, s, s[0]);
    RemoveFirst(s);
  }

  /** Following `next` pointers from the head recovers the abstract order:
      the pointer graph determines the list. */
  lemma WalkValid<K>(l: Links<K>, s: seq<K>)
    requires Valid(l, s)
    ensures Walk(l, Head, |s|) == s
  {
    WalkSuffix(l, s, 0);
  }

  lemma {:induction false} WalkSuffix<K>(l: Links<K>, s: seq<K>, i: nat)
    requires Valid(l, s) && i <= |s|
    ensures Walk(l, At(s, i), |s| - i) == s[i..]
    decreases |s| - i
  {
    if i < |s| {
      WalkSuffix(l, s, i + 1);
      assert Linked(l, At(s, i), At(s, i + 1));
      assert At(s, i + 1) == Entry(s[i]);
      assert s[i..] == [s[i]] + s[i + 1..];
    }
  }
}
