/** Sequence helpers shared by every list-shaped part of the caches:
    a recency list is a sequence of distinct keys, and unlinking a node
    is splicing its key out of that sequence. */
module Seqs {

  /** No element occurs twice. */
  predicate Distinct<T(==)>(s: seq<T>) {
    forall i, j | 0 <= i < j < |s| :: s[i] != s[j]
  }

  /** The elements of `s`, forgetting order. */
  function Elements<T>(s: seq<T>): set<T> {
    set x | x in s
  }

  /** Position of the first occurrence of `x` in `s`. */
  function IndexOf<T(==)>(s: seq<T>, x: T): (i: nat)
    requires x in s
    ensures i < |s| && s[i] == x
    ensures x !in s[..i]
  {
    if s[0] == x then 0
    else
      var j := IndexOf(s[1..], x);
      assert s[..1 + j] == [s[0]] + s[1..][..j];
      1 + j
  }

  /** `s` with the first occurrence of `x` spliced out; `s` itself when
      `x` does not occur. */
  function Remove<T(==)>(s: seq<T>, x: T): (r: seq<T>)
    ensures x in s ==> |r| == |s| - 1
    ensures x !in s ==> r == s
    ensures Elements(r) - {x} == Elements(s) - {x}
    ensures Distinct(s) ==> Distinct(r) && Elements(r) == Elements(s) - {x}
  {
    if x in s then
      var i := IndexOf(s, x);
      var r := s[..i] + s[i + 1..];
      assert s == s[..i] + [s[i]] + s[i + 1..];
      assert Elements(r) == Elements(s[..i]) + Elements(s[i + 1..]);
      assert Elements(s) == Elements(s[..i]) + {x} + Elements(s[i + 1..]);
      assert Distinct(s) ==> Distinct(r) by {
        if Distinct(s) {
          forall a, b | 0 <= a < b < |r|
            ensures r[a] != r[b]
          {
            var a' := if a < i then a else a + 1;
            var b' := if b < i then b else b + 1;
            assert r[a] == s[a'] && r[b] == s[b'];
          }
          assert x !in Elements(s[..i]) + Elements(s[i + 1..]) by {
            forall j | 0 <= j < |s| && j != i
              ensures s[j] != x
            {
              assert s[i] == x;
            }
          }
        }
      }
      r
    else s
  }

  /** Splicing out the first element is dropping it. */
  lemma RemoveFirst<T>(s: seq<T>)
    requires |s| > 0
    ensures Remove(s, s[0]) == s[1..]
  {
    assert IndexOf(s, s[0]) == 0;
  }

  /** Splicing out a just-appended element that occurred nowhere else
      gives back the original sequence. */
  lemma RemoveLast<T>(s: seq<T>, x: T)
    requires x !in s
    ensures Remove(s + [x], x) == s
  {
    var t := s + [x];
    var i := IndexOf(t, x);
    assert t[..i] == s;
  }

  /** A duplicate-free sequence has as many elements as its set. */
  lemma {:induction false} DistinctCardinality<T>(s: seq<T>)
    requires Distinct(s)
    ensures |Elements(s)| == |s|
  {
    if |s| > 0 {
      var t := s[1..];
      assert Distinct(t);
      DistinctCardinality(t);
      assert Elements(s) == {s[0]} + Elements(t);
      assert s[0] !in Elements(t);
    } else {
      assert Elements(s) == {};
    }
  }

  /** Appending a new element keeps a sequence duplicate-free. */
  lemma AppendDistinct<T>(s: seq<T>, x: T)
    requires Distinct(s) && x !in s
    ensures Distinct(s + [x])
    ensures Elements(s + [x]) == Elements(s) + {x}
  {
    var t := s + [x];
    forall a, b | 0 <= a < b < |t|
      ensures t[a] != t[b]
    {
      if b == |s| {
        assert t[a] in s;
      }
    }
  }

  /** Appending and then dropping the first element commute. */
  lemma AppendThenDropFirst<T>(s: seq<T>, x: T)
    requires |s| > 0
    ensures (s + [x])[0] == s[0]
    ensures (s + [x])[1..] == s[1..] + [x]
  {
  }
}
