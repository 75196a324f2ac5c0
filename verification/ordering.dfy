/** Facts about the in-order key sequence of a splay tree: it is kept
    non-decreasing, insertion places a key after every equal key, and
    removal deletes one occurrence. */
module Ordering {

  /** Non-decreasing order; duplicates are allowed. */
  predicate Sorted(s: seq<int>) {
    forall i, j :: 0 <= i < j < |s| ==> s[i] <= s[j]
  }

  /** The sequence `s` with `k` placed after every element that is <= k,
      which is where a search that sends equal keys right puts it. */
  function InsertSorted(s: seq<int>, k: int): (r: seq<int>)
    ensures multiset(r) == multiset(s) + multiset{k}
    ensures |r| == |s| + 1
  {
    if s == [] then [k]
    else if k < s[0] then [k] + s
    else
      assert s == [s[0]] + s[1..];
      [s[0]] + InsertSorted(s[1..], k)
  }

  /** A sorted sequence stays sorted with a lower bound in front. */
  lemma ConsSorted(v: int, rest: seq<int>)
    requires Sorted(rest) && forall x :: x in rest ==> v <= x
    ensures Sorted([v] + rest)
  {
    var r := [v] + rest;
    forall i, j | 0 <= i < j < |r|
      ensures r[i] <= r[j]
    {
      assert r[j] == rest[j - 1];
      if i > 0 {
        assert r[i] == rest[i - 1];
      } else {
        assert rest[j - 1] in rest;
      }
    }
  }

  /** A lower bound of s that is also at most k bounds the result of
      inserting k. */
  lemma InsertSortedAbove(s: seq<int>, k: int, v: int)
    requires forall x :: x in s ==> v <= x
    requires v <= k
    ensures forall x :: x in InsertSorted(s, k) ==> v <= x
  {
    forall x | x in InsertSorted(s, k)
      ensures v <= x
    {
      assert x in multiset(InsertSorted(s, k));
      if x != k {
        assert x in multiset(s);
      }
    }
  }

  lemma {:induction false} InsertSortedKeepsOrder(s: seq<int>, k: int)
    requires Sorted(s)
    ensures Sorted(InsertSorted(s, k))
  {
    if s != [] && k >= s[0] {
      InsertSortedKeepsOrder(s[1..], k);
      InsertSortedAbove(s[1..], k, s[0]);
      ConsSorted(s[0], InsertSorted(s[1..], k));
    }
  }

  /** Where the descent stops decides the result: everything before the
      insertion point is <= k and everything after it is > k. */
  lemma {:induction false} InsertSortedSplit(p: seq<int>, q: seq<int>, k: int)
    requires forall x :: x in p ==> x <= k
    requires forall x :: x in q ==> k < x
    ensures InsertSorted(p + q, k) == p + [k] + q
  {
    if p == [] {
      assert p + q == q;
      if q != [] {
        assert q[0] in q;
      }
    } else {
      assert (p + q)[0] == p[0];
      assert (p + q)[1..] == p[1..] + q;
      assert p[0] in p;
      assert forall x :: x in p[1..] ==> x in p;
      InsertSortedSplit(p[1..], q, k);
      assert p == [p[0]] + p[1..];
    }
  }

  /** A sorted sequence is fixed by its multiset of elements. */
  lemma {:induction false} SortedUnique(a: seq<int>, b: seq<int>)
    requires Sorted(a) && Sorted(b)
    requires multiset(a) == multiset(b)
    ensures a == b
  {
    if a != [] {
      assert |a| == |b| by {
        assert |multiset(a)| == |a| && |multiset(b)| == |b|;
      }
      assert b[0] in multiset(a) && a[0] in multiset(b);
      HeadIsLeast(a, b[0]);
      HeadIsLeast(b, a[0]);
      var ta, tb := a[1..], b[1..];
      assert a == [a[0]] + ta;
      assert b == [b[0]] + tb;
      assert multiset(ta) == multiset(tb) by {
        assert multiset(a) == multiset{a[0]} + multiset(ta);
        assert multiset(b) == multiset{b[0]} + multiset(tb);
        assert a[0] == b[0];
        assert multiset(ta) == multiset(a) - multiset{a[0]};
        assert multiset(tb) == multiset(b) - multiset{b[0]};
      }
      SortedUnique(ta, tb);
    }
  }

  /** Any element of a sorted sequence is at least its head. */
  lemma HeadIsLeast(s: seq<int>, x: int)
    requires Sorted(s)
    requires x in multiset(s)
    ensures s[0] <= x
  {
    var i :| 0 <= i < |s| && s[i] == x;
  }

  /** The ends of a non-empty sorted sequence are its least and its
      greatest element. */
  lemma SortedEnds(s: seq<int>)
    requires Sorted(s) && s != []
    ensures forall x :: x in s ==> s[0] <= x <= s[|s| - 1]
  {
    forall x | x in s
      ensures s[0] <= x <= s[|s| - 1]
    {
      var i :| 0 <= i < |s| && s[i] == x;
    }
  }

  /** Removing one position keeps a sequence sorted and removes exactly that
      element from its multiset. */
  lemma RemoveAtKeepsOrder(s: seq<int>, i: int)
    requires 0 <= i < |s|
    requires Sorted(s)
    ensures Sorted(s[..i] + s[i + 1..])
    ensures multiset(s[..i] + s[i + 1..]) == multiset(s) - multiset{s[i]}
  {
    var r := s[..i] + s[i + 1..];
    forall a, b | 0 <= a < b < |r|
      ensures r[a] <= r[b]
    {
      var a' := if a < i then a else a + 1;
      var b' := if b < i then b else b + 1;
      assert r[a] == s[a'] && r[b] == s[b'];
    }
    assert s == s[..i] + [s[i]] + s[i + 1..];
  }

  /** The sequence `s` with its first occurrence of `k` removed, or `s`
      itself when `k` does not occur. */
  function RemoveKey(s: seq<int>, k: int): (r: seq<int>)
    ensures k in s ==> multiset(r) == multiset(s) - multiset{k}
    ensures k !in s ==> r == s
  {
    if s == [] then []
    else if s[0] == k then
      assert s == [s[0]] + s[1..];
      s[1..]
    else
      assert s == [s[0]] + s[1..];
      [s[0]] + RemoveKey(s[1..], k)
  }

  lemma {:induction false} RemoveKeyKeepsOrder(s: seq<int>, k: int)
    requires Sorted(s)
    ensures Sorted(RemoveKey(s, k))
  {
    if s != [] && s[0] != k {
      var rest := RemoveKey(s[1..], k);
      RemoveKeyKeepsOrder(s[1..], k);
      forall x | x in rest
        ensures s[0] <= x
      {
        assert x in multiset(rest);
        assert x in multiset(s[1..]);
        assert x in s[1..];
      }
      ConsSorted(s[0], rest);
    }
  }

  /** A sorted sequence holding the keys of a sorted s less one k is
      exactly s with its first k removed. */
  lemma SortedRemoval(s: seq<int>, r: seq<int>, k: int)
    requires Sorted(s) && Sorted(r) && k in s
    requires multiset(r) == multiset(s) - multiset{k}
    ensures r == RemoveKey(s, k)
  {
    RemoveKeyKeepsOrder(s, k);
    SortedUnique(r, RemoveKey(s, k));
  }

  /** Inserting k into a sorted sequence and then removing k gives the
      sequence back. */
  lemma {:induction false} InsertThenRemove(s: seq<int>, k: int)
    requires Sorted(s)
    ensures RemoveKey(InsertSorted(s, k), k) == s
  {
    InsertSortedKeepsOrder(s, k);
    assert k in multiset(InsertSorted(s, k));
    SortedRemoval(InsertSorted(s, k), s, k);
  }

  /** v, an element of s, is the next element above k or the next element
      below k: no element of s lies strictly between k and v. */
  predicate Neighbour(s: seq<int>, k: int, v: int) {
    v in s &&
    ((k < v && forall x :: x in s ==> x < k || v <= x) ||
     (v < k && forall x :: x in s ==> x <= v || k < x))
  }

  /** In a sorted sequence, an element v above k with only elements below
      k before it is the next element above k. */
  lemma NeighbourAbove(kb: seq<int>, v: int, kr: seq<int>, k: int)
    requires Sorted(kb + ([v] + kr)) && k < v
    requires forall x :: x in kb ==> x < k
    ensures Neighbour(kb + ([v] + kr), k, v)
  {
    assert kb + ([v] + kr) == kb + [v] + kr;
    SortedAround(kb, v, kr);
  }

  /** In a sorted sequence, an element v below k with only elements above
      k after it is the next element below k. */
  lemma NeighbourBelow(kp: seq<int>, v: int, ka: seq<int>, k: int)
    requires Sorted(kp + [v] + ka) && v < k
    requires forall x :: x in ka ==> k < x
    ensures Neighbour((kp + [v]) + ka, k, v)
  {
    SortedAround(kp, v, ka);
  }

  /** In a sorted sequence split around v, v bounds both sides. */
  lemma SortedAround(p: seq<int>, v: int, q: seq<int>)
    requires Sorted(p + [v] + q)
    ensures forall x :: x in p ==> x <= v
    ensures forall x :: x in q ==> v <= x
  {
    var s := p + [v] + q;
    assert s[|p|] == v;
    forall x | x in p ensures x <= v {
      var i :| 0 <= i < |p| && p[i] == x;
      assert s[i] == x;
    }
    forall x | x in q ensures v <= x {
      var i :| 0 <= i < |q| && q[i] == x;
      assert s[|p| + 1 + i] == x;
    }
  }
}
