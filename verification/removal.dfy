/** Removing the root: with no left subtree the right subtree takes its
    place; otherwise the greatest node of the left subtree is splayed to the
    top and adopts the right subtree in place of the removed node. */
module Removal {
  import opened Shapes
  import opened Contexts
  import opened Ordering

  /** The link update of `remove` when the removed root has no left
      subtree and r2 becomes the root: r2's parent link is cleared. The
      source only sets `root = r2` and leaves that link pointing at the
      removed node; clearing it is the correction recorded in the README's
      findings (see `DetachAsWritten`). */
  function Detach(a: Arena, r2: int): (b: Arena)
    requires r2 != Null ==> Has(a, r2)
    ensures SameSize(a, b) && b.key == a.key && b.left == a.left && b.right == a.right
    ensures r2 != Null ==> b.parent[r2] == Null
    ensures forall i :: 0 <= i < |a.parent| && i != r2 ==> b.parent[i] == a.parent[i]
  {
    if r2 == Null then a else a.(parent := a.parent[r2 := Null])
  }

  /** The link updates of `remove` once r1, the greatest node of the left
      subtree, is the root: r2 becomes r1's right child. */
  function Join(a: Arena, r1: int, r2: int): (b: Arena)
    requires Has(a, r1) && (r2 != Null ==> Has(a, r2))
    ensures SameSize(a, b) && b.key == a.key && b.left == a.left
    ensures b.right[r1] == r2 && (r2 != Null ==> b.parent[r2] == r1)
    ensures forall i :: 0 <= i < |a.right| && i != r1 ==> b.right[i] == a.right[i]
    ensures forall i :: 0 <= i < |a.parent| && i != r2 ==> b.parent[i] == a.parent[i]
  {
    var b := a.(right := a.right[r1 := r2]);
    if r2 == Null then b else b.(parent := a.parent[r2 := r1])
  }

  /** Dropping one element from a sorted sequence of node keys. */
  lemma DropKeys(p: seq<int>, n: int, q: seq<int>, a: Arena, b: Arena)
    requires b.key == a.key && 0 <= n < |a.key|
    ensures KeysOf(p + [n] + q, a) == KeysOf(p, a) + [a.key[n]] + KeysOf(q, a)
    ensures KeysOf(p + q, b) == KeysOf(p, a) + KeysOf(q, a)
    ensures multiset(KeysOf(p + q, b)) == multiset(KeysOf(p + [n] + q, a)) - multiset{a.key[n]}
    ensures Sorted(KeysOf(p + [n] + q, a)) ==> Sorted(KeysOf(p + q, b))
  {
    KeysOfKey(p + q, a, b);
    KeysOfAppend(p, q, a);
    KeysOfAppend(p + [n], q, a);
    KeysOfAppend(p, [n], a);
    assert KeysOf([n], a) == [a.key[n]];
    var s := KeysOf(p + [n] + q, a);
    var i := |KeysOf(p, a)|;
    assert s[..i] == KeysOf(p, a) && s[i + 1..] == KeysOf(q, a) && s[i] == a.key[n];
    if Sorted(s) {
      RemoveAtKeepsOrder(s, i);
    } else {
      assert s == s[..i] + [s[i]] + s[i + 1..];
    }
  }

  /** With no left subtree, the right subtree on its own, its top's parent
      link cleared, is a search tree holding the other keys. */
  lemma DetachRep(n: int, r: Tree, a: Arena)
    requires Realises(Node(Nil, n, r), n, a)
    ensures Top(r) != Null ==> Has(a, Top(r))
    ensures Realises(r, Top(r), Detach(a, Top(r)))
    ensures multiset(KeysOf(IdSeq(r), Detach(a, Top(r)))) ==
            multiset(KeysOf(IdSeq(Node(Nil, n, r)), a)) - multiset{a.key[n]}
  {
    RepAt(r, a.right[n], n, a);
    RepInRange(r, Top(r), n, a);
    if r.Node? {
      assert r.id in IdSeq(r);
    }
    var b := Detach(a, Top(r));
    assert IdSeq(Node(Nil, n, r)) == [n] + IdSeq(r);
    NoDupSplit([n], IdSeq(r));
    RepRehang(r, Top(r), n, Null, a, b);
    assert [] + [n] + IdSeq(r) == IdSeq(Node(Nil, n, r)) && [] + IdSeq(r) == IdSeq(r);
    DropKeys([], n, IdSeq(r), a, b);
  }

  /** As written, `remove` leaves the arena as it is when the removed root
      has no left subtree: the new root r2 keeps its parent link to the
      removed node, so the result is not a represented tree. */
  lemma DetachAsWritten(n: int, r: Tree, a: Arena)
    requires Realises(Node(Nil, n, r), n, a) && r.Node?
    ensures Has(a, r.id) && a.parent[r.id] == n && n != Null
    ensures !Realises(r, r.id, a)
  {
    RepAt(r, a.right[n], n, a);
  }

  /** A represented subtree none of whose nodes is on `path` survives a
      change confined to `path`; only its top's parent link may differ. */
  lemma {:induction false} RepUntouched(t: Tree, n: int, p: int, p2: int, a: Arena, b: Arena, path: set<int>)
    requires Rep(t, n, p, a) && Untouched(a, b, path)
    requires forall i :: i in IdSeq(t) ==> i !in path
    requires t.Node? ==> b.parent[n] == p2
    ensures Rep(t, n, p2, b)
  {
    if t.Node? {
      assert n in IdSeq(t);
      assert forall i :: i in IdSeq(t.left) ==> i in IdSeq(t);
      assert forall i :: i in IdSeq(t.right) ==> i in IdSeq(t);
      if t.left.Node? {
        assert t.left.id in IdSeq(t.left);
      }
      if t.right.Node? {
        assert t.right.id in IdSeq(t.right);
      }
      RepUntouched(t.left, a.left[n], n, n, a, b, path);
      RepUntouched(t.right, a.right[n], n, n, a, b, path);
    }
  }

  /** Joining changes only r1's right link and r2's parent link, and r2's
      old parent was on the path. */
  lemma JoinUntouched(a1: Arena, a2: Arena, path: set<int>, r1: int, r2: int)
    requires Untouched(a1, a2, path) && Has(a2, r1) && r1 in path
    requires r2 != Null ==> Has(a2, r2) && a1.parent[r2] in path
    ensures Untouched(a1, Join(a2, r1, r2), path)
  {
  }

  /** A value at two positions occurs at least twice. */
  lemma CountTwo(s: seq<int>, i: int, j: int)
    requires 0 <= i < j < |s| && s[i] == s[j]
    ensures multiset(s)[s[i]] >= 2
  {
    assert s == s[..j] + s[j..];
    assert s[i] in s[..j];
    assert s[j..][0] == s[j];
    assert multiset(s)[s[i]] == multiset(s[..j])[s[i]] + multiset(s[j..])[s[i]];
  }

  /** In a duplicate-free sequence an element has one position, so what
      lies before and after it is fixed. */
  lemma SplitUnique(p1: seq<int>, x: int, q1: seq<int>, p2: seq<int>, q2: seq<int>)
    requires NoDup(p1 + [x] + q1) && p1 + [x] + q1 == p2 + [x] + q2
    ensures p1 == p2 && q1 == q2
  {
    var s := p1 + [x] + q1;
    assert s[|p1|] == x && s[|p2|] == x;
    if |p1| < |p2| {
      CountTwo(s, |p1|, |p2|);
      assert false;
    } else if |p2| < |p1| {
      CountTwo(s, |p2|, |p1|);
      assert false;
    }
    assert p1 == s[..|p1|] && p2 == s[..|p2|];
    assert q1 == s[|p1| + 1..] && q2 == s[|p2| + 1..];
  }

  lemma {:induction false} FrameIdsIn(ctx: seq<Frame>)
    ensures forall i :: i in FrameIds(ctx) ==> i in Before(ctx) + After(ctx)
    decreases |ctx|
  {
    if ctx != [] {
      FrameIdsIn(ctx[1..]);
      forall i | i in FrameIds(ctx)
        ensures i in Before(ctx) + After(ctx)
      {
        var f :| f in ctx && f.id == i;
        if f != ctx[0] {
          var j :| 0 <= j < |ctx| && ctx[j] == f;
          assert ctx[1..][j - 1] == f;
          assert i in FrameIds(ctx[1..]);
        }
      }
    }
  }

  lemma {:induction false} PlugAppend(ctx: seq<Frame>, f: Frame, t: Tree)
    ensures Plug(ctx + [f], t) == Fill(f, Plug(ctx, t))
    decreases |ctx|
  {
    if ctx == [] {
      assert ([] + [f])[1..] == [];
    } else {
      assert (ctx + [f])[1..] == ctx[1..] + [f];
      PlugAppend(ctx[1..], f, Fill(ctx[0], t));
    }
  }

  /** The path down the right spine of the left subtree of the root n: the
      whole tree is n over that subtree, the path's nodes lie in it, and
      none of them comes after the hole. */
  lemma SpinePath(cin: seq<Frame>, n: int, r: Tree, t: Tree)
    requires After(cin) == []
    ensures Plug(cin + [LeftOf(n, r)], t) == Node(Plug(cin, t), n, r)
    ensures FrameIds(cin + [LeftOf(n, r)]) == FrameIds(cin) + {n}
    ensures forall i :: i in FrameIds(cin) ==> i in Before(cin)
  {
    PlugAppend(cin, LeftOf(n, r), t);
    FrameIdsIn(cin);
    var c := cin + [LeftOf(n, r)];
    forall i | i in FrameIds(c)
      ensures i in FrameIds(cin) + {n}
    {
      var f :| f in c && f.id == i;
      if f !in cin {
        assert f == LeftOf(n, r);
      }
    }
    forall i | i in FrameIds(cin) + {n}
      ensures i in FrameIds(c)
    {
      if i == n {
        assert LeftOf(n, r) in c;
      } else {
        var f :| f in cin && f.id == i;
        assert f in c;
      }
    }
  }

  /** The right subtree r of the root n shares no node with the path
      down the right spine of n's left subtree l. */
  lemma SpineAvoidsRight(l: Tree, n: int, r: Tree, cin: seq<Frame>, t: Tree)
    requires NoDup(IdSeq(l) + [n] + IdSeq(r))
    requires l == Plug(cin, t) && t.Node? && After(cin) == []
    ensures forall i :: i in IdSeq(r) ==> i !in FrameIds(cin + [LeftOf(n, r)]) + {t.id}
  {
    SpinePath(cin, n, r, t);
    PlugIdSeq(cin, t);
    NoDupSplit(IdSeq(l) + [n], IdSeq(r));
    assert t.id in IdSeq(l) && n in IdSeq(l) + [n];
    forall i | i in FrameIds(cin)
      ensures i in IdSeq(l) + [n]
    {
      assert i in Before(cin);
    }
  }

  /** Where a duplicate-free sequence is split at the last element of a
      prefix, the parts are that prefix and the rest. */
  lemma SplitLast(x: seq<int>, v: int, y: seq<int>, l: seq<int>, z: seq<int>)
    requires NoDup(x + [v] + y) && x + [v] + y == l + z
    requires l != [] && l[|l| - 1] == v
    ensures x + [v] == l && y == z
  {
    var p := l[..|l| - 1];
    assert l == p + [v];
    assert l + z == p + [v] + z;
    SplitUnique(x, v, y, p, z);
  }

  /** The join leaves r1's left subtree, which holds neither r1 nor r2,
      as it was. */
  lemma JoinKeepsLeft(tl: Tree, r1: int, r2: int, a: Arena)
    requires Has(a, r1) && (r2 != Null ==> Has(a, r2)) && Rep(tl, a.left[r1], r1, a)
    requires r1 !in IdSeq(tl) && (r2 != Null ==> r2 !in IdSeq(tl))
    ensures Rep(tl, a.left[r1], r1, Join(a, r1, r2))
  {
    var b := Join(a, r1, r2);
    RepInRange(tl, a.left[r1], r1, a);
    forall i | i in IdSeq(tl)
      ensures SameAt(a, b, i)
    {
    }
    RepFrame(tl, a.left[r1], r1, a, b);
  }

  /** The right subtree of the removed node n, untouched by the splay,
      hangs under r1 after the join. */
  lemma JoinKeepsRight(n: int, r: Tree, r1: int, a1: Arena, a2: Arena, path: set<int>)
    requires Has(a1, n) && Rep(r, a1.right[n], n, a1)
    requires Untouched(a1, a2, path) && n in path && r1 in path && Has(a2, r1)
    requires forall i :: i in IdSeq(r) ==> i !in path
    ensures Top(r) != Null ==> Has(a2, Top(r))
    ensures Rep(r, Top(r), r1, Join(a2, r1, Top(r)))
  {
    var r2 := Top(r);
    RepAt(r, a1.right[n], n, a1);
    RepInRange(r, r2, n, a1);
    if r2 != Null {
      assert r2 in IdSeq(r);
    }
    JoinUntouched(a1, a2, path, r1, r2);
    RepUntouched(r, r2, n, r1, a1, Join(a2, r1, r2), path);
  }

  /** What the join does at r1: its right link becomes r2 and nothing
      else of r1 changes. */
  lemma JoinAtRoot(a: Arena, r1: int, r2: int)
    requires Has(a, r1) && (r2 != Null ==> Has(a, r2)) && r2 != r1
    ensures Has(Join(a, r1, r2), r1) && Join(a, r1, r2).right[r1] == r2
    ensures Join(a, r1, r2).left[r1] == a.left[r1] && Join(a, r1, r2).parent[r1] == a.parent[r1]
  {
  }

  /** The links of the join: r1 at the root keeps its left subtree and
      adopts r as its right subtree. */
  lemma JoinLinks(n: int, r: Tree, t2: Tree, a1: Arena, a2: Arena, path: set<int>)
    requires Has(a1, n) && Rep(r, a1.right[n], n, a1)
    requires t2.Node? && Rep(t2, t2.id, Null, a2)
    requires NoDup(IdSeq(t2.left) + [t2.id] + IdSeq(r))
    requires Untouched(a1, a2, path) && n in path && t2.id in path
    requires forall i :: i in IdSeq(r) ==> i !in path
    ensures Top(r) != Null ==> Has(a2, Top(r))
    ensures Rep(Node(t2.left, t2.id, r), t2.id, Null, Join(a2, t2.id, Top(r)))
  {
    var r1, r2 := t2.id, Top(r);
    JoinKeepsRight(n, r, r1, a1, a2, path);
    NoDup3(IdSeq(t2.left), [r1], IdSeq(r));
    NoDupSplit(IdSeq(t2.left), IdSeq(r));
    assert r1 in [r1];
    if r2 != Null {
      assert r2 in IdSeq(r);
    }
    JoinKeepsLeft(t2.left, r1, r2, a2);
    JoinAtRoot(a2, r1, r2);
    var b := Join(a2, r1, r2);
    assert Rep(t2.left, b.left[r1], r1, b) && Rep(r, b.right[r1], r1, b);
  }

  /** The join step, whole: once r1 is the root and its left subtree holds
      the nodes before it, giving it the untouched right subtree r2 of the
      removed node n yields a search tree of all nodes but n, with the keys
      of all but n. */
  lemma JoinRep(l: Tree, n: int, r: Tree, t2: Tree, a1: Arena, a2: Arena, path: set<int>)
    requires Realises(Node(l, n, r), n, a1)
    requires t2.Node? && Realises(t2, t2.id, a2) && IdSeq(t2.left) + [t2.id] == IdSeq(l)
    requires Untouched(a1, a2, path) && n in path && t2.id in path
    requires forall i :: i in IdSeq(r) ==> i !in path
    ensures Top(r) != Null ==> Has(a2, Top(r))
    ensures Realises(Node(t2.left, t2.id, r), t2.id, Join(a2, t2.id, Top(r)))
    ensures multiset(KeysOf(IdSeq(Node(t2.left, t2.id, r)), Join(a2, t2.id, Top(r)))) ==
            multiset(KeysOf(IdSeq(Node(l, n, r)), a1)) - multiset{a1.key[n]}
  {
    assert Rep(Node(l, n, r), n, Null, a1) && NoDup(IdSeq(l) + [n] + IdSeq(r));
    assert Sorted(KeysOf(IdSeq(l) + [n] + IdSeq(r), a1));
    NoDup3(IdSeq(l), [n], IdSeq(r));
    assert IdSeq(Node(t2.left, t2.id, r)) == IdSeq(l) + IdSeq(r);
    JoinLinks(n, r, t2, a1, a2, path);
    var b := Join(a2, t2.id, Top(r));
    DropKeys(IdSeq(l), n, IdSeq(r), a1, b);
  }
}
