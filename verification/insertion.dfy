/** Adding a node: the arena grows by one fresh node, which the descent of
    `insert` then hangs at the null link where its search ended. */
module Insertion {
  import opened Shapes
  import opened Contexts
  import opened Ordering
  import opened Descent

  /** The arena after `new SplayNode(k)`: one more node, holding k, with
      null links. */
  function Grow(a: Arena, k: int): (b: Arena)
    ensures |b.key| == |a.key| + 1 && b.key[|a.key|] == k
    ensures |b.left| == |a.left| + 1 && b.left[|a.left|] == Null
    ensures |b.right| == |a.right| + 1 && b.right[|a.right|] == Null
    ensures |b.parent| == |a.parent| + 1 && b.parent[|a.parent|] == Null
    ensures forall i :: Has(a, i) ==> SameAt(a, b, i)
  {
    Arena(a.key + [k], a.left + [Null], a.right + [Null], a.parent + [Null])
  }

  /** The link updates of `insert` that hang node z under y: z's parent
      becomes y, and y's left link becomes z when z's key is below y's,
      its right link otherwise. With no y nothing but z's parent changes
      (z becomes the root). */
  function Attach(a: Arena, z: int, y: int): (b: Arena)
    requires Has(a, z) && (y != Null ==> Has(a, y))
    ensures SameSize(a, b) && b.key == a.key && b.parent[z] == y
  {
    var parent := a.parent[z := y];
    if y == Null then a.(parent := parent)
    else if a.key[z] < a.key[y] then a.(left := a.left[y := z], parent := parent)
    else a.(right := a.right[y := z], parent := parent)
  }

  /** Attaching changes only z and y. */
  lemma AttachElsewhere(a: Arena, z: int, y: int)
    requires Has(a, z) && (y != Null ==> Has(a, y))
    ensures forall i :: Has(a, i) && i != z && i != y ==> SameAt(a, Attach(a, z, y), i)
  {
  }

  /** What attaching does at y: its link on the side z's key selects names
      z, and nothing else of y changes. */
  lemma AttachAtParent(f: Frame, a: Arena, z: int, y: int)
    requires Has(a, z) && Has(a, y) && z != y
    requires f.LeftOf? <==> a.key[z] < a.key[y]
    ensures Relinked(f, a, Attach(a, z, y), y, z)
    ensures Attach(a, z, y).left[z] == a.left[z] && Attach(a, z, y).right[z] == a.right[z]
  {
  }

  /** A fresh node leaves the tree, which does not contain it, as it was. */
  lemma GrowKeeps(t: Tree, root: int, a: Arena, k: int)
    requires Realises(t, root, a)
    ensures Realises(t, root, Grow(a, k)) && |a.key| !in IdSeq(t)
    ensures KeysOf(IdSeq(t), Grow(a, k)) == KeysOf(IdSeq(t), a)
  {
    var b := Grow(a, k);
    RepInRange(t, root, Null, a);
    forall i | i in IdSeq(t)
      ensures SameAt(a, b, i)
    {
    }
    RepFrame(t, root, Null, a, b);
    KeysOfSame(IdSeq(t), a, b);
  }

  lemma NoDupInsert(p: seq<int>, z: int, q: seq<int>)
    requires NoDup(p + q) && z !in p + q
    ensures NoDup(p + [z] + q)
  {
    assert multiset(p + [z] + q) == multiset(p + q) + multiset{z};
    forall i
      ensures multiset(p + [z] + q)[i] <= 1
    {
      assert multiset(p + [z] + q)[i] == multiset(p + q)[i] + multiset{z}[i];
    }
  }

  /** Hanging the fresh node z at the empty hole of a represented tree
      represents the tree with z in the hole, provided the hole lies on the
      side of its parent that z's key selects. */
  lemma AttachLinks(c: seq<Frame>, a: Arena, root: int, z: int)
    requires Rep(Plug(c, Nil), root, Null, a) && NoDup(IdSeq(Plug(c, Nil)))
    requires Has(a, z) && a.left[z] == Null && a.right[z] == Null && z !in IdSeq(Plug(c, Nil))
    requires c != [] ==> Has(a, c[0].id) && (c[0].LeftOf? <==> a.key[z] < a.key[c[0].id])
    ensures Rep(Plug(c, Node(Nil, z, Nil)), if c == [] then z else root, Null, Attach(a, z, Up(c)))
  {
    Split(c, Nil, a, root);
    PlugIdSeq(c, Nil);
    var y := Up(c);
    var b := Attach(a, z, y);
    assert z != y;
    AttachElsewhere(a, z, y);
    RepInRange(Plug(c, Nil), root, Null, a);
    forall i | i in Before(c) + After(c) && i != y
      ensures SameAt(a, b, i)
    {
      assert i in IdSeq(Plug(c, Nil));
    }
    if c != [] {
      AttachAtParent(c[0], a, z, y);
    }
    RepReplace(c, Nil, Node(Nil, z, Nil), a, b, root, if c == [] then z else root);
  }

  /** The in-order indices with and without a single node at the hole. */
  lemma AttachIds(c: seq<Frame>, z: int)
    ensures IdSeq(Plug(c, Node(Nil, z, Nil))) == Before(c) + [z] + After(c)
    ensures IdSeq(Plug(c, Nil)) == Before(c) + After(c)
  {
    PlugIdSeq(c, Node(Nil, z, Nil));
    PlugIdSeq(c, Nil);
    assert IdSeq(Node(Nil, z, Nil)) == [z];
  }

  /** The keys in in-order after the attachment: z's key inserted where the
      bracket puts it, which is where `InsertSorted` puts it. */
  lemma AttachKeys(c: seq<Frame>, a: Arena, z: int)
    requires 0 <= z < |a.key| && Brackets(c, a, a.key[z], true)
    ensures IdSeq(Plug(c, Node(Nil, z, Nil))) == Before(c) + [z] + After(c)
    ensures IdSeq(Plug(c, Nil)) == Before(c) + After(c)
    ensures KeysOf(IdSeq(Plug(c, Node(Nil, z, Nil))), a) == InsertSorted(KeysOf(IdSeq(Plug(c, Nil)), a), a.key[z])
  {
    AttachIds(c, z);
    var p, q := KeysOf(Before(c), a), KeysOf(After(c), a);
    KeysOf3(Before(c), [z], After(c), a);
    KeysOfAppend(Before(c), After(c), a);
    assert KeysOf([z], a) == [a.key[z]];
    InsertSortedSplit(p, q, a.key[z]);
  }

  /** The attachment step of `insert`, whole: the new tree is a search tree
      whose in-order keys are the old ones with z's key inserted. */
  lemma AttachRep(c: seq<Frame>, a: Arena, root: int, z: int)
    requires Realises(Plug(c, Nil), root, a)
    requires Has(a, z) && a.left[z] == Null && a.right[z] == Null && z !in IdSeq(Plug(c, Nil))
    requires c != [] ==> Has(a, c[0].id) && (c[0].LeftOf? <==> a.key[z] < a.key[c[0].id])
    requires Brackets(c, a, a.key[z], true)
    ensures c != [] ==> Has(a, Up(c))
    ensures Realises(Plug(c, Node(Nil, z, Nil)), if c == [] then z else root, Attach(a, z, Up(c)))
    ensures KeysOf(IdSeq(Plug(c, Node(Nil, z, Nil))), Attach(a, z, Up(c))) ==
            InsertSorted(KeysOf(IdSeq(Plug(c, Nil)), a), a.key[z])
  {
    Split(c, Nil, a, root);
    AttachLinks(c, a, root, z);
    AttachKeys(c, a, z);
    NoDupInsert(Before(c), z, After(c));
    var b := Attach(a, z, Up(c));
    KeysOfKey(IdSeq(Plug(c, Node(Nil, z, Nil))), a, b);
    InsertSortedKeepsOrder(KeysOf(IdSeq(Plug(c, Nil)), a), a.key[z]);
  }
}
