/** Walking down a search tree from the root: each step moves the hole of a
    context one level down, and the keys the context leaves on either side
    bracket the key being looked for. */
module Descent {
  import opened Shapes
  import opened Contexts
  import opened Ordering

  /** Every key the context places before its hole is below k (or equal to
      it, when `eq` holds), and every key it places after the hole is above
      k. A descent that goes left when k is smaller than the node's key and
      right otherwise keeps this true. */
  ghost predicate Brackets(ctx: seq<Frame>, a: Arena, k: int, eq: bool) {
    (forall x :: x in KeysOf(Before(ctx), a) ==> x < k || (eq && x == k)) &&
    (forall x :: x in KeysOf(After(ctx), a) ==> k < x)
  }

  /** The in-order keys of the whole tree, split at the hole. */
  lemma KeysAround(ctx: seq<Frame>, t: Tree, a: Arena)
    ensures KeysOf(IdSeq(Plug(ctx, t)), a) ==
            KeysOf(Before(ctx), a) + KeysOf(IdSeq(t), a) + KeysOf(After(ctx), a)
  {
    PlugIdSeq(ctx, t);
    KeysOfAppend(Before(ctx) + IdSeq(t), After(ctx), a);
    KeysOfAppend(Before(ctx), IdSeq(t), a);
  }

  /** The keys of a node's subtree: its left keys, its own key, its right
      keys. */
  lemma KeysOfNode(t: Tree, a: Arena)
    requires t.Node? && 0 <= t.id < |a.key|
    ensures KeysOf(IdSeq(t), a) == KeysOf(IdSeq(t.left), a) + [a.key[t.id]] + KeysOf(IdSeq(t.right), a)
  {
    KeysOfAppend(IdSeq(t.left) + [t.id], IdSeq(t.right), a);
    KeysOfAppend(IdSeq(t.left), [t.id], a);
  }

  /** A value inside a sorted sequence bounds what lies next to it. */
  lemma SortedMiddle(kb: seq<int>, kl: seq<int>, v: int, kr: seq<int>, ka: seq<int>)
    requires Sorted(kb + (kl + [v] + kr) + ka)
    ensures forall x :: x in kl ==> x <= v
    ensures forall x :: x in kr ==> v <= x
  {
    assert kb + (kl + [v] + kr) + ka == (kb + kl) + [v] + (kr + ka);
    SortedAround(kb + kl, v, kr + ka);
    forall x | x in kl
      ensures x <= v
    {
      assert x in kb + kl;
    }
    forall x | x in kr
      ensures v <= x
    {
      assert x in kr + ka;
    }
  }

  /** In a search tree a node's key bounds its left subtree from above and
      its right subtree from below. */
  lemma AroundNode(ctx: seq<Frame>, t: Tree, a: Arena, root: int)
    requires Realises(Plug(ctx, t), root, a) && t.Node?
    ensures Has(a, t.id)
    ensures forall x :: x in KeysOf(IdSeq(t.left), a) ==> x <= a.key[t.id]
    ensures forall x :: x in KeysOf(IdSeq(t.right), a) ==> a.key[t.id] <= x
  {
    AtRoot(ctx, t, a, root);
    assert Sorted(KeysOf(IdSeq(Plug(ctx, t)), a));
    KeysAround(ctx, t, a);
    KeysOfNode(t, a);
    SortedMiddle(KeysOf(Before(ctx), a), KeysOf(IdSeq(t.left), a), a.key[t.id], KeysOf(IdSeq(t.right), a), KeysOf(After(ctx), a));
  }

  lemma KeysOf3(x: seq<int>, y: seq<int>, z: seq<int>, a: Arena)
    ensures KeysOf(x + y + z, a) == KeysOf(x, a) + KeysOf(y, a) + KeysOf(z, a)
  {
    KeysOfAppend(x + y, z, a);
    KeysOfAppend(x, y, a);
  }

  /** Keys at most v, where v is below k, are below k too. */
  lemma LowExtend(kb: seq<int>, kl: seq<int>, v: int, k: int, eq: bool)
    requires forall x :: x in kb ==> x < k || (eq && x == k)
    requires forall x :: x in kl ==> x <= v
    requires v < k || (eq && v == k)
    ensures forall x :: x in kb + kl + [v] ==> x < k || (eq && x == k)
  {
  }

  /** Keys at least v, where v is above k, are above k too. */
  lemma HighExtend(v: int, kr: seq<int>, ka: seq<int>, k: int)
    requires forall x :: x in kr ==> v <= x
    requires forall x :: x in ka ==> k < x
    requires k < v
    ensures forall x :: x in [v] + kr + ka ==> k < x
  {
  }

  /** Moving the hole one level down, into the left or the right subtree,
      describes the same tree. */
  lemma PlugDown(ctx: seq<Frame>, t: Tree)
    requires t.Node?
    ensures Plug([LeftOf(t.id, t.right)] + ctx, t.left) == Plug(ctx, t)
    ensures Plug([RightOf(t.left, t.id)] + ctx, t.right) == Plug(ctx, t)
  {
    assert ([LeftOf(t.id, t.right)] + ctx)[1..] == ctx;
    assert ([RightOf(t.left, t.id)] + ctx)[1..] == ctx;
  }

  /** Going left at a node whose key is above k keeps the bracket. */
  lemma GoLeft(ctx: seq<Frame>, t: Tree, a: Arena, root: int, k: int, eq: bool)
    requires Realises(Plug(ctx, t), root, a) && t.Node? && Brackets(ctx, a, k, eq)
    requires 0 <= t.id < |a.key| && k < a.key[t.id]
    ensures Plug([LeftOf(t.id, t.right)] + ctx, t.left) == Plug(ctx, t)
    ensures Brackets([LeftOf(t.id, t.right)] + ctx, a, k, eq)
  {
    var c := [LeftOf(t.id, t.right)] + ctx;
    PlugDown(ctx, t);
    AroundNode(ctx, t, a, root);
    assert After(c) == [t.id] + IdSeq(t.right) + After(ctx);
    KeysOf3([t.id], IdSeq(t.right), After(ctx), a);
    assert KeysOf([t.id], a) == [a.key[t.id]];
    HighExtend(a.key[t.id], KeysOf(IdSeq(t.right), a), KeysOf(After(ctx), a), k);
  }

  /** Going right at a node whose key is below k (or equal, when `eq`
      holds) keeps the bracket. */
  lemma GoRight(ctx: seq<Frame>, t: Tree, a: Arena, root: int, k: int, eq: bool)
    requires Realises(Plug(ctx, t), root, a) && t.Node? && Brackets(ctx, a, k, eq)
    requires 0 <= t.id < |a.key| && (a.key[t.id] < k || (eq && a.key[t.id] == k))
    ensures Plug([RightOf(t.left, t.id)] + ctx, t.right) == Plug(ctx, t)
    ensures Brackets([RightOf(t.left, t.id)] + ctx, a, k, eq)
  {
    var c := [RightOf(t.left, t.id)] + ctx;
    PlugDown(ctx, t);
    AroundNode(ctx, t, a, root);
    assert Before(c) == Before(ctx) + IdSeq(t.left) + [t.id];
    KeysOf3(Before(ctx), IdSeq(t.left), [t.id], a);
    assert KeysOf([t.id], a) == [a.key[t.id]];
    LowExtend(KeysOf(Before(ctx), a), KeysOf(IdSeq(t.left), a), a.key[t.id], k, eq);
  }

  /** A strict bracket around an empty hole leaves no room for k. */
  lemma MissAbsent(ctx: seq<Frame>, a: Arena, k: int)
    requires Brackets(ctx, a, k, false)
    ensures k !in KeysOf(IdSeq(Plug(ctx, Nil)), a)
  {
    KeysAround(ctx, Nil, a);
    assert KeysOf(IdSeq(Nil), a) == [];
  }

  /** The keys of a tree with an empty hole: those before the hole, then
      those after it, in order; the node above the hole is in the arena. */
  lemma HoleKeys(c: seq<Frame>, a: Arena, root: int)
    requires Realises(Plug(c, Nil), root, a) && c != []
    ensures Has(a, c[0].id)
    ensures KeysOf(IdSeq(Plug(c, Nil)), a) == KeysOf(Before(c), a) + KeysOf(After(c), a)
  {
    AboveHole(c, a, root);
    KeysAround(c, Nil, a);
    assert KeysOf(IdSeq(Nil), a) == [];
  }

  /** The node just above the hole is in the arena. */
  lemma AboveHole(c: seq<Frame>, a: Arena, root: int)
    requires Realises(Plug(c, Nil), root, a) && c != []
    ensures Has(a, c[0].id)
  {
    assert Plug(c, Nil) == Plug(c[1..], Fill(c[0], Nil));
    AtRoot(c[1..], Fill(c[0], Nil), a, root);
  }

  /** The hole is g's left link: g holds the least key above k. */
  lemma MissLeft(c: seq<Frame>, a: Arena, k: int)
    requires c != [] && c[0].LeftOf? && Has(a, c[0].id) && Brackets(c, a, k, false)
    requires Sorted(KeysOf(Before(c), a) + KeysOf(After(c), a))
    ensures Neighbour(KeysOf(Before(c), a) + KeysOf(After(c), a), k, a.key[c[0].id])
  {
    var g := c[0].id;
    var rest := IdSeq(c[0].sibling) + After(c[1..]);
    assert After(c) == [g] + rest;
    KeysOfAppend([g], rest, a);
    assert KeysOf([g], a) == [a.key[g]];
    assert KeysOf(After(c), a) == [a.key[g]] + KeysOf(rest, a);
    assert a.key[g] in KeysOf(After(c), a);
    NeighbourAbove(KeysOf(Before(c), a), a.key[g], KeysOf(rest, a), k);
  }

  /** The hole is g's right link: g holds the greatest key below k. */
  lemma MissRight(c: seq<Frame>, a: Arena, k: int)
    requires c != [] && c[0].RightOf? && Has(a, c[0].id) && Brackets(c, a, k, false)
    requires Sorted(KeysOf(Before(c), a) + KeysOf(After(c), a))
    ensures Neighbour(KeysOf(Before(c), a) + KeysOf(After(c), a), k, a.key[c[0].id])
  {
    var g := c[0].id;
    var pre := Before(c[1..]) + IdSeq(c[0].sibling);
    assert Before(c) == pre + [g];
    KeysOfAppend(pre, [g], a);
    assert KeysOf([g], a) == [a.key[g]];
    assert KeysOf(Before(c), a) == KeysOf(pre, a) + [a.key[g]];
    assert a.key[g] in KeysOf(Before(c), a);
    NeighbourBelow(KeysOf(pre, a), a.key[g], KeysOf(After(c), a), k);
  }

  /** A descent that ends at a null link below node g, with k strictly
      bracketed, leaves g holding the key next to k in the tree: the least
      key above k when the hole is g's left link, the greatest key below k
      when it is g's right link. */
  lemma MissNeighbour(c: seq<Frame>, a: Arena, root: int, k: int)
    requires Realises(Plug(c, Nil), root, a) && c != [] && Brackets(c, a, k, false)
    ensures Has(a, c[0].id)
    ensures Neighbour(KeysOf(IdSeq(Plug(c, Nil)), a), k, a.key[c[0].id])
  {
    HoleKeys(c, a, root);
    assert Sorted(KeysOf(IdSeq(Plug(c, Nil)), a));
    if c[0].LeftOf? {
      MissLeft(c, a, k);
    } else {
      MissRight(c, a, k);
    }
  }

  /** The key of the node at the hole occurs in the tree. */
  lemma HitPresent(ctx: seq<Frame>, t: Tree, a: Arena)
    requires t.Node? && 0 <= t.id < |a.key|
    ensures a.key[t.id] in KeysOf(IdSeq(Plug(ctx, t)), a)
  {
    KeysAround(ctx, t, a);
    KeysOfAppend(IdSeq(t.left) + [t.id], IdSeq(t.right), a);
    KeysOfAppend(IdSeq(t.left), [t.id], a);
    assert KeysOf([t.id], a) == [a.key[t.id]];
  }

  /** A node with no left child reached through left links only is the
      first node in in-order. */
  lemma LeftmostFirst(ctx: seq<Frame>, t: Tree)
    requires Before(ctx) == [] && t.Node? && t.left.Nil?
    ensures IdSeq(Plug(ctx, t)) != [] && IdSeq(Plug(ctx, t))[0] == t.id
  {
    PlugIdSeq(ctx, t);
  }

  /** A node with no right child reached through right links only is the
      last node in in-order. */
  lemma RightmostLast(ctx: seq<Frame>, t: Tree)
    requires After(ctx) == [] && t.Node? && t.right.Nil?
    ensures IdSeq(Plug(ctx, t)) != [] && IdSeq(Plug(ctx, t))[|IdSeq(Plug(ctx, t))| - 1] == t.id
  {
    PlugIdSeq(ctx, t);
  }
}
