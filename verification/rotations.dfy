/** The two rotations of `SplayTree` (`rotateLeft`, `rotateRight`) as
    changes of the node fields, and the proof that each one turns the
    represented tree into the rotated shape, keeps the in-order keys, and
    touches only the rotated node, its promoted child and their parent. */
module Rotations {
  import opened Shapes
  import opened Contexts

  /** The nodes `rotateLeft(x)` reads exist: x, its right child y, y's left
      child (unless null) and x's parent (unless null). */
  predicate CanRotLeft(a: Arena, x: int) {
    Has(a, x) && Has(a, a.right[x]) &&
    (a.left[a.right[x]] != Null ==> Has(a, a.left[a.right[x]])) &&
    (a.parent[x] != Null ==> Has(a, a.parent[x]))
  }

  /** The fields after `rotateLeft(x)` when x has a right child y: x adopts
      y's left subtree m, y takes x's place under x's parent g (or becomes
      the root when g is null), and x becomes y's left child. */
  function RotLeftLinks(a: Arena, x: int): (b: Arena)
    requires CanRotLeft(a, x)
    ensures SameSize(a, b) && b.key == a.key
    ensures b.left[a.right[x]] == x && b.parent[x] == a.right[x]
  {
    var y := a.right[x];
    var m := a.left[y];
    var right1 := a.right[x := m];
    var parent1 := if m != Null then a.parent[m := x] else a.parent;
    var g := parent1[x];
    var parent2 := parent1[y := g];
    var left3 := if g != Null && x == a.left[g] then a.left[g := y] else a.left;
    var right3 := if g != Null && x != a.left[g] then right1[g := y] else right1;
    Arena(a.key, left3[y := x], right3, parent2[x := y])
  }

  /** The nodes `rotateRight(y)` reads exist. */
  predicate CanRotRight(a: Arena, y: int) {
    Has(a, y) && Has(a, a.left[y]) &&
    (a.right[a.left[y]] != Null ==> Has(a, a.right[a.left[y]])) &&
    (a.parent[y] != Null ==> Has(a, a.parent[y]))
  }

  /** The fields after `rotateRight(y)` when y has a left child x: y adopts
      x's right subtree m, x takes y's place under y's parent g, and y
      becomes x's right child. */
  function RotRightLinks(a: Arena, y: int): (b: Arena)
    requires CanRotRight(a, y)
    ensures SameSize(a, b) && b.key == a.key
    ensures b.right[a.left[y]] == y && b.parent[y] == a.left[y]
  {
    var x := a.left[y];
    var m := a.right[x];
    var left1 := a.left[y := m];
    var parent1 := if m != Null then a.parent[m := y] else a.parent;
    var g := parent1[y];
    var parent2 := parent1[x := g];
    var left3 := if g != Null && y == left1[g] then left1[g := x] else left1;
    var right3 := if g != Null && y != left1[g] then a.right[g := x] else a.right;
    Arena(a.key, left3, right3[x := y], parent2[y := x])
  }

  /** Field by field, `RotLeftLinks` changes x, y, m and g as described and
      no other node. */
  lemma RotLeftLinksAt(a: Arena, x: int, y: int, m: int, g: int, onLeft: bool)
    requires CanRotLeft(a, x) && y == a.right[x] && m == a.left[y] && g == a.parent[x]
    requires x != y && m != x && m != y && g != x && g != y && (m != Null ==> m != g)
    requires g != Null ==> (a.left[g] == x <==> onLeft)
    ensures Has(RotLeftLinks(a, x), x) && Has(RotLeftLinks(a, x), y)
    ensures RotLeftLinks(a, x).left[x] == a.left[x] && RotLeftLinks(a, x).right[x] == m && RotLeftLinks(a, x).parent[x] == y
    ensures RotLeftLinks(a, x).left[y] == x && RotLeftLinks(a, x).right[y] == a.right[y] && RotLeftLinks(a, x).parent[y] == g
    ensures m != Null ==> Has(RotLeftLinks(a, x), m) && RotLeftLinks(a, x).left[m] == a.left[m] &&
                          RotLeftLinks(a, x).right[m] == a.right[m] && RotLeftLinks(a, x).parent[m] == x
    ensures g != Null ==> Has(RotLeftLinks(a, x), g) && RotLeftLinks(a, x).parent[g] == a.parent[g]
    ensures g != Null && onLeft ==> RotLeftLinks(a, x).left[g] == y && RotLeftLinks(a, x).right[g] == a.right[g]
    ensures g != Null && !onLeft ==> RotLeftLinks(a, x).right[g] == y && RotLeftLinks(a, x).left[g] == a.left[g]
    ensures forall i :: Has(a, i) && i != x && i != y && i != m && i != g ==> SameAt(a, RotLeftLinks(a, x), i)
  {
  }

  /** Field by field, `RotRightLinks` changes y, x, m and g as described
      and no other node. */
  lemma RotRightLinksAt(a: Arena, y: int, x: int, m: int, g: int, onLeft: bool)
    requires CanRotRight(a, y) && x == a.left[y] && m == a.right[x] && g == a.parent[y]
    requires x != y && m != x && m != y && g != x && g != y && (m != Null ==> m != g)
    requires g != Null ==> (a.left[g] == y <==> onLeft)
    ensures Has(RotRightLinks(a, y), x) && Has(RotRightLinks(a, y), y)
    ensures RotRightLinks(a, y).left[y] == m && RotRightLinks(a, y).right[y] == a.right[y] && RotRightLinks(a, y).parent[y] == x
    ensures RotRightLinks(a, y).left[x] == a.left[x] && RotRightLinks(a, y).right[x] == y && RotRightLinks(a, y).parent[x] == g
    ensures m != Null ==> Has(RotRightLinks(a, y), m) && RotRightLinks(a, y).left[m] == a.left[m] &&
                          RotRightLinks(a, y).right[m] == a.right[m] && RotRightLinks(a, y).parent[m] == y
    ensures g != Null ==> Has(RotRightLinks(a, y), g) && RotRightLinks(a, y).parent[g] == a.parent[g]
    ensures g != Null && onLeft ==> RotRightLinks(a, y).left[g] == x && RotRightLinks(a, y).right[g] == a.right[g]
    ensures g != Null && !onLeft ==> RotRightLinks(a, y).right[g] == x && RotRightLinks(a, y).left[g] == a.left[g]
    ensures forall i :: Has(a, i) && i != x && i != y && i != m && i != g ==> SameAt(a, RotRightLinks(a, y), i)
  {
  }

  /** The scalar facts a rotation at the root x of `t`, hanging under g,
      relies on: where the links point and that the nodes it touches are
      distinct. `toRight` selects `rotateLeft` (the right child is promoted)
      or `rotateRight`. */
  lemma PairFacts(t: Tree, g: int, a: Arena, toRight: bool)
    requires t.Node? && Rep(t, t.id, g, a) && NoDup(IdSeq(t)) && g !in IdSeq(t)
    requires forall i :: i in IdSeq(t) ==> Has(a, i)
    ensures Has(a, t.id) && a.parent[t.id] == g && g != t.id
    ensures a.right[t.id] == Top(t.right) && a.left[t.id] == Top(t.left)
    ensures toRight && t.right.Node? ==>
      Has(a, t.right.id) && a.left[t.right.id] == Top(t.right.left) && t.right.id != t.id && t.right.id != g
    ensures toRight && t.right.Node? ==> Top(t.right.left) != t.id && Top(t.right.left) != t.right.id
    ensures toRight && t.right.Node? && t.right.left.Node? ==>
      Has(a, t.right.left.id) && t.right.left.id != g && a.parent[t.right.left.id] == t.right.id
    ensures !toRight && t.left.Node? ==>
      Has(a, t.left.id) && a.right[t.left.id] == Top(t.left.right) && t.left.id != t.id && t.left.id != g
    ensures !toRight && t.left.Node? ==> Top(t.left.right) != t.id && Top(t.left.right) != t.left.id
    ensures !toRight && t.left.Node? && t.left.right.Node? ==>
      Has(a, t.left.right.id) && t.left.right.id != g && a.parent[t.left.right.id] == t.left.id
  {
    var x := t.id;
    assert x in IdSeq(t);
    RepAt(t.left, a.left[x], x, a);
    RepAt(t.right, a.right[x], x, a);
    if toRight && t.right.Node? {
      IdSeqPair(t, true);
      SplitPair(IdSeq(t.left), x, IdSeq(t.right.left), t.right.id, IdSeq(t.right.right));
      UnfoldPair(t, g, a, true);
      RepAt(t.right.left, a.left[t.right.id], t.right.id, a);
      assert t.right.id in IdSeq(t);
      if t.right.left.Node? {
        assert t.right.left.id in IdSeq(t.right.left);
        assert t.right.left.id in IdSeq(t);
      }
    }
    if !toRight && t.left.Node? {
      IdSeqPair(t, false);
      SplitPair(IdSeq(t.left.left), t.left.id, IdSeq(t.left.right), x, IdSeq(t.right));
      UnfoldPair(t, g, a, false);
      RepAt(t.left.right, a.right[t.left.id], t.left.id, a);
      assert t.left.id in IdSeq(t);
      if t.left.right.Node? {
        assert t.left.right.id in IdSeq(t.left.right);
        assert t.left.right.id in IdSeq(t);
      }
    }
  }

  /** The scalar facts of `PairFacts`, for the subtree at the hole of a
      represented whole tree. */
  lemma RotFacts(ctx: seq<Frame>, t: Tree, a: Arena, root: int, toRight: bool)
    requires Rep(Plug(ctx, t), root, Null, a) && NoDup(IdSeq(Plug(ctx, t))) && t.Node?
    ensures (ctx == []) == (Up(ctx) == Null)
    ensures ctx != [] ==> Has(a, Up(ctx)) && (a.left[Up(ctx)] == t.id <==> ctx[0].LeftOf?)
    ensures ctx != [] ==> (a.right[Up(ctx)] == t.id <==> ctx[0].RightOf?)
    ensures Has(a, t.id) && a.parent[t.id] == Up(ctx) && Up(ctx) != t.id
    ensures a.right[t.id] == Top(t.right) && a.left[t.id] == Top(t.left)
    ensures toRight && t.right.Node? ==>
      Has(a, t.right.id) && a.left[t.right.id] == Top(t.right.left) && t.right.id != t.id && t.right.id != Up(ctx)
    ensures toRight && t.right.Node? ==> Top(t.right.left) != t.id && Top(t.right.left) != t.right.id
    ensures toRight && t.right.Node? && t.right.left.Node? ==>
      Has(a, t.right.left.id) && t.right.left.id != Up(ctx) && a.parent[t.right.left.id] == t.right.id
    ensures !toRight && t.left.Node? ==>
      Has(a, t.left.id) && a.right[t.left.id] == Top(t.left.right) && t.left.id != t.id && t.left.id != Up(ctx)
    ensures !toRight && t.left.Node? ==> Top(t.left.right) != t.id && Top(t.left.right) != t.left.id
    ensures !toRight && t.left.Node? && t.left.right.Node? ==>
      Has(a, t.left.right.id) && t.left.right.id != Up(ctx) && a.parent[t.left.right.id] == t.left.id
  {
    UpFacts(ctx, t, a, root);
    SplitSub(ctx, t, a, root);
    PairFacts(t, Up(ctx), a, toRight);
  }

  /** After the relinking `rotateLeft` performs on `t`'s root x and its
      right child y (x adopts y's left subtree, y adopts x, y takes x's
      parent), the arena represents the rotated shape. */
  lemma RotLLocal(t: Tree, g: int, a: Arena, b: Arena)
    requires t.Node? && t.right.Node?
    requires Rep(t, t.id, g, a) && NoDup(IdSeq(t)) && g !in IdSeq(t)
    requires Has(a, t.id) && Has(b, t.id) && b.left[t.id] == a.left[t.id] && b.right[t.id] == Top(t.right.left) && b.parent[t.id] == t.right.id
    requires Has(a, t.right.id) && Has(b, t.right.id) && b.left[t.right.id] == t.id && b.right[t.right.id] == a.right[t.right.id] && b.parent[t.right.id] == g
    requires t.right.left.Node? ==>
      Has(a, t.right.left.id) && Has(b, t.right.left.id) && b.left[t.right.left.id] == a.left[t.right.left.id] &&
      b.right[t.right.left.id] == a.right[t.right.left.id] && b.parent[t.right.left.id] == t.id
    requires forall i :: i in IdSeq(t) && i != t.id && i != t.right.id && i != Top(t.right.left) ==> SameAt(a, b, i)
    ensures Rep(RotL(t), t.right.id, g, b)
  {
    var x, y := t.id, t.right.id;
    var ta, tb, tc := t.left, t.right.left, t.right.right;
    UnfoldPair(t, g, a, true);
    IdSeqPair(t, true);
    SplitPair(IdSeq(ta), x, IdSeq(tb), y, IdSeq(tc));
    if tb.Node? {
      assert tb.id in IdSeq(tb);
    }
    RepInRange(t, t.id, g, a);
    forall i | i in IdSeq(ta)
      ensures SameAt(a, b, i)
    {
      assert i in IdSeq(t);
      assert i != Top(tb);
    }
    forall i | i in IdSeq(tc)
      ensures SameAt(a, b, i)
    {
      assert i in IdSeq(t);
      assert i != Top(tb);
    }
    forall i | i in IdSeq(tb) && i != Top(tb)
      ensures SameAt(a, b, i)
    {
      assert i in IdSeq(t);
    }
    RepFrame(ta, a.left[x], x, a, b);
    RepFrame(tc, a.right[y], y, a, b);
    RepAt(tb, a.left[y], y, a);
    RepRehang(tb, Top(tb), y, x, a, b);
    FoldLeftPair(ta, x, tb, y, tc, g, b);
  }

  /** The mirror image, for `rotateRight`. */
  lemma RotRLocal(t: Tree, g: int, a: Arena, b: Arena)
    requires t.Node? && t.left.Node?
    requires Rep(t, t.id, g, a) && NoDup(IdSeq(t)) && g !in IdSeq(t)
    requires Has(a, t.id) && Has(b, t.id) && b.left[t.id] == Top(t.left.right) && b.right[t.id] == a.right[t.id] && b.parent[t.id] == t.left.id
    requires Has(a, t.left.id) && Has(b, t.left.id) && b.left[t.left.id] == a.left[t.left.id] && b.right[t.left.id] == t.id && b.parent[t.left.id] == g
    requires t.left.right.Node? ==>
      Has(a, t.left.right.id) && Has(b, t.left.right.id) && b.left[t.left.right.id] == a.left[t.left.right.id] &&
      b.right[t.left.right.id] == a.right[t.left.right.id] && b.parent[t.left.right.id] == t.id
    requires forall i :: i in IdSeq(t) && i != t.id && i != t.left.id && i != Top(t.left.right) ==> SameAt(a, b, i)
    ensures Rep(RotR(t), t.left.id, g, b)
  {
    var y, x := t.id, t.left.id;
    var ta, tb, tc := t.left.left, t.left.right, t.right;
    UnfoldPair(t, g, a, false);
    IdSeqPair(t, false);
    SplitPair(IdSeq(ta), x, IdSeq(tb), y, IdSeq(tc));
    if tb.Node? {
      assert tb.id in IdSeq(tb);
    }
    RepInRange(t, t.id, g, a);
    forall i | i in IdSeq(ta)
      ensures SameAt(a, b, i)
    {
      assert i in IdSeq(t);
      assert i != Top(tb);
    }
    forall i | i in IdSeq(tc)
      ensures SameAt(a, b, i)
    {
      assert i in IdSeq(t);
      assert i != Top(tb);
    }
    forall i | i in IdSeq(tb) && i != Top(tb)
      ensures SameAt(a, b, i)
    {
      assert i in IdSeq(t);
    }
    RepFrame(ta, a.left[x], x, a, b);
    RepFrame(tc, a.right[y], y, a, b);
    RepAt(tb, a.right[x], x, a);
    RepRehang(tb, Top(tb), x, y, a, b);
    FoldRightPair(ta, x, tb, y, tc, g, b);
  }

  /** `rotateLeft` on a represented subtree `t` hanging under g: the new
      fields represent the rotated subtree under g, nothing outside `t`
      other than g changes, and g's link on x's side now names y. */
  lemma RotLeftCore(t: Tree, g: int, a: Arena, onLeft: bool)
    requires t.Node? && t.right.Node?
    requires Rep(t, t.id, g, a) && NoDup(IdSeq(t)) && g !in IdSeq(t)
    requires forall i :: i in IdSeq(t) ==> Has(a, i)
    requires g != Null ==> Has(a, g) && (a.left[g] == t.id <==> onLeft)
    ensures CanRotLeft(a, t.id) && a.right[t.id] == t.right.id && a.parent[t.id] == g
    ensures Rep(RotL(t), t.right.id, g, RotLeftLinks(a, t.id))
    ensures forall i :: Has(a, i) && i !in IdSeq(t) && i != g ==> SameAt(a, RotLeftLinks(a, t.id), i)
    ensures g != Null ==> Has(RotLeftLinks(a, t.id), g) && RotLeftLinks(a, t.id).parent[g] == a.parent[g]
    ensures g != Null && onLeft ==> RotLeftLinks(a, t.id).left[g] == t.right.id && RotLeftLinks(a, t.id).right[g] == a.right[g]
    ensures g != Null && !onLeft ==> RotLeftLinks(a, t.id).right[g] == t.right.id && RotLeftLinks(a, t.id).left[g] == a.left[g]
  {
    var x, y, m := t.id, t.right.id, Top(t.right.left);
    PairFacts(t, g, a, true);
    var b := RotLeftLinks(a, x);
    RotLeftLinksAt(a, x, y, m, g, onLeft);
    IdSeqPair(t, true);
    assert x in IdSeq(t) && y in IdSeq(t);
    if m != Null {
      assert m in IdSeq(t.right.left);
    }
    Except4(IdSeq(t), a, b, x, y, m, g);
    RotLLocal(t, g, a, b);
  }

  /** Only x, y and g change their child links under `rotateLeft`; the
      one other node whose parent changes is y's former left child, whose
      old parent y is among them. */
  lemma RotLeftUntouched(a: Arena, x: int, path: set<int>)
    requires CanRotLeft(a, x) && x != a.right[x] && a.left[a.right[x]] != x && a.left[a.right[x]] != a.right[x]
    requires a.parent[x] != x && a.parent[x] != a.right[x]
    requires a.left[a.right[x]] != Null ==> a.left[a.right[x]] != a.parent[x] && a.parent[a.left[a.right[x]]] == a.right[x]
    requires x in path && a.right[x] in path && (a.parent[x] != Null ==> a.parent[x] in path)
    ensures Untouched(a, RotLeftLinks(a, x), path)
  {
    var g := a.parent[x];
    RotLeftLinksAt(a, x, a.right[x], a.left[a.right[x]], g, g != Null && a.left[g] == x);
  }

  /** `rotateLeft` at the hole of a represented, duplicate-free tree: the
      new fields represent the tree with the rotated subtree plugged in
      (rooted at the promoted child when the hole was the root), the
      in-order keys are unchanged, and only x, y and x's parent had their
      child links changed. */
  lemma RotLeftRep(ctx: seq<Frame>, t: Tree, a: Arena, root: int)
    requires Realises(Plug(ctx, t), root, a) && t.Node? && t.right.Node?
    ensures CanRotLeft(a, t.id) && a.right[t.id] == t.right.id && (a.parent[t.id] == Null <==> ctx == [])
    ensures t.id != t.right.id && a.left[t.right.id] != t.id && a.parent[t.id] != t.id
    ensures Realises(Plug(ctx, RotL(t)), if ctx == [] then t.right.id else root, RotLeftLinks(a, t.id))
    ensures IdSeq(Plug(ctx, RotL(t))) == IdSeq(Plug(ctx, t))
    ensures KeysOf(IdSeq(Plug(ctx, RotL(t))), RotLeftLinks(a, t.id)) == KeysOf(IdSeq(Plug(ctx, t)), a)
    ensures Untouched(a, RotLeftLinks(a, t.id), {t.id, t.right.id} + UpIds(ctx))
  {
    var x, y, g := t.id, t.right.id, Up(ctx);
    UpFacts(ctx, t, a, root);
    SplitSub(ctx, t, a, root);
    RotLeftCore(t, g, a, ctx != [] && ctx[0].LeftOf?);
    var b := RotLeftLinks(a, x);
    PathFrame(ctx, t, a, b, root);
    RepWhole(ctx, t, RotL(t), a, b, root, if ctx == [] then y else root);
    RotFacts(ctx, t, a, root, true);
    RotLeftUntouched(a, x, {x, y} + UpIds(ctx));
  }

  /** `rotateRight` on a represented subtree `t` hanging under g: the
      mirror image of `RotLeftCore`. */
  lemma RotRightCore(t: Tree, g: int, a: Arena, onLeft: bool)
    requires t.Node? && t.left.Node?
    requires Rep(t, t.id, g, a) && NoDup(IdSeq(t)) && g !in IdSeq(t)
    requires forall i :: i in IdSeq(t) ==> Has(a, i)
    requires g != Null ==> Has(a, g) && (a.left[g] == t.id <==> onLeft)
    ensures CanRotRight(a, t.id) && a.left[t.id] == t.left.id && a.parent[t.id] == g
    ensures Rep(RotR(t), t.left.id, g, RotRightLinks(a, t.id))
    ensures forall i :: Has(a, i) && i !in IdSeq(t) && i != g ==> SameAt(a, RotRightLinks(a, t.id), i)
    ensures g != Null ==> Has(RotRightLinks(a, t.id), g) && RotRightLinks(a, t.id).parent[g] == a.parent[g]
    ensures g != Null && onLeft ==> RotRightLinks(a, t.id).left[g] == t.left.id && RotRightLinks(a, t.id).right[g] == a.right[g]
    ensures g != Null && !onLeft ==> RotRightLinks(a, t.id).right[g] == t.left.id && RotRightLinks(a, t.id).left[g] == a.left[g]
  {
    var y, x, m := t.id, t.left.id, Top(t.left.right);
    PairFacts(t, g, a, false);
    var b := RotRightLinks(a, y);
    RotRightLinksAt(a, y, x, m, g, onLeft);
    IdSeqPair(t, false);
    assert x in IdSeq(t) && y in IdSeq(t);
    if m != Null {
      assert m in IdSeq(t.left.right);
    }
    Except4(IdSeq(t), a, b, x, y, m, g);
    RotRLocal(t, g, a, b);
  }

  /** The mirror image of `RotLeftUntouched`. */
  lemma RotRightUntouched(a: Arena, y: int, path: set<int>)
    requires CanRotRight(a, y) && y != a.left[y] && a.right[a.left[y]] != y && a.right[a.left[y]] != a.left[y]
    requires a.parent[y] != y && a.parent[y] != a.left[y]
    requires a.right[a.left[y]] != Null ==> a.right[a.left[y]] != a.parent[y] && a.parent[a.right[a.left[y]]] == a.left[y]
    requires y in path && a.left[y] in path && (a.parent[y] != Null ==> a.parent[y] in path)
    ensures Untouched(a, RotRightLinks(a, y), path)
  {
    var g := a.parent[y];
    RotRightLinksAt(a, y, a.left[y], a.right[a.left[y]], g, g != Null && a.left[g] == y);
  }

  /** The mirror image of `RotLeftRep`, for `rotateRight`. */
  lemma RotRightRep(ctx: seq<Frame>, t: Tree, a: Arena, root: int)
    requires Realises(Plug(ctx, t), root, a) && t.Node? && t.left.Node?
    ensures CanRotRight(a, t.id) && a.left[t.id] == t.left.id && (a.parent[t.id] == Null <==> ctx == [])
    ensures t.id != t.left.id && a.right[t.left.id] != t.id && a.parent[t.id] != t.id
    ensures Realises(Plug(ctx, RotR(t)), if ctx == [] then t.left.id else root, RotRightLinks(a, t.id))
    ensures IdSeq(Plug(ctx, RotR(t))) == IdSeq(Plug(ctx, t))
    ensures KeysOf(IdSeq(Plug(ctx, RotR(t))), RotRightLinks(a, t.id)) == KeysOf(IdSeq(Plug(ctx, t)), a)
    ensures Untouched(a, RotRightLinks(a, t.id), {t.left.id, t.id} + UpIds(ctx))
  {
    var y, x, g := t.id, t.left.id, Up(ctx);
    UpFacts(ctx, t, a, root);
    SplitSub(ctx, t, a, root);
    RotRightCore(t, g, a, ctx != [] && ctx[0].LeftOf?);
    var b := RotRightLinks(a, y);
    PathFrame(ctx, t, a, b, root);
    RepWhole(ctx, t, RotR(t), a, b, root, if ctx == [] then x else root);
    RotFacts(ctx, t, a, root, false);
    RotRightUntouched(a, y, {x, y} + UpIds(ctx));
  }
}
