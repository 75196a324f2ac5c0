/** The node store of a splay tree and the ghost shape it represents.

    A node reference is an index; `Null` (-1) is the null pointer. The four
    fields of the C++ `SplayNode` (`key`, `left`, `right`, `parent`) are
    four parallel sequences indexed by node, so `x->right = b` is the update
    `right[x := b]`. A ghost `Tree` records which indices form the tree and
    how they nest; `Rep` says that the links realise exactly that shape,
    with every child pointing back at its parent. */
module Shapes {

  const Null: int := -1

  /** The fields of every node, one sequence per field. */
  datatype Arena = Arena(key: seq<int>, left: seq<int>, right: seq<int>, parent: seq<int>)

  /** `i` is a node whose four fields all exist. */
  predicate Has(a: Arena, i: int) {
    0 <= i < |a.key| && i < |a.left| && i < |a.right| && i < |a.parent|
  }

  /** All four field sequences have the same length in both arenas. */
  predicate SameSize(a: Arena, b: Arena) {
    |b.key| == |a.key| && |b.left| == |a.left| && |b.right| == |a.right| && |b.parent| == |a.parent|
  }

  /** The ghost shape: node indices arranged as a binary tree. */
  datatype Tree = Nil | Node(left: Tree, id: int, right: Tree)

  /** One step of a path from the root: the hole is the left child of `id`
      (whose right subtree is `sibling`), or its right child. */
  datatype Frame = LeftOf(id: int, sibling: Tree) | RightOf(sibling: Tree, id: int)

  function Top(t: Tree): (n: int) {
    if t.Nil? then Null else t.id
  }

  function Fill(f: Frame, t: Tree): (r: Tree)
    ensures r.Node? && r.id == f.id
  {
    match f
    case LeftOf(g, s) => Node(t, g, s)
    case RightOf(s, g) => Node(s, g, t)
  }

  /** The whole tree, given a context (innermost frame first) and the
      subtree at its hole. */
  function Plug(ctx: seq<Frame>, t: Tree): (whole: Tree)
    decreases |ctx|
  {
    if ctx == [] then t else Plug(ctx[1..], Fill(ctx[0], t))
  }

  /** The node just above the hole, or Null at the top. */
  function Up(ctx: seq<Frame>): (n: int) {
    if ctx == [] then Null else ctx[0].id
  }

  function FrameIds(ctx: seq<Frame>): (ids: set<int>) {
    set f | f in ctx :: f.id
  }

  /** The link of node `g` that leads into the hole of `f`. */
  function HoleLink(f: Frame, a: Arena, g: int): (n: int)
    requires Has(a, g)
  {
    if f.LeftOf? then a.left[g] else a.right[g]
  }

  function OtherLink(f: Frame, a: Arena, g: int): (n: int)
    requires Has(a, g)
  {
    if f.LeftOf? then a.right[g] else a.left[g]
  }

  /** Node `g` is the same in `a` and `b` except that its link into the
      hole of `f` now names `h`. */
  ghost predicate Relinked(f: Frame, a: Arena, b: Arena, g: int, h: int) {
    Has(a, g) && Has(b, g) && HoleLink(f, b, g) == h && OtherLink(f, b, g) == OtherLink(f, a, g) &&
    b.parent[g] == a.parent[g] && b.key[g] == a.key[g]
  }

  /** Node indices in in-order (symmetric) order. */
  function IdSeq(t: Tree): (ids: seq<int>) {
    match t
    case Nil => []
    case Node(l, i, r) => IdSeq(l) + [i] + IdSeq(r)
  }

  /** The in-order indices a context places before and after its hole. */
  function Before(ctx: seq<Frame>): (ids: seq<int>)
    decreases |ctx|
  {
    if ctx == [] then []
    else match ctx[0]
      case LeftOf(_, _) => Before(ctx[1..])
      case RightOf(s, g) => Before(ctx[1..]) + IdSeq(s) + [g]
  }

  function After(ctx: seq<Frame>): (ids: seq<int>)
    decreases |ctx|
  {
    if ctx == [] then []
    else match ctx[0]
      case LeftOf(g, s) => [g] + IdSeq(s) + After(ctx[1..])
      case RightOf(_, _) => After(ctx[1..])
  }

  /** The shape after `rotateLeft` at the root of `t`: the right child is
      promoted and the in-order sequence is unchanged. */
  function RotL(t: Tree): (r: Tree)
    requires t.Node? && t.right.Node?
    ensures r.Node? && r.id == t.right.id && r.left.Node? && r.left.id == t.id
    ensures IdSeq(r) == IdSeq(t)
  {
    Node(Node(t.left, t.id, t.right.left), t.right.id, t.right.right)
  }

  /** The shape after `rotateRight` at the root of `t`. */
  function RotR(t: Tree): (r: Tree)
    requires t.Node? && t.left.Node?
    ensures r.Node? && r.id == t.left.id && r.right.Node? && r.right.id == t.id
    ensures IdSeq(r) == IdSeq(t)
  {
    Node(t.left.left, t.left.id, Node(t.left.right, t.id, t.right))
  }

  /** No index occurs twice. */
  ghost predicate NoDup(s: seq<int>) {
    forall i :: multiset(s)[i] <= 1
  }

  /** The arena `a` realises shape `t` at link value `n`, under parent `p`:
      every node of `t` exists, its child links are the tops of its
      subtrees, and its parent link is the node above it. */
  ghost predicate Rep(t: Tree, n: int, p: int, a: Arena) {
    match t
    case Nil => n == Null
    case Node(l, i, r) =>
      n == i && Has(a, i) && a.parent[i] == p &&
      Rep(l, a.left[i], i, a) && Rep(r, a.right[i], i, a)
  }

  /** The arena realises a context whose hole is filled by node `h` and
      whose outermost node is `root`. */
  ghost predicate RepCtx(ctx: seq<Frame>, h: int, a: Arena, root: int)
    decreases |ctx|
  {
    if ctx == [] then root == h
    else
      var g := ctx[0].id;
      Has(a, g) && HoleLink(ctx[0], a, g) == h &&
      Rep(ctx[0].sibling, OtherLink(ctx[0], a, g), g, a) &&
      a.parent[g] == Up(ctx[1..]) && RepCtx(ctx[1..], g, a, root)
  }

  /** Node `i` has the same fields in both arenas. */
  ghost predicate SameAt(a: Arena, b: Arena, i: int) {
    Has(a, i) && Has(b, i) &&
    a.key[i] == b.key[i] && a.left[i] == b.left[i] && a.right[i] == b.right[i] && a.parent[i] == b.parent[i]
  }

  /** Key of node `i`, or 0 outside the arena. */
  function KeyAt(a: Arena, i: int): (k: int) {
    if 0 <= i < |a.key| then a.key[i] else 0
  }

  /** The keys of the nodes listed in `ids`, in that order. */
  function KeysOf(ids: seq<int>, a: Arena): (ks: seq<int>)
    ensures |ks| == |ids|
    ensures forall j :: 0 <= j < |ids| && 0 <= ids[j] < |a.key| ==> ks[j] == a.key[ids[j]]
  {
    seq(|ids|, j requires 0 <= j < |ids| => KeyAt(a, ids[j]))
  }

  lemma KeysOfAppend(x: seq<int>, y: seq<int>, a: Arena)
    ensures KeysOf(x + y, a) == KeysOf(x, a) + KeysOf(y, a)
  {
  }

  /** Keys depend only on the key fields of the listed nodes. */
  lemma KeysOfSame(ids: seq<int>, a: Arena, b: Arena)
    requires forall i :: i in ids ==> 0 <= i < |a.key| && i < |b.key| && a.key[i] == b.key[i]
    ensures KeysOf(ids, a) == KeysOf(ids, b)
  {
    forall j | 0 <= j < |ids|
      ensures KeysOf(ids, a)[j] == KeysOf(ids, b)[j]
    {
      assert ids[j] in ids;
    }
  }

  /** Keys are read from the key field alone. */
  lemma KeysOfKey(ids: seq<int>, a: Arena, b: Arena)
    requires a.key == b.key
    ensures KeysOf(ids, a) == KeysOf(ids, b)
  {
  }

  // ---------------------------------------------------------------------
  // Lemmas about shapes and contexts

  lemma Regroup(p: seq<int>, x: seq<int>, y: seq<int>, q: seq<int>)
    ensures p + (x + y) + q == p + x + (y + q)
    ensures p + (y + x) + q == (p + y) + x + q
  {
  }

  /** One frame moves its sibling's indices and its own id from the
      outside of the hole to the inside. */
  lemma FillIdSeq(ctx: seq<Frame>, t: Tree)
    requires ctx != []
    ensures Before(ctx[1..]) + IdSeq(Fill(ctx[0], t)) + After(ctx[1..]) == Before(ctx) + IdSeq(t) + After(ctx)
  {
    var p, q, x := Before(ctx[1..]), After(ctx[1..]), IdSeq(t);
    match ctx[0]
    case LeftOf(g, s) =>
      var y := [g] + IdSeq(s);
      assert IdSeq(Fill(ctx[0], t)) == x + y;
      assert Before(ctx) == p && After(ctx) == y + q;
      Regroup(p, x, y, q);
    case RightOf(s, g) =>
      var y := IdSeq(s) + [g];
      assert IdSeq(Fill(ctx[0], t)) == y + x;
      assert Before(ctx) == p + y && After(ctx) == q;
      Regroup(p, x, y, q);
  }

  lemma {:induction false} PlugIdSeq(ctx: seq<Frame>, t: Tree)
    ensures IdSeq(Plug(ctx, t)) == Before(ctx) + IdSeq(t) + After(ctx)
    decreases |ctx|
  {
    if ctx != [] {
      PlugIdSeq(ctx[1..], Fill(ctx[0], t));
      FillIdSeq(ctx, t);
    }
  }

  /** Replacing the subtree at the hole by one with the same in-order
      indices leaves the in-order indices of the whole tree unchanged. */
  lemma PlugSameIds(ctx: seq<Frame>, t1: Tree, t2: Tree)
    requires IdSeq(t1) == IdSeq(t2)
    ensures IdSeq(Plug(ctx, t1)) == IdSeq(Plug(ctx, t2))
  {
    PlugIdSeq(ctx, t1);
    PlugIdSeq(ctx, t2);
  }

  /** Cutting the middle out of a duplicate-free sequence. */
  lemma NoDup3(p: seq<int>, q: seq<int>, r: seq<int>)
    requires NoDup(p + q + r)
    ensures NoDup(q) && NoDup(p + r)
    ensures forall i :: i in q ==> i !in p + r
  {
    assert multiset(p + q + r) == multiset(p + r) + multiset(q);
    forall i
      ensures multiset(q)[i] <= 1 && multiset(p + r)[i] <= 1
      ensures i in q ==> i !in p + r
    {
      assert multiset(p + q + r)[i] == multiset(p + r)[i] + multiset(q)[i];
      assert i in q ==> multiset(q)[i] >= 1;
      assert i in p + r ==> multiset(p + r)[i] >= 1;
    }
  }

  lemma NoDupSplit(x: seq<int>, y: seq<int>)
    requires NoDup(x + y)
    ensures NoDup(x) && NoDup(y)
    ensures forall i :: i in x ==> i !in y
  {
    assert multiset(x + y) == multiset(x) + multiset(y);
    forall i
      ensures multiset(x)[i] <= 1 && multiset(y)[i] <= 1
      ensures i in x ==> i !in y
    {
      assert multiset(x + y)[i] == multiset(x)[i] + multiset(y)[i];
      assert i in x ==> multiset(x)[i] >= 1;
      assert i in y ==> multiset(y)[i] >= 1;
    }
  }

  lemma {:induction false} RepInRange(t: Tree, n: int, p: int, a: Arena)
    requires Rep(t, n, p, a)
    ensures forall i :: i in IdSeq(t) ==> Has(a, i)
  {
    if t.Node? {
      RepInRange(t.left, a.left[t.id], t.id, a);
      RepInRange(t.right, a.right[t.id], t.id, a);
    }
  }

  /** A represented subtree stays represented when none of its nodes
      changes. */
  lemma {:induction false} RepFrame(t: Tree, n: int, p: int, a: Arena, b: Arena)
    requires Rep(t, n, p, a)
    requires forall i :: i in IdSeq(t) ==> SameAt(a, b, i)
    ensures Rep(t, n, p, b)
  {
    if t.Node? {
      assert IdSeq(t) == IdSeq(t.left) + [t.id] + IdSeq(t.right);
      assert SameAt(a, b, t.id);
      RepFrame(t.left, a.left[t.id], t.id, a, b);
      RepFrame(t.right, a.right[t.id], t.id, a, b);
    }
  }

  /** A represented subtree hung under a new parent: only the parent link
      of its top node changed. */
  lemma RepRehang(t: Tree, n: int, p: int, p2: int, a: Arena, b: Arena)
    requires Rep(t, n, p, a) && NoDup(IdSeq(t))
    requires forall i :: i in IdSeq(t) && i != n ==> SameAt(a, b, i)
    requires t.Node? ==> Has(b, n) && b.left[n] == a.left[n] && b.right[n] == a.right[n] && b.parent[n] == p2
    ensures Rep(t, n, p2, b)
  {
    if t.Node? {
      SameAround(IdSeq(t.left), n, IdSeq(t.right), a, b);
      RepFrame(t.left, a.left[n], n, a, b);
      RepFrame(t.right, a.right[n], n, a, b);
    }
  }

  /** Nodes unchanged everywhere in `l + [n] + r` except at n are unchanged
      throughout l and r. */
  lemma SameAround(l: seq<int>, n: int, r: seq<int>, a: Arena, b: Arena)
    requires NoDup(l + [n] + r)
    requires forall i :: i in l + [n] + r && i != n ==> SameAt(a, b, i)
    ensures forall i :: i in l ==> SameAt(a, b, i)
    ensures forall i :: i in r ==> SameAt(a, b, i)
  {
    NoDup3(l, [n], r);
    assert n in [n];
    forall i | i in l
      ensures SameAt(a, b, i)
    {
      assert i in l + [n] + r;
    }
    forall i | i in r
      ensures SameAt(a, b, i)
    {
      assert i in l + [n] + r;
    }
  }

  /** The node just above the hole, as a set (empty at the top). */
  function UpIds(ctx: seq<Frame>): (ids: set<int>) {
    if ctx == [] then {} else {ctx[0].id}
  }

  /** Between arenas `a` and `b` no key changed, and only the nodes in
      `path` had their child links changed; any other node's parent link
      changed only if its parent in `a` was in `path`. */
  ghost predicate Untouched(a: Arena, b: Arena, path: set<int>) {
    SameSize(a, b) && b.key == a.key &&
    (forall i :: Has(a, i) && i !in path ==>
       b.left[i] == a.left[i] && b.right[i] == a.right[i] &&
       (b.parent[i] == a.parent[i] || a.parent[i] in path))
  }

  lemma UntouchedMono(a: Arena, b: Arena, p: set<int>, q: set<int>)
    requires Untouched(a, b, q) && q <= p
    ensures Untouched(a, b, p)
  {
  }

  lemma UntouchedTrans(a: Arena, b: Arena, c: Arena, p: set<int>, q: set<int>)
    requires Untouched(a, b, p) && Untouched(b, c, q) && q <= p
    ensures Untouched(a, c, p)
  {
  }
}
