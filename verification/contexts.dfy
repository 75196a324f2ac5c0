/** How a represented tree splits at a node into the path above it and the
    subtree below it, and how a local relinking at that node (a rotation,
    an attached leaf) keeps the whole tree represented. */
module Contexts {
  import opened Shapes
  import opened Ordering

  /** The arena holds a search tree of shape `t` rooted at `root`: one entry
      per node in every field, the links realise `t`, no node occurs twice,
      and the in-order keys are non-decreasing. */
  ghost predicate Realises(t: Tree, root: int, a: Arena) {
    |a.left| == |a.key| && |a.right| == |a.key| && |a.parent| == |a.key| &&
    Rep(t, root, Null, a) && NoDup(IdSeq(t)) && Sorted(KeysOf(IdSeq(t), a))
  }

  lemma RepAt(t: Tree, n: int, p: int, a: Arena)
    ensures Rep(t, n, p, a) <==> n == Top(t) && Rep(t, Top(t), p, a)
  {
  }

  /** The whole tree is represented exactly when the path above the hole
      and the subtree in the hole are, glued at the hole's parent. */
  lemma {:induction false} RepPlug(ctx: seq<Frame>, t: Tree, a: Arena, root: int)
    ensures Rep(Plug(ctx, t), root, Null, a) <==>
            RepCtx(ctx, Top(t), a, root) && Rep(t, Top(t), Up(ctx), a)
    decreases |ctx|
  {
    if ctx == [] {
      RepAt(t, root, Null, a);
    } else {
      var f, rest := ctx[0], ctx[1..];
      var g := f.id;
      RepPlug(rest, Fill(f, t), a, root);
      if Has(a, g) {
        RepAt(t, HoleLink(f, a, g), g, a);
      }
    }
  }

  /** A represented context stays represented when none of its nodes
      changes. */
  lemma {:induction false} RepCtxFrame(ctx: seq<Frame>, h: int, a: Arena, b: Arena, root: int)
    requires RepCtx(ctx, h, a, root)
    requires forall i :: i in Before(ctx) + After(ctx) ==> SameAt(a, b, i)
    ensures RepCtx(ctx, h, b, root)
    decreases |ctx|
  {
    if ctx != [] {
      var f, rest := ctx[0], ctx[1..];
      var g := f.id;
      assert forall i :: i in Before(rest) + After(rest) ==> i in Before(ctx) + After(ctx);
      assert forall i :: i in IdSeq(f.sibling) ==> i in Before(ctx) + After(ctx);
      assert g in Before(ctx) + After(ctx);
      assert SameAt(a, b, g);
      RepFrame(f.sibling, OtherLink(f, a, g), g, a, b);
      RepCtxFrame(rest, g, a, b, root);
    }
  }

  /** What a context owns: the node above the hole, its other subtree and
      what the rest of the path owns; the first two are disjoint from the
      third. */
  lemma CtxOwned(ctx: seq<Frame>)
    requires ctx != [] && NoDup(Before(ctx) + After(ctx))
    ensures NoDup(Before(ctx[1..]) + After(ctx[1..]))
    ensures Up(ctx) !in Before(ctx[1..]) + After(ctx[1..]) && Up(ctx) !in IdSeq(ctx[0].sibling)
    ensures forall i :: i in Before(ctx[1..]) + After(ctx[1..]) ==> i in Before(ctx) + After(ctx)
    ensures forall i :: i in IdSeq(ctx[0].sibling) ==> i in Before(ctx) + After(ctx)
  {
    var rest := ctx[1..];
    assert multiset(Before(ctx) + After(ctx)) ==
      multiset(Before(rest) + After(rest)) + multiset(IdSeq(ctx[0].sibling)) + multiset{ctx[0].id};
    OwnedParts(Before(ctx) + After(ctx), Before(rest) + After(rest), IdSeq(ctx[0].sibling), ctx[0].id);
  }

  lemma OwnedParts(w: seq<int>, r: seq<int>, s: seq<int>, g: int)
    requires multiset(w) == multiset(r) + multiset(s) + multiset{g}
    requires NoDup(w)
    ensures NoDup(r) && g !in r && g !in s
    ensures forall i :: i in r ==> i in w
    ensures forall i :: i in s ==> i in w
  {
    forall i
      ensures multiset(r)[i] <= 1
      ensures i in r ==> i in w
      ensures i in s ==> i in w
    {
      assert multiset(w)[i] == multiset(r)[i] + multiset(s)[i] + multiset{g}[i];
      assert i in r ==> multiset(r)[i] >= 1;
      assert i in s ==> multiset(s)[i] >= 1;
    }
    assert multiset(w)[g] == multiset(r)[g] + multiset(s)[g] + 1;
  }

  /** The context stays represented when only the hole link of the node
      above the hole changes, to point at `h2`. */
  lemma RepCtxRelink(ctx: seq<Frame>, h: int, h2: int, a: Arena, b: Arena, root: int)
    requires ctx != []
    requires RepCtx(ctx, h, a, root) && NoDup(Before(ctx) + After(ctx))
    requires forall i :: i in Before(ctx) + After(ctx) && i != Up(ctx) ==> SameAt(a, b, i)
    requires Relinked(ctx[0], a, b, Up(ctx), h2)
    ensures RepCtx(ctx, h2, b, root)
  {
    var f, rest := ctx[0], ctx[1..];
    var g := f.id;
    CtxOwned(ctx);
    RepFrame(f.sibling, OtherLink(f, a, g), g, a, b);
    RepCtxFrame(rest, g, a, b, root);
  }

  /** Splitting a duplicate-free whole tree at a hole: facts about the
      subtree there and the path above it. */
  lemma Split(ctx: seq<Frame>, t: Tree, a: Arena, root: int)
    requires Rep(Plug(ctx, t), root, Null, a) && NoDup(IdSeq(Plug(ctx, t)))
    ensures RepCtx(ctx, Top(t), a, root) && Rep(t, Top(t), Up(ctx), a)
    ensures NoDup(IdSeq(t)) && NoDup(Before(ctx) + After(ctx))
    ensures forall i :: i in IdSeq(t) ==> i !in Before(ctx) + After(ctx)
    ensures ctx != [] ==> Up(ctx) in Before(ctx) + After(ctx) && Up(ctx) !in IdSeq(t)
    ensures ctx != [] ==> Has(a, Up(ctx)) && HoleLink(ctx[0], a, Up(ctx)) == Top(t)
    ensures t.Node? && ctx != [] ==> OtherLink(ctx[0], a, Up(ctx)) != t.id
  {
    RepPlug(ctx, t, a, root);
    PlugIdSeq(ctx, t);
    NoDup3(Before(ctx), IdSeq(t), After(ctx));
    if ctx != [] {
      var f := ctx[0];
      var g := f.id;
      assert g in Before(ctx) + After(ctx);
      if t.Node? {
        var o := f.sibling;
        assert t.id in IdSeq(t);
        assert forall i :: i in IdSeq(o) ==> i in Before(ctx) + After(ctx);
        RepAt(o, OtherLink(f, a, g), g, a);
        if o.Node? {
          assert o.id in IdSeq(o);
        }
      }
    }
  }

  /** The subtree at the hole on its own: represented under the hole's
      parent, duplicate-free, and not containing that parent. */
  lemma SplitSub(ctx: seq<Frame>, t: Tree, a: Arena, root: int)
    requires Rep(Plug(ctx, t), root, Null, a) && NoDup(IdSeq(Plug(ctx, t)))
    ensures Rep(t, Top(t), Up(ctx), a) && NoDup(IdSeq(t)) && Up(ctx) !in IdSeq(t)
    ensures forall i :: i in IdSeq(t) ==> Has(a, i)
  {
    Split(ctx, t, a, root);
    RepInRange(t, Top(t), Up(ctx), a);
  }

  /** The link from the hole's parent: absent exactly when the hole is the
      root, and otherwise on the side the innermost frame records. */
  lemma UpFacts(ctx: seq<Frame>, t: Tree, a: Arena, root: int)
    requires Rep(Plug(ctx, t), root, Null, a) && NoDup(IdSeq(Plug(ctx, t))) && t.Node?
    ensures (ctx == []) == (Up(ctx) == Null)
    ensures ctx != [] ==> Has(a, Up(ctx)) && (a.left[Up(ctx)] == t.id <==> ctx[0].LeftOf?)
    ensures ctx != [] ==> (a.right[Up(ctx)] == t.id <==> ctx[0].RightOf?)
  {
    Split(ctx, t, a, root);
  }

  /** Replacing the subtree at the hole by another one whose top is linked
      under the same parent keeps the whole tree represented, provided the
      path above changed only in the hole link. */
  lemma RepReplace(ctx: seq<Frame>, t: Tree, t2: Tree, a: Arena, b: Arena, root: int, root2: int)
    requires Rep(Plug(ctx, t), root, Null, a) && NoDup(IdSeq(Plug(ctx, t)))
    requires Rep(t2, Top(t2), Up(ctx), b)
    requires forall i :: i in Before(ctx) + After(ctx) && i != Up(ctx) ==> SameAt(a, b, i)
    requires ctx != [] ==> Relinked(ctx[0], a, b, Up(ctx), Top(t2))
    requires root2 == if ctx == [] then Top(t2) else root
    ensures Rep(Plug(ctx, t2), root2, Null, b)
  {
    Split(ctx, t, a, root);
    if ctx != [] {
      RepCtxRelink(ctx, Top(t), Top(t2), a, b, root);
    }
    RepPlug(ctx, t2, b, root2);
  }

  /** A change confined to the subtree at the hole and the hole's parent
      leaves every other node of the path above as it was. */
  lemma PathFrame(ctx: seq<Frame>, t: Tree, a: Arena, b: Arena, root: int)
    requires Rep(Plug(ctx, t), root, Null, a) && NoDup(IdSeq(Plug(ctx, t)))
    requires forall i :: Has(a, i) && i !in IdSeq(t) && i != Up(ctx) ==> SameAt(a, b, i)
    ensures forall i :: i in Before(ctx) + After(ctx) && i != Up(ctx) ==> SameAt(a, b, i)
  {
    Split(ctx, t, a, root);
    RepInRange(Plug(ctx, t), root, Null, a);
    PlugIdSeq(ctx, t);
    forall i | i in Before(ctx) + After(ctx) && i != Up(ctx)
      ensures SameAt(a, b, i)
    {
      assert i in IdSeq(Plug(ctx, t));
    }
  }

  /** Completing a local change at the hole: once the new subtree `t2`
      (same in-order nodes as `t`) is represented under the hole's parent,
      whose hole link now names `t2`'s top, and nothing else on the path
      changed, the whole arena represents the plugged tree with the same
      keys in the same order. */
  lemma RepWhole(ctx: seq<Frame>, t: Tree, t2: Tree, a: Arena, b: Arena, root: int, root2: int)
    requires Rep(Plug(ctx, t), root, Null, a) && NoDup(IdSeq(Plug(ctx, t)))
    requires IdSeq(t2) == IdSeq(t) && Rep(t2, Top(t2), Up(ctx), b) && b.key == a.key
    requires forall i :: i in Before(ctx) + After(ctx) && i != Up(ctx) ==> SameAt(a, b, i)
    requires ctx != [] ==> Relinked(ctx[0], a, b, Up(ctx), Top(t2))
    requires root2 == if ctx == [] then Top(t2) else root
    ensures Rep(Plug(ctx, t2), root2, Null, b) && NoDup(IdSeq(Plug(ctx, t2)))
    ensures IdSeq(Plug(ctx, t2)) == IdSeq(Plug(ctx, t))
    ensures KeysOf(IdSeq(Plug(ctx, t2)), b) == KeysOf(IdSeq(Plug(ctx, t)), a)
  {
    RepReplace(ctx, t, t2, a, b, root, root2);
    PlugSameIds(ctx, t, t2);
    RepInRange(Plug(ctx, t), root, Null, a);
    KeysOfSame(IdSeq(Plug(ctx, t)), a, b);
  }

  /** The in-order indices of a node x with a child y on one side, split
      at both: the outer parts avoid x, y and the middle part (the subtree
      that changes sides in a rotation), which itself avoids x and y. */
  lemma SplitPair(pa: seq<int>, x: int, pb: seq<int>, y: int, pc: seq<int>)
    requires NoDup(pa + [x] + pb + [y] + pc)
    ensures NoDup(pb) && x != y
    ensures forall i :: i in pa ==> i != x && i != y && i !in pb
    ensures forall i :: i in pc ==> i != x && i != y && i !in pb
    ensures forall i :: i in pb ==> i != x && i != y
  {
    var s := pa + [x] + pb + [y] + pc;
    assert multiset(s) == multiset(pa) + multiset(pb) + multiset(pc) + multiset{x} + multiset{y};
    forall i
      ensures multiset(pb)[i] <= 1
      ensures i in pa ==> i != x && i != y && i !in pb
      ensures i in pc ==> i != x && i != y && i !in pb
      ensures i in pb ==> i != x && i != y
    {
      assert multiset(s)[i] == multiset(pa)[i] + multiset(pb)[i] + multiset(pc)[i] + multiset{x}[i] + multiset{y}[i];
      assert i in pa ==> multiset(pa)[i] >= 1;
      assert i in pb ==> multiset(pb)[i] >= 1;
      assert i in pc ==> multiset(pc)[i] >= 1;
    }
    assert multiset(s)[x] >= multiset{x}[x] + multiset{y}[x];
  }

  /** The in-order ids of a node and its child on one side. */
  lemma IdSeqPair(t: Tree, toRight: bool)
    requires t.Node? && (if toRight then t.right.Node? else t.left.Node?)
    ensures toRight ==> IdSeq(t) == IdSeq(t.left) + [t.id] + IdSeq(t.right.left) + [t.right.id] + IdSeq(t.right.right)
    ensures !toRight ==> IdSeq(t) == IdSeq(t.left.left) + [t.left.id] + IdSeq(t.left.right) + [t.id] + IdSeq(t.right)
  {
  }

  /** Unfolding `Rep` at a node and its child on one side. */
  lemma UnfoldPair(t: Tree, g: int, a: Arena, toRight: bool)
    requires t.Node? && (if toRight then t.right.Node? else t.left.Node?)
    requires Rep(t, t.id, g, a)
    ensures Has(a, t.id) && a.parent[t.id] == g
    ensures toRight ==> Has(a, t.right.id) && a.right[t.id] == t.right.id && a.parent[t.right.id] == t.id
    ensures toRight ==> Rep(t.left, a.left[t.id], t.id, a) && Rep(t.right.left, a.left[t.right.id], t.right.id, a)
    ensures toRight ==> Rep(t.right.right, a.right[t.right.id], t.right.id, a)
    ensures !toRight ==> Has(a, t.left.id) && a.left[t.id] == t.left.id && a.parent[t.left.id] == t.id
    ensures !toRight ==> Rep(t.right, a.right[t.id], t.id, a) && Rep(t.left.left, a.left[t.left.id], t.left.id, a)
    ensures !toRight ==> Rep(t.left.right, a.right[t.left.id], t.left.id, a)
  {
  }

  /** Folding `Rep` back for a node y whose left child is x. */
  lemma FoldLeftPair(ta: Tree, x: int, tb: Tree, y: int, tc: Tree, g: int, b: Arena)
    requires Has(b, x) && Has(b, y)
    requires b.left[y] == x && b.parent[y] == g && b.parent[x] == y
    requires Rep(ta, b.left[x], x, b) && Rep(tb, b.right[x], x, b) && Rep(tc, b.right[y], y, b)
    ensures Rep(Node(Node(ta, x, tb), y, tc), y, g, b)
  {
  }

  /** Folding `Rep` back for a node x whose right child is y. */
  lemma FoldRightPair(ta: Tree, x: int, tb: Tree, y: int, tc: Tree, g: int, b: Arena)
    requires Has(b, x) && Has(b, y)
    requires b.right[x] == y && b.parent[x] == g && b.parent[y] == x
    requires Rep(ta, b.left[x], x, b) && Rep(tb, b.left[y], y, b) && Rep(tc, b.right[y], y, b)
    ensures Rep(Node(ta, x, Node(tb, y, tc)), x, g, b)
  {
  }

  /** A change at x, y, m and g, where x, y and m (unless null) lie in
      `ids` and g does not, seen from inside and from outside `ids`. */
  lemma Except4(ids: seq<int>, a: Arena, b: Arena, x: int, y: int, m: int, g: int)
    requires x in ids && y in ids && (m != Null ==> m in ids) && g !in ids
    requires forall i :: i in ids ==> Has(a, i)
    requires forall i :: Has(a, i) && i != x && i != y && i != m && i != g ==> SameAt(a, b, i)
    ensures forall i :: Has(a, i) && i !in ids && i != g ==> SameAt(a, b, i)
    ensures forall i :: i in ids && i != x && i != y && i != m ==> SameAt(a, b, i)
  {
  }

  lemma {:induction false} PlugNode(ctx: seq<Frame>, t: Tree)
    requires t.Node?
    ensures Plug(ctx, t).Node?
    decreases |ctx|
  {
    if ctx != [] {
      PlugNode(ctx[1..], Fill(ctx[0], t));
    }
  }

  /** The node at the hole is the root exactly when the context is empty:
      every other node has a parent, and the root has none. */
  lemma AtRoot(ctx: seq<Frame>, t: Tree, a: Arena, root: int)
    requires Realises(Plug(ctx, t), root, a) && t.Node?
    ensures Has(a, t.id) && a.parent[t.id] == Up(ctx)
    ensures t.id == root <==> ctx == []
  {
    SplitSub(ctx, t, a, root);
    UpFacts(ctx, t, a, root);
    PlugNode(ctx, t);
  }

  /** What one step of `splay` reads about the node at the hole, its parent
      and its grandparent: who they are, and on which side each hangs. */
  lemma StepFacts(ctx: seq<Frame>, t: Tree, a: Arena, root: int)
    requires Realises(Plug(ctx, t), root, a) && t.Node?
    ensures Has(a, t.id) && a.parent[t.id] == Up(ctx) && (t.id == root <==> ctx == [])
    ensures ctx != [] ==> Has(a, Up(ctx)) && (a.left[Up(ctx)] == t.id <==> ctx[0].LeftOf?)
    ensures ctx != [] ==> (a.right[Up(ctx)] == t.id <==> ctx[0].RightOf?)
    ensures ctx != [] ==> a.parent[Up(ctx)] == Up(ctx[1..]) && (Up(ctx) == root <==> ctx[1..] == [])
    ensures |ctx| >= 2 ==> Has(a, ctx[1].id) && (a.left[ctx[1].id] == ctx[0].id <==> ctx[1].LeftOf?)
    ensures |ctx| >= 2 ==> (a.right[ctx[1].id] == ctx[0].id <==> ctx[1].RightOf?)
  {
    AtRoot(ctx, t, a, root);
    UpFacts(ctx, t, a, root);
    if ctx != [] {
      var f := Fill(ctx[0], t);
      assert Plug(ctx[1..], f) == Plug(ctx, t);
      AtRoot(ctx[1..], f, a, root);
      UpFacts(ctx[1..], f, a, root);
    }
  }

  /** Dropping frames from the inside keeps only frames that were there. */
  lemma FrameIdsDrop(ctx: seq<Frame>, k: nat)
    requires k <= |ctx|
    ensures FrameIds(ctx[k..]) <= FrameIds(ctx)
  {
    forall f | f in ctx[k..]
      ensures f in ctx
    {
    }
  }

  /** Plugging through the innermost frame first. */
  lemma PlugStep(ctx: seq<Frame>, t: Tree)
    requires ctx != []
    ensures Plug(ctx, t) == Plug(ctx[1..], Fill(ctx[0], t))
    ensures ctx[0].id in FrameIds(ctx) && UpIds(ctx[1..]) <= FrameIds(ctx)
  {
    assert ctx[0] in ctx;
    if |ctx| > 1 {
      assert ctx[1] in ctx;
    }
  }

  /** Plugging through the one or two innermost frames first. */
  lemma PlugSteps(ctx: seq<Frame>, t: Tree)
    requires |ctx| >= 2
    ensures Plug(ctx, t) == Plug(ctx[1..], Fill(ctx[0], t))
    ensures Plug(ctx[1..], Fill(ctx[0], t)) == Plug(ctx[2..], Fill(ctx[1], Fill(ctx[0], t)))
    ensures UpIds(ctx[2..]) <= FrameIds(ctx) && UpIds(ctx[1..]) <= FrameIds(ctx)
    ensures ctx[0].id in FrameIds(ctx) && ctx[1].id in FrameIds(ctx)
  {
    assert ctx[1..][1..] == ctx[2..];
    assert ctx[0] in ctx && ctx[1] in ctx;
    if |ctx| > 2 {
      assert ctx[2] in ctx;
    }
  }

  /** The child links of the node at the hole name the tops of its
      subtrees. */
  lemma ChildLinks(ctx: seq<Frame>, t: Tree, a: Arena, root: int)
    requires Realises(Plug(ctx, t), root, a) && t.Node?
    ensures Has(a, t.id) && a.left[t.id] == Top(t.left) && a.right[t.id] == Top(t.right)
    ensures (a.left[t.id] == Null <==> t.left.Nil?) && (a.right[t.id] == Null <==> t.right.Nil?)
  {
    SplitSub(ctx, t, a, root);
    RepAt(t.left, a.left[t.id], t.id, a);
    RepAt(t.right, a.right[t.id], t.id, a);
  }
}
