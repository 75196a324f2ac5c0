/** The splay tree itself: a root reference over the node fields, with the
    two rotations, the splay loop and the search-tree operations built on
    them. */
module Splay {
  import opened Shapes
  import opened Contexts
  import opened Rotations
  import opened Ordering
  import opened Descent
  import opened Insertion
  import opened Removal

  /** What `find` as written does: it returns a node, or it reads a field
      of the null pointer. */
  datatype Outcome = Found(node: int) | NullDeref

  class SplayTree {
    /** The fields of every node ever created, indexed by node reference. */
    var key: seq<int>
    var left: seq<int>
    var right: seq<int>
    var parent: seq<int>
    /** The root node, `Null` when the tree is empty. */
    var root: int
    /** The shape the links currently describe. */
    ghost var Shape: Tree

    ghost function Nodes(): (a: Arena)
      reads this`key, this`left, this`right, this`parent
    {
      Arena(key, left, right, parent)
    }

    /** The tree invariant: the links realise `Shape` (every child points
        back at its parent, the root has no parent), no node occurs twice,
        and the in-order keys are non-decreasing. */
    ghost predicate Valid()
      reads this
    {
      Realises(Shape, root, Nodes())
    }

    /** The in-order key sequence. */
    ghost function Contents(): (ks: seq<int>)
      reads this
    {
      KeysOf(IdSeq(Shape), Nodes())
    }

    constructor ()
      ensures Valid() && root == Null && Contents() == []
    {
      key, left, right, parent := [], [], [], [];
      root := Null;
      Shape := Nil;
    }

    /** The link updates of `rotateLeft` once x is known to have a right
        child y. */
    method LinkLeft(x: int, y: int, ghost t: Tree)
      requires |left| == |key| && |right| == |key| && |parent| == |key|
      requires CanRotLeft(Nodes(), x) && y == right[x]
      requires x != y && left[y] != x && parent[x] != x
      requires Realises(t, if parent[x] == Null then y else root, RotLeftLinks(Nodes(), x))
      modifies this`left, this`right, this`parent, this`root, this`Shape
      ensures Nodes() == RotLeftLinks(old(Nodes()), x) && Shape == t
      ensures root == if old(parent[x]) == Null then y else old(root)
      ensures Valid()
    {
      ghost var a := Nodes();
      var b := left[y];
      right := right[x := b];
      if b != Null {
        parent := parent[b := x];
      }
      var g := parent[x];
      parent := parent[y := g];
      if g == Null {
        root := y;
      } else if x == left[g] {
        left := left[g := y];
      } else {
        right := right[g := y];
      }
      left := left[y := x];
      parent := parent[x := y];
      assert Nodes() == RotLeftLinks(a, x);
      Shape := t;
    }

    /** Promote the right child y of x into x's place; x becomes y's left
        child and adopts y's former left subtree. Nothing happens when x has
        no right child. */
    method RotateLeft(x: int, ghost ctx: seq<Frame>, ghost t: Tree) returns (y: int)
      requires Valid() && Shape == Plug(ctx, t) && t.Node? && t.id == x
      modifies this
      ensures Valid()
      ensures y == Top(t.right)
      ensures y == Null ==> Nodes() == old(Nodes()) && root == old(root) && Shape == old(Shape)
      ensures y != Null ==> CanRotLeft(old(Nodes()), x) && Nodes() == RotLeftLinks(old(Nodes()), x)
      ensures y != Null ==> root == (if ctx == [] then y else old(root)) && Shape == Plug(ctx, RotL(t))
      ensures Untouched(old(Nodes()), Nodes(), {x, y} + UpIds(ctx))
      ensures IdSeq(Shape) == old(IdSeq(Shape)) && Contents() == old(Contents())
    {
      ChildLinks(ctx, t, Nodes(), root);
      y := right[x];
      if y == Null {
        return;
      }
      ghost var a, r0 := Nodes(), root;
      RotLeftRep(ctx, t, a, r0);
      LinkLeft(x, y, Plug(ctx, RotL(t)));
    }

    /** The link updates of `rotateRight` once y is known to have a left
        child x. */
    method LinkRight(y: int, x: int, ghost t: Tree)
      requires |left| == |key| && |right| == |key| && |parent| == |key|
      requires CanRotRight(Nodes(), y) && x == left[y]
      requires x != y && right[x] != y && parent[y] != y
      requires Realises(t, if parent[y] == Null then x else root, RotRightLinks(Nodes(), y))
      modifies this`left, this`right, this`parent, this`root, this`Shape
      ensures Nodes() == RotRightLinks(old(Nodes()), y) && Shape == t
      ensures root == if old(parent[y]) == Null then x else old(root)
      ensures Valid()
    {
      ghost var a := Nodes();
      var b := right[x];
      left := left[y := b];
      if b != Null {
        parent := parent[b := y];
      }
      var g := parent[y];
      parent := parent[x := g];
      if g == Null {
        root := x;
      } else if y == left[g] {
        left := left[g := x];
      } else {
        right := right[g := x];
      }
      right := right[x := y];
      parent := parent[y := x];
      assert Nodes() == RotRightLinks(a, y);
      Shape := t;
    }

    /** Promote the left child x of y into y's place; y becomes x's right
        child and adopts x's former right subtree. Nothing happens when y
        has no left child. */
    method RotateRight(y: int, ghost ctx: seq<Frame>, ghost t: Tree) returns (x: int)
      requires Valid() && Shape == Plug(ctx, t) && t.Node? && t.id == y
      modifies this
      ensures Valid()
      ensures x == Top(t.left)
      ensures x == Null ==> Nodes() == old(Nodes()) && root == old(root) && Shape == old(Shape)
      ensures x != Null ==> CanRotRight(old(Nodes()), y) && Nodes() == RotRightLinks(old(Nodes()), y)
      ensures x != Null ==> root == (if ctx == [] then x else old(root)) && Shape == Plug(ctx, RotR(t))
      ensures Untouched(old(Nodes()), Nodes(), {x, y} + UpIds(ctx))
      ensures IdSeq(Shape) == old(IdSeq(Shape)) && Contents() == old(Contents())
    {
      ChildLinks(ctx, t, Nodes(), root);
      x := left[y];
      if x == Null {
        return;
      }
      ghost var a, r0 := Nodes(), root;
      RotRightRep(ctx, t, a, r0);
      LinkRight(y, x, Plug(ctx, RotR(t)));
    }

    /** The zig step of `splay`: n's parent is the root, and one
        rotation at the root lifts n into its place. */
    method Zig(node: int, ghost c: seq<Frame>, ghost s: Tree) returns (up: int, ghost s2: Tree)
      requires Valid() && Shape == Plug(c, s) && s.Node? && s.id == node && |c| == 1
      modifies this
      ensures Valid() && Shape == s2 && s2.Node? && s2.id == node && up == node && root == node
      ensures IdSeq(Shape) == old(IdSeq(Shape)) && Contents() == old(Contents())
      ensures Untouched(old(Nodes()), Nodes(), FrameIds(c) + {node})
    {
      StepFacts(c, s, Nodes(), root);
      PlugStep(c, s);
      ghost var f := Fill(c[0], s);
      ghost var path, r0 := FrameIds(c) + {node}, root;
      if node == left[root] {
        up := RotateRight(root, [], f);
        s2 := RotR(f);
        UntouchedMono(old(Nodes()), Nodes(), path, {up, r0} + UpIds([]));
      } else {
        up := RotateLeft(root, [], f);
        s2 := RotL(f);
        UntouchedMono(old(Nodes()), Nodes(), path, {r0, up} + UpIds([]));
      }
    }

    /** The zig-zig step of `splay`: n and its parent p hang on the same
        side; rotating at the grandparent g and then at p lifts n two
        levels. */
    method ZigZig(node: int, p: int, g: int, ghost c: seq<Frame>, ghost s: Tree) returns (up: int, ghost s2: Tree)
      requires Valid() && Shape == Plug(c, s) && s.Node? && s.id == node && |c| >= 2
      requires p == c[0].id && g == c[1].id
      requires (c[0].LeftOf? && c[1].LeftOf?) || (c[0].RightOf? && c[1].RightOf?)
      modifies this
      ensures Valid() && Shape == Plug(c[2..], s2) && s2.Node? && s2.id == node && up == node
      ensures IdSeq(Shape) == old(IdSeq(Shape)) && Contents() == old(Contents())
      ensures Untouched(old(Nodes()), Nodes(), FrameIds(c) + {node})
    {
      StepFacts(c, s, Nodes(), root);
      PlugSteps(c, s);
      ghost var a0 := Nodes();
      ghost var f2 := Fill(c[1], Fill(c[0], s));
      ghost var path := FrameIds(c) + {node};
      var q;
      if node == left[p] && p == left[g] {
        q := RotateRight(g, c[2..], f2);
        ghost var a1 := Nodes();
        UntouchedMono(a0, a1, path, {q, g} + UpIds(c[2..]));
        up := RotateRight(q, c[2..], RotR(f2));
        s2 := RotR(RotR(f2));
        UntouchedTrans(a0, a1, Nodes(), path, {up, q} + UpIds(c[2..]));
      } else {
        q := RotateLeft(g, c[2..], f2);
        ghost var a1 := Nodes();
        UntouchedMono(a0, a1, path, {g, q} + UpIds(c[2..]));
        up := RotateLeft(q, c[2..], RotL(f2));
        s2 := RotL(RotL(f2));
        UntouchedTrans(a0, a1, Nodes(), path, {q, up} + UpIds(c[2..]));
      }
    }

    /** The zig-zag step of `splay`: n and its parent p hang on opposite
        sides; rotating at p and then at the grandparent g lifts n two
        levels. */
    method ZigZag(node: int, p: int, g: int, ghost c: seq<Frame>, ghost s: Tree) returns (up: int, ghost s2: Tree)
      requires Valid() && Shape == Plug(c, s) && s.Node? && s.id == node && |c| >= 2
      requires p == c[0].id && g == c[1].id
      requires (c[0].RightOf? && c[1].LeftOf?) || (c[0].LeftOf? && c[1].RightOf?)
      modifies this
      ensures Valid() && Shape == Plug(c[2..], s2) && s2.Node? && s2.id == node && up == node
      ensures IdSeq(Shape) == old(IdSeq(Shape)) && Contents() == old(Contents())
      ensures Untouched(old(Nodes()), Nodes(), FrameIds(c) + {node})
    {
      StepFacts(c, s, Nodes(), root);
      PlugSteps(c, s);
      ghost var a0 := Nodes();
      ghost var f1 := Fill(c[0], s);
      ghost var path := FrameIds(c) + {node};
      if node == right[p] && p == left[g] {
        up := RotateLeft(p, c[1..], f1);
        ghost var a1 := Nodes();
        UntouchedMono(a0, a1, path, {p, up} + UpIds(c[1..]));
        up := RotateRight(g, c[2..], Fill(c[1], RotL(f1)));
        s2 := RotR(Fill(c[1], RotL(f1)));
        UntouchedTrans(a0, a1, Nodes(), path, {up, g} + UpIds(c[2..]));
      } else {
        up := RotateRight(p, c[1..], f1);
        ghost var a1 := Nodes();
        UntouchedMono(a0, a1, path, {up, p} + UpIds(c[1..]));
        up := RotateLeft(g, c[2..], Fill(c[1], RotR(f1)));
        s2 := RotL(Fill(c[1], RotR(f1)));
        UntouchedTrans(a0, a1, Nodes(), path, {g, up} + UpIds(c[2..]));
      }
    }

    /** One step of the `splay` loop: a zig when n's parent is the root,
        otherwise a zig-zig or a zig-zag as n and its parent hang on the
        same or on opposite sides. */
    method SplayStep(node: int, ghost c: seq<Frame>, ghost s: Tree) returns (up: int, ghost c2: seq<Frame>, ghost s2: Tree)
      requires Valid() && Shape == Plug(c, s) && s.Node? && s.id == node && c != []
      modifies this
      ensures Valid() && Shape == Plug(c2, s2) && s2.Node? && s2.id == node && up == node
      ensures c2 == if |c| == 1 then [] else c[2..]
      ensures FrameIds(c2) <= FrameIds(c) && (node == root <==> c2 == [])
      ensures IdSeq(Shape) == old(IdSeq(Shape)) && Contents() == old(Contents())
      ensures Untouched(old(Nodes()), Nodes(), FrameIds(c) + {node})
    {
      StepFacts(c, s, Nodes(), root);
      if parent[node] == root {
        up, s2 := Zig(node, c, s);
        FrameIdsDrop(c, |c|);
        c2 := [];
      } else {
        var p := parent[node];
        var g := parent[p];
        if (node == left[p] && p == left[g]) || (node == right[p] && p == right[g]) {
          up, s2 := ZigZig(node, p, g, c, s);
        } else {
          up, s2 := ZigZag(node, p, g, c, s);
        }
        FrameIdsDrop(c, 2);
        c2 := c[2..];
      }
      AtRoot(c2, s2, Nodes(), root);
    }

    /** Move node n to the root by zig, zig-zig and zig-zag steps. The
        in-order sequence of nodes is unchanged, and only nodes on the path
        from the root down to n have their child links rewired. */
    method Splay(n: int, ghost ctx: seq<Frame>, ghost t: Tree)
      requires Valid() && Shape == Plug(ctx, t) && t.Node? && t.id == n
      modifies this
      ensures Valid() && root == n && Shape.Node? && Shape.id == n
      ensures IdSeq(Shape) == old(IdSeq(Shape)) && Contents() == old(Contents())
      ensures Untouched(old(Nodes()), Nodes(), FrameIds(ctx) + {n})
    {
      var node := n;
      ghost var c, s := ctx, t;
      AtRoot(c, s, Nodes(), root);
      while node != root
        invariant Valid() && Shape == Plug(c, s) && s.Node? && s.id == node && node == n
        invariant IdSeq(Shape) == old(IdSeq(Shape)) && Contents() == old(Contents())
        invariant FrameIds(c) <= FrameIds(ctx)
        invariant Untouched(old(Nodes()), Nodes(), FrameIds(ctx) + {n})
        invariant node == root <==> c == []
        decreases |c|
      {
        ghost var before := Nodes();
        ghost var c0 := c;
        node, c, s := SplayStep(node, c, s);
        UntouchedTrans(old(Nodes()), before, Nodes(), FrameIds(ctx) + {n}, FrameIds(c0) + {n});
      }
    }

    /** The search loop of `find`: from the root, go left when k is below
        the node's key and right when it is above, until a node holding k
        or a null link is reached. Returns that node (or `Null`) and the
        last node visited before it (or `Null`); the tree is not changed. */
    method Descend(k: int) returns (node: int, last: int, ghost c: seq<Frame>, ghost s: Tree)
      requires Valid()
      ensures Shape == Plug(c, s) && node == Top(s) && last == Up(c)
      ensures (node == Null <==> s.Nil?) && Brackets(c, Nodes(), k, false)
      ensures node != Null ==> 0 <= node < |key| && key[node] == k
      ensures node != Null <==> k in Contents()
    {
      RepAt(Shape, root, Null, Nodes());
      node, last := root, Null;
      c, s := [], Shape;
      while node != Null && key[node] != k
        invariant Shape == Plug(c, s) && node == Top(s) && last == Up(c)
        invariant (node == Null <==> s.Nil?) && (node != Null ==> 0 <= node < |key|)
        invariant Brackets(c, Nodes(), k, false)
        decreases s
      {
        ChildLinks(c, s, Nodes(), root);
        last := node;
        if k < key[node] {
          GoLeft(c, s, Nodes(), root, k, false);
          c, s := [LeftOf(s.id, s.right)] + c, s.left;
          node := left[node];
        } else {
          GoRight(c, s, Nodes(), root, k, false);
          c, s := [RightOf(s.left, s.id)] + c, s.right;
          node := right[node];
        }
        if node != Null {
          AtRoot(c, s, Nodes(), root);
        }
      }
      if node == Null {
        MissAbsent(c, Nodes(), k);
      } else {
        HitPresent(c, s, Nodes());
      }
    }

    /** Look k up and splay the node that holds it to the root. On a miss
        the last node visited is splayed instead, and the result is `Null`. */
    method Find(k: int) returns (r: int)
      requires Valid()
      modifies this
      ensures Valid() && Contents() == old(Contents())
      ensures r != Null <==> k in old(Contents())
      ensures r != Null ==> root == r && Shape.Node? && Shape.id == r && 0 <= r < |key| && key[r] == k
      ensures r == Null && old(root) != Null ==> 0 <= root < |key| && Neighbour(Contents(), k, key[root])
    {
      var last;
      ghost var c, s;
      r, last, c, s := Descend(k);
      if r == Null {
        if c != [] {
          MissNeighbour(c, Nodes(), root, k);
        }
        if last != Null {
          PlugStep(c, s);
          Splay(last, c[1..], Fill(c[0], s));
        }
      } else {
        Splay(r, c, s);
      }
    }

    /** `find` exactly as written: a miss calls `splay(node->getParent())`
        with `node` null. */
    method FindAsWritten(k: int) returns (r: Outcome)
      requires Valid()
      modifies this
      ensures r.NullDeref? <==> k !in old(Contents())
      ensures r.Found? ==> Valid() && Contents() == old(Contents()) && root == r.node
      ensures r.Found? ==> 0 <= r.node < |key| && key[r.node] == k
    {
      var node, last;
      ghost var c, s;
      node, last, c, s := Descend(k);
      if node == Null {
        r := NullDeref;
      } else {
        Splay(node, c, s);
        r := Found(node);
      }
    }

    /** `new SplayNode(k)`: a fresh node holding k, with null links. */
    method NewNode(k: int) returns (z: int)
      modifies this`key, this`left, this`right, this`parent
      ensures z == old(|key|) && Nodes() == Grow(old(Nodes()), k)
    {
      z := |key|;
      key, left, right, parent := key + [k], left + [Null], right + [Null], parent + [Null];
    }

    /** The link updates at the end of `insert`'s descent: z gets parent y
        and becomes y's left or right child as its key selects, or the root
        when there is no y. */
    method Hang(z: int, y: int)
      requires Has(Nodes(), z) && (y != Null ==> Has(Nodes(), y))
      modifies this`left, this`right, this`parent, this`root
      ensures Nodes() == Attach(old(Nodes()), z, y)
      ensures root == if y == Null then z else old(root)
    {
      parent := parent[z := y];
      if y == Null {
        root := z;
      } else if key[z] < key[y] {
        left := left[y := z];
      } else {
        right := right[y := z];
      }
    }

    /** Add a node holding k: descend from the root as `find` does, but
        past equal keys to the right, hang the new node at the null link
        reached, and splay it to the root. */
    method Insert(k: int)
      requires Valid()
      modifies this
      ensures Valid() && Contents() == InsertSorted(old(Contents()), k)
      ensures root == old(|key|) && key == old(key) + [k] && parent[root] == Null
    {
      ghost var a0, t0 := Nodes(), Shape;
      var node := NewNode(k);
      GrowKeeps(t0, root, a0, k);
      RepAt(Shape, root, Null, Nodes());
      var x, y := root, Null;
      ghost var c, s := [], Shape;
      while x != Null
        modifies {}
        invariant Shape == Plug(c, s) && x == Top(s) && y == Up(c)
        invariant (x == Null <==> s.Nil?) && (x != Null ==> 0 <= x < |key|)
        invariant c != [] ==> Has(Nodes(), c[0].id) && (c[0].LeftOf? <==> k < key[c[0].id])
        invariant Brackets(c, Nodes(), k, true)
        decreases s
      {
        ChildLinks(c, s, Nodes(), root);
        y := x;
        if k < key[x] {
          GoLeft(c, s, Nodes(), root, k, true);
          c, s := [LeftOf(s.id, s.right)] + c, s.left;
          x := left[x];
        } else {
          GoRight(c, s, Nodes(), root, k, true);
          c, s := [RightOf(s.left, s.id)] + c, s.right;
          x := right[x];
        }
        if x != Null {
          AtRoot(c, s, Nodes(), root);
        }
      }
      ghost var a1, leaf := Nodes(), Node(Nil, node, Nil);
      AttachRep(c, a1, root, node);
      Shape := Plug(c, leaf);
      Hang(node, y);
      Splay(node, c, leaf);
    }

    /** Remove one node holding k, if there is one: `find` splays it to
        the root, and `Unlink` takes it out. */
    method Remove(k: int)
      requires Valid()
      modifies this
      ensures Valid()
      ensures k in old(Contents()) ==> multiset(Contents()) == multiset(old(Contents())) - multiset{k}
      ensures Contents() == RemoveKey(old(Contents()), k)
    {
      var node := Find(k);
      if node == Null {
        return;
      }
      if key[node] != k {
        return;
      }
      Splay(node, [], Shape);
      Unlink(node);
      SortedRemoval(old(Contents()), Contents(), k);
    }

    /** The steps of `remove` after the node is at the root: with no left
        subtree its right subtree becomes the tree; otherwise the greatest
        node of its left subtree is splayed to the root and adopts the
        removed node's right subtree. */
    method Unlink(node: int)
      requires Valid() && Shape.Node? && Shape.id == node && root == node
      modifies this
      ensures Valid()
      ensures multiset(Contents()) == multiset(old(Contents())) - multiset{old(key[node])}
    {
      ChildLinks([], Shape, Nodes(), root);
      if left[node] == Null {
        PromoteOnly(node);
      } else {
        JoinHalves(node);
      }
    }

    /** `remove` when the root has no left child: its right subtree, with
        the parent link of that subtree's root cleared, is the new tree. */
    method PromoteOnly(node: int)
      requires Valid() && Shape.Node? && Shape.id == node && root == node && Shape.left.Nil?
      modifies this`parent, this`root, this`Shape
      ensures Valid()
      ensures multiset(Contents()) == multiset(old(Contents())) - multiset{old(key[node])}
    {
      ghost var r, a1 := Shape.right, Nodes();
      ChildLinks([], Shape, a1, root);
      DetachRep(node, r, a1);
      PromoteRight(right[node], r);
    }

    /** The walk of `remove` from the root's left child along right links
        to the greatest node of the left subtree; the tree is not changed. */
    method RightmostOfLeft(node: int) returns (r1: int, ghost cin: seq<Frame>, ghost s: Tree)
      requires Valid() && Shape.Node? && Shape.id == node && root == node && Shape.left.Node?
      ensures Shape.left == Plug(cin, s) && After(cin) == []
      ensures Shape == Plug(cin + [LeftOf(node, Shape.right)], s)
      ensures s.Node? && s.id == r1 && s.right.Nil?
      ensures 0 <= r1 < |right| && right[r1] == Null
    {
      ghost var f := LeftOf(node, Shape.right);
      ChildLinks([], Shape, Nodes(), root);
      r1 := left[node];
      cin, s := [], Shape.left;
      ChildLinks([f], s, Nodes(), root);
      while right[r1] != Null
        invariant Shape.left == Plug(cin, s) && After(cin) == [] && Shape == Plug(cin + [f], s)
        invariant s.Node? && s.id == r1 && 0 <= r1 < |right|
        invariant right[r1] == Top(s.right) && (right[r1] == Null <==> s.right.Nil?)
        decreases s
      {
        PlugDown(cin, s);
        PlugDown(cin + [f], s);
        assert ([RightOf(s.left, s.id)] + cin) + [f] == [RightOf(s.left, s.id)] + (cin + [f]);
        cin, s := [RightOf(s.left, s.id)] + cin, s.right;
        r1 := right[r1];
        ChildLinks(cin + [f], s, Nodes(), root);
      }
    }

    /** `remove` when the root has a left child: splay the greatest node r1
        of the left subtree, which then has no right child, hang the
        root's right subtree there, and make r1 the root. */
    method JoinHalves(node: int)
      requires Valid() && Shape.Node? && Shape.id == node && root == node && Shape.left.Node?
      modifies this
      ensures Valid()
      ensures multiset(Contents()) == multiset(old(Contents())) - multiset{old(key[node])}
      ensures old(IdSeq(Shape.left)) != [] && root == old(IdSeq(Shape.left))[|old(IdSeq(Shape.left))| - 1]
      ensures right[root] == old(right[node]) && parent[root] == Null
    {
      ghost var l, r, a1 := Shape.left, Shape.right, Nodes();
      ChildLinks([], Shape, a1, root);
      var r2 := right[node];
      var r1, cin, s := RightmostOfLeft(node);
      SpineAvoidsRight(l, node, r, cin, s);
      RightmostLast(cin, s);
      ghost var path := FrameIds(cin + [LeftOf(node, r)]) + {r1};
      Splay(r1, cin + [LeftOf(node, r)], s);
      ghost var a2, t2 := Nodes(), Shape;
      assert IdSeq(t2) == IdSeq(l) + ([node] + IdSeq(r));
      SplitLast(IdSeq(t2.left), r1, IdSeq(t2.right), IdSeq(l), [node] + IdSeq(r));
      JoinRep(l, node, r, t2, a1, a2, path);
      Adopt(r1, r2, Node(t2.left, r1, r));
      assert IdSeq(l) == IdSeq(t2.left) + [r1];
    }

    /** `root = r2`, with r2's parent link cleared; t is the shape the
        links then realise. */
    method PromoteRight(r2: int, ghost t: Tree)
      requires r2 != Null ==> Has(Nodes(), r2)
      requires Realises(t, r2, Detach(Nodes(), r2))
      modifies this`parent, this`root, this`Shape
      ensures Nodes() == Detach(old(Nodes()), r2) && root == r2 && Shape == t
      ensures Valid() && Contents() == KeysOf(IdSeq(t), Detach(old(Nodes()), r2))
    {
      root := r2;
      if r2 != Null {
        parent := parent[r2 := Null];
      }
      Shape := t;
    }

    /** `r1->setRight(r2)`, r2's parent link set to r1, and `root = r1`; t
        is the shape the links then realise. */
    method Adopt(r1: int, r2: int, ghost t: Tree)
      requires Has(Nodes(), r1) && (r2 != Null ==> Has(Nodes(), r2))
      requires Realises(t, r1, Join(Nodes(), r1, r2))
      modifies this`right, this`parent, this`root, this`Shape
      ensures Nodes() == Join(old(Nodes()), r1, r2) && root == r1 && Shape == t
      ensures Valid() && Contents() == KeysOf(IdSeq(t), Join(old(Nodes()), r1, r2))
    {
      right := right[r1 := r2];
      if r2 != Null {
        parent := parent[r2 := r1];
      }
      root := r1;
      Shape := t;
    }

    /** The node with the least key: the end of the left spine, or `Null`
        for an empty tree. The tree is not changed. */
    method Min() returns (r: int)
      requires Valid()
      ensures r == Null <==> Contents() == []
      ensures r != Null ==> 0 <= r < |key| && IdSeq(Shape)[0] == r && key[r] == Contents()[0]
      ensures r != Null ==> forall x :: x in Contents() ==> key[r] <= x
    {
      RepAt(Shape, root, Null, Nodes());
      r := root;
      if r == Null {
        return;
      }
      ghost var c, s := [], Shape;
      ChildLinks(c, s, Nodes(), root);
      while left[r] != Null
        invariant Shape == Plug(c, s) && s.Node? && s.id == r && Before(c) == []
        invariant 0 <= r < |left| && r < |key| && left[r] == Top(s.left) && (left[r] == Null <==> s.left.Nil?)
        decreases s
      {
        PlugDown(c, s);
        c, s := [LeftOf(s.id, s.right)] + c, s.left;
        r := left[r];
        ChildLinks(c, s, Nodes(), root);
      }
      LeftmostFirst(c, s);
      SortedEnds(Contents());
    }

    /** The node with the greatest key: the end of the right spine, or
        `Null` for an empty tree. The tree is not changed. */
    method Max() returns (r: int)
      requires Valid()
      ensures r == Null <==> Contents() == []
      ensures r != Null ==> 0 <= r < |key| && IdSeq(Shape)[|IdSeq(Shape)| - 1] == r
      ensures r != Null ==> key[r] == Contents()[|Contents()| - 1]
      ensures r != Null ==> forall x :: x in Contents() ==> x <= key[r]
    {
      RepAt(Shape, root, Null, Nodes());
      r := root;
      if r == Null {
        return;
      }
      ghost var c, s := [], Shape;
      ChildLinks(c, s, Nodes(), root);
      while right[r] != Null
        invariant Shape == Plug(c, s) && s.Node? && s.id == r && After(c) == []
        invariant 0 <= r < |right| && r < |key| && right[r] == Top(s.right) && (right[r] == Null <==> s.right.Nil?)
        decreases s
      {
        PlugDown(c, s);
        c, s := [RightOf(s.left, s.id)] + c, s.right;
        r := right[r];
        ChildLinks(c, s, Nodes(), root);
      }
      RightmostLast(c, s);
      SortedEnds(Contents());
    }
  }
}
