# Splay tree over integer keys

A model of `SplayTree` in `splay.cpp`: a binary search tree of `int` keys
whose nodes carry `key`, `left`, `right` and `parent` links, with the two
rotations, the bottom-up `splay` loop (zig, zig-zig, zig-zag), and `find`,
`insert`, `remove`, `min` and `max` built on them.

The nodes live in an arena. Node references are indices into four parallel
sequences `key`, `left`, `right` and `parent`, and `Null` (-1) stands for
`nullptr`. The class `Splay.SplayTree` holds these fields and `root`, and its
methods update them in place as the C++ methods update the node objects.

A ghost field `Shape` holds the tree the links describe (`Shapes.Tree`). The
invariant `Valid()` (`Contexts.Realises`) says four things:
- every child link and parent link agrees with `Shape`;
- the root has no parent;
- no node occurs twice;
- the in-order key sequence `Contents()` is non-decreasing.

Equal keys go right on insertion, and rotations can move them left, so
non-decreasing order is the invariant, not a strict left < key <= right rule.

A descent is tracked by a context: the frames from the current node up to the
root, innermost first (`Shapes.Plug`). A splay step removes one frame (zig) or
two (zig-zig, zig-zag); that is the loop's termination measure. The changes to
the fields are pure functions of the arena:
- `Rotations.RotLeftLinks` and `Rotations.RotRightLinks` for the rotations;
- `Insertion.Grow` and `Insertion.Attach` for insertion;
- `Removal.Detach` and `Removal.Join` for removal.

Lemmas about these functions carry the proofs, and the methods' contracts tie
each method to them.

Modules:
- `Shapes`: arena, shapes, contexts, in-order sequences.
- `Contexts`: the representation invariant, split at a context.
- `Rotations`: the two rotations.
- `Ordering`: sorted sequences, plus `InsertSorted` and `RemoveKey`.
- `Descent`: search paths.
- `Insertion`: the attachment step of `insert`.
- `Removal`: the detach and join steps of `remove`.
- `Splay`: the class.

## Model

| member | source | states |
|---|---|---|
| Splay.SplayTree.constructor | splay.cpp:56-57 | The new tree is valid, has a null root and holds no keys. |
| Splay.SplayTree.NewNode | splay.cpp:5-6 | `new SplayNode(k)` yields a fresh reference, one past every existing node, holding k with null left, right and parent links; no other node changes. |
| Insertion.Grow | splay.cpp:5-6 | The arena after `new SplayNode(k)`: each field sequence gains one entry at the end, holding k with null left, right and parent links, and every existing node is unchanged. |
| Insertion.GrowKeeps | splay.cpp:216 | Allocating a node leaves the tree as it was: the fresh node is not in it, the tree is still realised, and its keys are unchanged. |
| Rotations.RotLeftLinks | splay.cpp:75-86 | After the link updates of `rotateLeft(x)`, x is the left child of its former right child y and y is x's parent; keys and the number of nodes do not change. |
| Splay.SplayTree.LinkLeft | splay.cpp:75-86 | The field updates of `rotateLeft` produce exactly `RotLeftLinks`. `root` becomes y exactly when x had no parent. The shape given is valid afterwards. |
| Rotations.RotLeftRep | splay.cpp:68-88 | On a valid tree whose node x has a right child, the rotated links realise the rotated shape at the same place. The in-order nodes and keys are unchanged, and no key or node count changes. Only x, its right child and x's parent have their child links changed. Any other node's parent link changes only when its old parent is one of those three, as for the inner subtree re-parented at splay.cpp:77. |
| Splay.SplayTree.RotateLeft | splay.cpp:68-88 | With no right child it returns null and changes nothing. Otherwise it returns the promoted right child, which now stands where x stood, and `root` changes iff x was the root. The tree stays valid with the same in-order nodes and keys. Only x, the promoted child and x's parent have their child links changed, and any other node's parent link changes only when its old parent is one of them. |
| Rotations.RotRightLinks | splay.cpp:107-118 | After the link updates of `rotateRight(y)`, y is the right child of its former left child x and x is y's parent; keys and the number of nodes do not change. |
| Splay.SplayTree.LinkRight | splay.cpp:107-118 | The field updates of `rotateRight` produce exactly `RotRightLinks`. `root` becomes x exactly when y had no parent. The shape given is valid afterwards. |
| Rotations.RotRightRep | splay.cpp:100-120 | The mirror image of `RotLeftRep`, for a node with a left child: only y, its left child and y's parent have their child links changed, and any other node's parent link changes only when its old parent is one of them (the inner subtree at splay.cpp:109). |
| Splay.SplayTree.RotateRight | splay.cpp:100-120 | With no left child it returns null and changes nothing. Otherwise it returns the promoted left child in y's place, with `root` updated iff y was the root. The tree stays valid with the same in-order nodes and keys. |
| Splay.SplayTree.Zig | splay.cpp:128-144 | When the node's parent is the root, one rotation at the root makes the node the root; the tree stays valid with the same in-order sequence. |
| Splay.SplayTree.ZigZig | splay.cpp:150-168 | When the node and its parent hang on the same side, the two rotations at the grandparent and then at the parent lift the node two levels; validity and the in-order sequence are kept. |
| Splay.SplayTree.ZigZag | splay.cpp:169-187 | When they hang on opposite sides, the rotations at the parent and then at the grandparent lift the node two levels; validity and the in-order sequence are kept. |
| Splay.SplayTree.SplayStep | splay.cpp:128-188 | One loop iteration takes the node up exactly one level (zig) or two (zig-zig, zig-zag). The node is the root afterwards iff no levels remain. Validity and the in-order sequence are kept, and no key or node count changes. Only the node and the nodes above it on the path have their child links changed. Any other node's parent link changes only when its old parent is on that path. |
| Splay.SplayTree.Splay | splay.cpp:124-190 | For any node of a valid tree the loop ends with that node at the root. The tree stays valid with the same in-order nodes and keys, and no key or node count changes. Only nodes on the path from the root down to the node have their child links changed. Any other node's parent link changes only when its old parent is on that path. |
| Descent.GoLeft | splay.cpp:199-200 | Stepping left at a node whose key is above k keeps every key before the position below k and every key after it above k. |
| Descent.GoRight | splay.cpp:201-202 | Stepping right at a node whose key is below k (or equal, for insertion) keeps that bracket. |
| Descent.MissAbsent | splay.cpp:196-203 | A descent that reaches a null link with k strictly bracketed shows that k is not in the tree. |
| Descent.MissNeighbour | splay.cpp:196-207 | When such a descent stops below node g, g holds the key next to k: the least key above k when the null link is g's left one, the greatest key below k when it is g's right one. |
| Splay.SplayTree.Descend | splay.cpp:194-203 | The search loop changes nothing. It returns a node holding k, or null, and the last node visited. It returns a node iff k is in the tree. Every key before the position where it stops is below k and every key after it is above k, and it returns null exactly when that position is an empty link. |
| Splay.SplayTree.Find | splay.cpp:192-212 | Keeps the tree valid with the same keys. Returns non-null iff k is present. On a hit the returned node holds k and is the root. On a miss it returns null, and in a non-empty tree the new root holds the key next to k: its in-order predecessor or successor (the corrected miss path; see Findings). |
| Splay.SplayTree.FindAsWritten | splay.cpp:192-212 | `find` as written: it faults (reads through null) exactly when k is absent, the empty tree included. On a hit it keeps the tree valid with the same keys and returns the root, which holds k. |
| Insertion.Attach | splay.cpp:227-233 | Hanging z under y sets z's parent to y and no other key or size; y's left link takes z when z's key is below y's, its right link otherwise. |
| Insertion.AttachRep | splay.cpp:217-233 | At the null link where the descent ended, with equal keys sent right, the attached node gives a valid tree. Its in-order keys are the old ones with the new key inserted after every key <= it. |
| Ordering.InsertSortedSplit | splay.cpp:219-226 | When every key before the stopping point is <= k and every key after it is > k, `InsertSorted` places k exactly there. |
| Ordering.InsertSortedKeepsOrder | splay.cpp:214-237 | Inserting into a non-decreasing sequence keeps it non-decreasing. |
| Splay.SplayTree.Hang | splay.cpp:227-233 | The field updates of `insert` after its descent produce exactly `Attach`; the new node becomes the root when there was no parent. |
| Splay.SplayTree.Insert | splay.cpp:214-237 | Keeps the tree valid. The in-order keys become the old ones with k inserted after every key <= k. The new node, holding k, is the root and has no parent. |
| Splay.SplayTree.Max | splay.cpp:240-248 | Changes nothing. Returns null iff the tree is empty, otherwise the last node in in-order, whose key is the last of `Contents()` and at least every key. |
| Splay.SplayTree.Min | splay.cpp:251-259 | Changes nothing. Returns null iff the tree is empty, otherwise the first node in in-order, whose key is the first of `Contents()` and at most every key. |
| Descent.RightmostLast | splay.cpp:245-246 | A node reached by right links only, with no right child, is the last node in in-order. |
| Descent.LeftmostFirst | splay.cpp:256-257 | A node reached by left links only, with no left child, is the first node in in-order. |
| Removal.Detach | splay.cpp:281-282 | The link update when the removed root has no left subtree: r2's parent link is cleared and nothing else changes. Clearing that link is the correction recorded under Findings. |
| Removal.DetachRep | splay.cpp:281-282 | With no left subtree, the right subtree, its top's parent link cleared, is a valid tree. It holds the old keys less one copy of the removed key. |
| Removal.DetachAsWritten | splay.cpp:281-282 | As written, the new root still has the removed node as parent, so the links do not realise a tree (see Findings). |
| Splay.SplayTree.PromoteRight | splay.cpp:281-282 | `root = r2`, with r2's parent link cleared (the correction); the shape given is valid afterwards. |
| Splay.SplayTree.PromoteOnly | splay.cpp:281-282 | Removing a root that has no left child keeps the tree valid and removes one copy of its key. |
| Splay.SplayTree.RightmostOfLeft | splay.cpp:285-287 | Changes nothing. Returns a node with no right child, reached from the root's left child by right links only, i.e. the greatest node of the left subtree. |
| Removal.SpineAvoidsRight | splay.cpp:285-290 | No node of the removed root's right subtree lies on the path splayed by the `splay(r1)` at splay.cpp:290. |
| Removal.JoinRep | splay.cpp:289-298 | The right subtree r2 survives the splay. Once r1 is the root with every other left-subtree node to its left, giving it r2 as right child yields a valid tree of all nodes but the removed one, holding its keys less one copy. |
| Removal.Join | splay.cpp:293-298 | The link updates of `r1->setRight(r2)` and `r2->setParent(r1)`: r1's right link becomes r2 and, when r2 is a node, its parent becomes r1; keys, left links, the other right links and the other parents do not change. |
| Splay.SplayTree.Adopt | splay.cpp:293-298 | `r1->setRight(r2)`, r2's parent set to r1 and `root = r1` produce exactly `Join`; the shape given is valid afterwards. |
| Splay.SplayTree.JoinHalves | splay.cpp:284-299 | With a left subtree, the new root is the last node in in-order of the old left subtree. Its right child is the old right subtree and it has no parent. The tree is valid and one copy of the removed key is gone. |
| Splay.SplayTree.Unlink | splay.cpp:276-299 | Removing the root keeps the tree valid and removes exactly one copy of the root's key. |
| Ordering.RemoveKey | splay.cpp:261-302 | Deletion as a value: when k is present the result holds every element but one copy of k, and otherwise it is unchanged. |
| Ordering.SortedRemoval | splay.cpp:261-302 | A non-decreasing sequence holding the keys of a non-decreasing s less one k is exactly `RemoveKey(s, k)`. |
| Splay.SplayTree.Remove | splay.cpp:261-302 | Keeps the tree valid. The in-order keys become `RemoveKey` of the old ones: exactly one copy of k is gone when k was present, and nothing changes otherwise. |
| Ordering.InsertThenRemove | splay.cpp:214-302 | Removing k right after inserting it into a non-decreasing key sequence gives the original sequence back. |

## Left out

- `print_tree` and `print_in_order` (splay.cpp:304-339) write to a stream. The in-order traversal appears only as the ghost `Contents()`.
- `deallocateMemory`, the destructor and `delete node` (splay.cpp:301, 341-356) release memory. A removed node stays in the arena, unreachable from `root`.
- The two-argument `SplayNode` constructor (splay.cpp:8-9) is never used by the tree.
- The getters and setters (splay.cpp:11-49) become direct reads and writes of the node fields. `setKey` is never called by the tree.
- Keys are unbounded integers; the C++ `int` is 32 bits. The code only compares keys and never does arithmetic on them, so the width does not matter.
- Amortized logarithmic cost is neither stated nor checked by the source, and is not modelled.
- Splay.SplayTree.Splay requires a node of the tree, and the source never calls `splay` with null. The one candidate is the miss path of `find` at splay.cpp:207, where evaluating the argument `node->getParent()` already reads through the null `node`, so `splay` is never entered. `FindAsWritten` models that fault.
- Splay.SplayTree.Remove uses the corrected `Find`. As written, `remove` of an absent key faults inside `find` (splay.cpp:265).
- The second `splay(node)` in `remove` (splay.cpp:274) is a no-op once `find` has splayed the node, and is modelled as a splay with an empty path.

## Findings

| source | as written | input that shows it | evidently intended | confidence | as-written member | corrected member |
|---|---|---|---|---|---|---|
| splay.cpp:206-207 | On a miss `node` is null, and `splay(node->getParent())` reads a field through it | `find(5)` on any tree that does not hold 5, the empty tree included | Splay the last node visited (the comment at line 205 and the unused `parent` variable), and return null | high; not executed | Splay.SplayTree.FindAsWritten | Splay.SplayTree.Find |
| splay.cpp:281-282 | With no left subtree, `root = r2` leaves r2's parent link pointing at the deleted node | insert 2, insert 1, remove 1: 2 becomes the root with parent 1. A later `insert 3` splays 3 with `rotateLeft(2)`, which follows the freed node and never updates `root` | Also clear r2's parent link: `if (r2) r2->setParent(nullptr)` | high; not executed | Removal.DetachAsWritten | Splay.SplayTree.PromoteOnly |
