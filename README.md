# Sorted set on a left-leaning red-black tree

This project models the core of `sortedset`, a Go ordered-set container. A
`SortedSet` holds the root of a left-leaning red-black tree (LLRB) and a count of
stored elements. It offers `Insert`, `Delete`, `Contains`, the ordered walk `All`,
`Len` and `Clear`.

Each operation is proved against an abstract view of the tree:

- `Elements(t)`: the set of stored elements.
- `InOrder(t)`: the in-order sequence.

The structural invariants being proved are:

- binary-search-tree order (`Ordered`);
- equal black height on every path (`Balanced`, with `Bh` the black height);
- no red right link and no two red links in a row (`LeftLeaning`);
- a black root.

`IsLlrb` is the conjunction of all four.

Files and modules:

- `nodes.dfy` (`Nodes`): the node datatype, the abstract views and the facts about them.
- `rotations.dfy` (`Rotations`): the local steps `colorFlip`, `rotateLeft`, `rotateRight`,
  `insertRotation`, `fixUp`, `moveRedLeft` and `moveRedRight`.
- `insertion.dfy` (`Insertion`): `insert`, both as written and corrected (see Findings).
- `deletion.dfy` (`Deletion`): `delete_`, `deleteRight`, `deleteMinimum` and `first`.
- `traversal.dfy` (`Traversal`): the walk `all` with a callback that can stop it.
- `sortedset.dfy` (`SortedSets`): the `SortedSet` class with fields `root` and `size`.
- `top_down_insertion.dfy` (`TopDownInsertion`): concrete runs of the insertion as written.

Every helper in the source that restructures a subtree returns its new root, and
the caller stores it back. `colorFlip` recolours in place and returns nothing; the
model gives it the recoloured node as its result. Within one set each node is owned
by exactly one parent. The tree is therefore a value
(`Tree = Nil | Node(element, red, left, right)`), and each helper is a function
from the old subtree to the new one. The class changes its `root` and `size`
fields in place, as the source does. `Contains` and `first` are loops, as in the
source.

Deletion is proved under these invariants:

- `delete_` is only called on a node that has a red link to spare (`SpareRed`), or
  on one that `moveRedRight` left leaning right (`LeansRight`).
- `deleteRight` is only called in the shapes `DeleteRightReady` names.
- At the root, `delete_` may meet a black node with two black children. For that case
  the model proves that `delete_` never depends on the root's own colour
  (`DeleteColourBlind`). The root is therefore handled as if it were red.

In the 2-3 variant of LLRB insertion the colour flip comes after the rotations.
This code flips before it descends (sortedset.go:46-48). The model follows the
code in `Insertion.InsertTopDown` and shows under Findings why that breaks
deletion.

## Model

| member | source | states |
|---|---|---|
| Nodes.IsRed | sortedset.go:58-60 | true only for a non-nil red node: a nil link counts as black, and a red link adds nothing to the black height |
| Nodes.Blacken | sortedset.go:148-150 | the root coloured black (nil stays nil): a non-red root over the same elements, the same walk and the same order |
| Nodes.Min | sortedset.go:218-223 | the end of the left spine of a non-empty subtree is one of its elements |
| Nodes.MinIsLeast | sortedset.go:218-223 | in a search tree, the end of the left spine is the least stored element |
| Nodes.OrderedInOrder | sortedset.go:111-118 | the in-order walk of a search tree is strictly ascending, with as many entries as stored elements |
| Nodes.AscendingOrdered | sortedset.go:111-118 | conversely, a tree whose in-order walk is strictly ascending is a search tree |
| Nodes.SameInOrder | sortedset.go:82-98 | two trees with the same in-order walk hold the same elements, and one is ordered exactly when the other is |
| Rotations.ColorFlip | sortedset.go:62-70 | inverts the node's colour and the colour of each non-nil child; changes nothing else (elements, walk, and the children apart from their colour) |
| Rotations.ColorFlipTwice | sortedset.go:62-70 | flipping twice gives back the same node |
| Rotations.RotateLeft | sortedset.go:82-89 | needs a right child; the right child becomes the root with the old root's colour, the old root becomes its red left child, and the in-order walk is unchanged |
| Rotations.RotateRight | sortedset.go:91-98 | the mirror image: needs a left child, and the old root becomes the red right child, walk unchanged |
| Rotations.RotationsUndo | sortedset.go:82-98 | the opposite rotation undoes a rotation, except that the child moved back down is now red |
| Rotations.InsertRotation | sortedset.go:72-80 | the insertion fix-up changes the shape only, never the elements or their order |
| Rotations.FixUp | sortedset.go:236-247 | the deletion fix-up changes the shape only, never the elements or their order |
| Rotations.FixUpRepairs | sortedset.go:236-247 | on a node with left-leaning children of equal black height, fixUp leaves a left-leaning tree of the same black height, red exactly when the node was red or it split a temporary 4-node |
| Rotations.MoveRedLeft | sortedset.go:181-189 | keeps the elements and their order and keeps a left child present |
| Rotations.MoveRedLeftLends | sortedset.go:181-189 | where deletion applies it, the left child or its left child becomes red and the black height is unchanged |
| Rotations.MoveRedRight | sortedset.go:207-214 | keeps the elements and their order and keeps a right child present |
| Rotations.MoveRedRightLends | sortedset.go:207-214 | where deletion applies it, either leaves a black node with two red children or rotates the old node, leaning right, under a red node with a smaller element |
| Rotations.FixUpColourBlind | sortedset.go:236-247 | fixUp's result depends on the node's own colour only in the result's root colour |
| Rotations.MoveRedLeftColourBlind | sortedset.go:181-189 | the same for moveRedLeft |
| Rotations.MoveRedRightColourBlind | sortedset.go:207-214 | the same for moveRedRight |
| Rotations.RotateRightColourBlind | sortedset.go:91-98 | the same for rotateRight |
| Deletion.First | sortedset.go:218-223 | the loop ends at the least element of a search tree (it returns `Min`) |
| Deletion.MinIsFirst | sortedset.go:218-223 | the least element is the first entry of the in-order walk |
| Deletion.DeleteMinimum | sortedset.go:225-234 | removes elements only, never adds any |
| Deletion.DeleteMinimumCorrect | sortedset.go:225-234 | on a node with a red link to spare, keeps balance, black height and the left-leaning shape; a black root stays black |
| Deletion.DeleteMinimumDropsFirst | sortedset.go:225-234 | removes exactly the first entry of the in-order walk |
| Deletion.DeleteMinimumRemovesMin | sortedset.go:225-234 | in a search tree, removes exactly the least element and keeps the order |
| Deletion.Delete | sortedset.go:158-179 | removes elements only; reports a deletion only when `k` was stored |
| Deletion.DeleteRight | sortedset.go:191-205 | removes elements only, returns a node, and reports a deletion only when `k` was stored |
| Deletion.DeleteCorrect | sortedset.go:158-179 | in the shapes deletion keeps: removes exactly `k`, reports true exactly when `k` was stored, and keeps order, balance, black height and the left-leaning shape |
| Deletion.DeleteRightCorrect | sortedset.go:191-205 | removes exactly `k`, including when the node's element is replaced by its successor; reports exactly membership; keeps order and black height and leaves a node fixUp repairs |
| Deletion.SuccessorReplaces | sortedset.go:196-200 | overwriting the element with the successor and deleting the successor from the right removes exactly the node's own element |
| Deletion.DeleteColourBlind | sortedset.go:158-179 | recolouring the node passed to delete_ changes at most the root colour of the result and never the flag |
| Deletion.DeleteRightColourBlind | sortedset.go:191-205 | the same for deleteRight |
| Deletion.DeleteFromRoot | sortedset.go:145-156 | delete_ at the root of a valid tree, then blackening the root, gives a valid tree holding the old elements without `k`; the flag is exactly membership |
| Insertion.InsertTopDown | sortedset.go:41-56 | insert as written: returns a node holding the old elements plus `x`; reports "already present" only when `x` was stored |
| Insertion.InsertTopDownCorrect | sortedset.go:41-56 | the insert as written keeps search-tree order and reports true exactly when `x` was absent |
| Insertion.Insert | sortedset.go:41-56 | the corrected insert (flip after the fix-up rotations): returns a node holding the old elements plus `x`; reports "already present" only when `x` was stored |
| Insertion.SplitFourNode | sortedset.go:46-48 | the moved colour flip keeps the elements and their order and leaves no node with two red children |
| Insertion.InsertCorrect | sortedset.go:41-56 | insert keeps search-tree order and reports true exactly when `x` was absent |
| Insertion.InsertKeepsShape | sortedset.go:41-56 | insert keeps the black height and the left-leaning shape, except for a red-red left pair below a red node that the parent's fix-up removes |
| Insertion.InsertFromRoot | sortedset.go:31-39 | insert at the root of a valid tree, then blackening the root, gives a valid tree holding the old elements plus `x`; the flag is exactly absence |
| Traversal.All | sortedset.go:111-118 | returns true exactly when the callback accepts every element of the walk; then it made one call per element, in order; otherwise its calls are the walk up to and including the first refused element |
| Traversal.StopAfter | sortedset.go:111-118 | a callback that stops at the element of rank `k` makes exactly `k + 1` calls, on the `k + 1` smallest elements |
| Traversal.WalkOfSearchTree | sortedset.go:103-118 | over a search tree the walk's calls are a sorted walk of the stored elements (ascending, nothing skipped, stops exactly at the first refusal, all elements if none is refused) |
| SortedSets.SortedSet.constructor | sortedset.go:12-18 | the zero value is a valid empty set |
| SortedSets.SortedSet.Insert | sortedset.go:31-39 | adds `x`; returns true exactly when `x` was absent; the contents are unchanged otherwise; `size` grows by one exactly then; the tree stays valid with a black root |
| SortedSets.SortedSet.Delete | sortedset.go:145-156 | removes `x`; returns true exactly when `x` was present; the contents are unchanged otherwise (also on an empty set); `size` drops by one exactly then; the tree stays valid |
| SortedSets.SortedSet.Contains | sortedset.go:124-136 | returns true exactly when `x` is stored |
| SortedSets.SortedSet.Len | sortedset.go:101 | the number of stored elements |
| SortedSets.SortedSet.All | sortedset.go:103-109 | the elements a range loop is handed: stored elements in strictly ascending order, none skipped below the last, all but the last accepted, the last refused if the loop refuses any, and all `Len()` of them if it refuses none |
| SortedSets.SortedSet.Clear | sortedset.go:249-254 | empties the set: the length is 0 and every walk hands over nothing |
| TopDownInsertion.AddTopDown | sortedset.go:31-39 | the public Insert built on the insert as written: the old elements plus `x`, under a black root |
| TopDownInsertion.Remove | sortedset.go:145-156 | the public Delete's treatment of the root: never adds elements, leaves a black or empty root |
| TopDownInsertion.TopDownBreaksShape | sortedset.go:46-48 | inserting 2, 1 and then 3 with the insert as written leaves a root with two red children: no longer a left-leaning tree |
| TopDownInsertion.TopDownLosesElement | sortedset.go:46-48 | inserting 2, 1, 10, 9, 5 with the insert as written, then deleting 1 and 5 (both reported deleted), leaves only {2, 9}: 10 is lost |

## Left out

- Node mutation through pointers (colorFlip's colour updates, the rotations' link
  rewiring, deleteRight's element overwrite) is modelled on values. Every helper
  that restructures a subtree returns its new root and the caller stores it back;
  within one set no node is shared, so no aliasing is observable there. The updates
  to the `SortedSet` fields themselves are modelled in place.
- Copying a set by value is not modelled. A Go `SortedSet` is a struct, so after
  `b := a` both copies share the nodes under `a.root`, and `b.Insert` or `b.Delete`
  rewires nodes that `a` still reaches. The model's `SortedSet` is a reference
  object over a value tree and cannot express such a copy or the aliasing it
  causes.
- Elements are `int`. The source's `Comparable` also admits strings and unsigned
  integers; only their strict order matters to the tree.
- Integer width: `size` is an unbounded integer. The Go `int` counter could wrap
  after 2^63 - 1 insertions, which memory rules out in practice.
- `All`'s `iter.Seq` and the range-over-function protocol are not modelled. The
  loop body (`yield`) is a pure predicate on elements. A walk is the sequence of
  elements it was handed.
- Insertion.InsertTopDown: it keeps order and reports the flag exactly
  (`Insertion.InsertTopDownCorrect`), but no shape invariant is claimed, because the
  insert as written can leave an invalid tree (see Findings). The class uses the
  corrected `Insertion.Insert` instead.
- `rbset.go` holds only a version string and a greeting.
- `Add`, `IsEmpty`, `New` and the set-algebra operations (`Union`, `Intersection`,
  `Difference`, `IsSubsetOf`, ...) are called by the tests. Their source is not part
  of this model.
- The unit tests are not replayed as concrete scenarios. The tests TestAPI, Test1,
  Test2, TestIntKeyContains and TestIntKeyDelete in `sortedset_test.go` also call
  `Add` and, in TestAPI, `IsEmpty`, neither of which is modelled. Their
  insert-delete-contains-length checks follow from the contracts of `SortedSet` only
  on the assumption that `Add` inserts each of its arguments with `Insert`. The tests
  themselves run on the insert as written, not on the corrected one. Test2's break
  at the first element is the "stops at the first refusal" clause of `SortedSet.All`.
- Logarithmic height is not stated. Only balance (`Balanced`) and the colour shape
  are proved.

## Findings

| source | as written | input that shows it | evidently intended | confidence | as-written member | corrected member |
|---|---|---|---|---|---|---|
| sortedset.go:46-48 | `insert` splits a node with two red children before it descends (top-down 2-3-4 insertion), so a black node with two red children can remain in the tree; `delete_` (sortedset.go:158-247) is the 2-3 deletion, which relies on no such node existing | Insert 2, 1, 3: the root is black with two red children. Insert 2, 1, 10, 9, 5, then Delete 1 and Delete 5: both report true, but the tree then holds only 2 and 9, so 10 is lost and `Len()` says 3 | a valid left-leaning 2-3 tree after every insert, so that deletion removes exactly the given element: the colour flip belongs after `insertRotation`, on the way back up | not executed | Insertion.InsertTopDown, TopDownInsertion.TopDownBreaksShape, TopDownInsertion.TopDownLosesElement | Insertion.Insert, Insertion.InsertFromRoot, SortedSets.SortedSet.Insert |
