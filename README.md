# go-avl in Dafny

A model of the AVL tree package `avl` (kjx98/go-avl) with proofs about it.

## The tree

The package keeps an ordered set of values in a balanced binary search tree:

- Every node stores a value, its two children, a parent pointer and a balance factor. The balance factor is height(right) − height(left) and lies in {−1, 0, 1}.
- The `Tree` object holds the root and the element count. It also caches the leftmost node, which `First` fills. `Insert` drops the cache when its value is below the cached one, and `Remove` when its value is at or below it.
- `Find` and `Insert` descend from the root, comparing with `Cmp(userValue, treeValue)`.
  - `Insert` links a new leaf and adjusts its parent's balance directly. While a subtree has grown, the walk goes on up the parent pointers: from the grandparent on, each ancestor is updated by `handleSubtreeGrowth`, which rotates once (single or double) when an ancestor would reach ±2.
- `Remove` works as follows:
  - A node with two children gives way to its in-order successor (`swapWithSuccessor`); otherwise the node's only child, or nothing, takes its place.
  - `handleSubtreeShrink` then walks up the ancestors, rotating where needed, until a subtree keeps its height.
- A forward `Iterator` computes the next node before it hands out the current one, so the current node may be removed between steps. `ForEach` drives an iterator and stops when the visitor returns false.

## How the model is built

- `AvlNode.Node` is a node as a value: `Nil` for the nil pointer, or its children, value and stored balance factor.
- Parent pointers become a path (`AvlPath.Frame` list, innermost ancestor first):
  - Each frame records the side the position hangs on, the ancestor's value and balance, and its other child.
  - Following `parent` drops a frame.
  - `replaceChild` / `*curPtr = …` is `AvlPath.Plug`, which hangs a subtree back into the whole tree.
- The Go code's `sign` convention is kept everywhere: `getChild(sign)` (avl.go:116-121) is `AvlNode.Child`, and `rotate(a, sign)` lifts the child on side −sign.
- `handleSubtreeGrowth` and `handleSubtreeShrink` are functions that return the subtree now in the ancestor's place and whether propagation stops there.
- The loops that climb the ancestors, the successor search and the iterator are methods with loop invariants.
- `Tree` and `Iterator` are classes whose methods update their fields.
- A node handle is identified with the value it holds: values are unique in the tree.
- The meaning of every operation is stated on the ascending sequence of values (`AvlOrder`): insertion into place, removal, successor and predecessor.

Proved:

- Every operation keeps the tree a balanced search tree with correct stored balance factors.
- `Insert` and `Remove` change the in-order sequence exactly as insertion into a sorted list and removal from it. Removing a value just inserted gives the tree's contents back.
- Insertion rotates at most once. After insertion the height grows by at most one; after removal it drops by at most one.
- A balanced tree holding k values has height h with 2^h ≤ (k + 1)², that is h ≤ 2 log2(k + 1), which makes every descent logarithmic. A tree of at most 1024 values, as the test suite builds, is at most 14 levels high.
- Successor and predecessor are the least greater and greatest smaller values.
- The iterator survives the removal of its current node.
- The test-suite validator accepts exactly the trees the invariant describes.

## Model

| member | source | states |
|---|---|---|
| AvlNode.Cmp | avl.go:32-40 | the comparison result is negative exactly when the user value is smaller, zero exactly when equal, and lies in {-1, 0, 1} |
| AvlNode.Build | avl.go:144-150 | the node built towards `sign` has `inner` as its child on side -sign and `outer` on side +sign, as getChild reads them back |
| AvlNode.AdjustBalance | avl.go:152-154 | adds `amount` to the stored balance factor and leaves the value and both children as they were |
| AvlNode.CheckInvariantsCorrect | avl_test.go:145-175 | the validator reports no error exactly for trees whose every balance factor is in {-1, 0, 1} and equals rHeight - lHeight, and then returns the tree's height |
| AvlNode.MinNodesBound | avl_test.go:169-174 | a tree meeting the balance invariant checked there holds at least MinNodes(height) values, the fewest a node over children of heights h-1 and h-2 can have (the Fibonacci bound) |
| AvlNode.MinNodesSquare | avl_test.go:169-174 | 2^h is at most (MinNodes(h) + 1)² |
| AvlNode.HeightBound | avl_test.go:169-174 | a balanced tree holding k values has height h with 2^h ≤ (k + 1)², that is h ≤ 2 log2(k + 1) |
| AvlNode.HeightOf1024 | avl_test.go:45-57 | a balanced tree of at most 1024 values, the number the test inserts, is at most 14 levels high |
| AvlPath.PlugInOrder | avl.go:374-384 | hanging a subtree in the slot a path leads to gives a tree whose in-order sequence is the values before the slot, the subtree's, then the values after it |
| AvlPath.PlugBalanced | avl.go:374-384 | the whole tree is balanced exactly when the hung subtree is and every ancestor's stored balance fits that subtree's height |
| AvlPath.PlugHeight | avl.go:374-384 | the height of the whole tree depends only on the height of the hung subtree |
| AvlRotate.Rotate | avl.go:386-402 | a rotation keeps the in-order sequence of the subtree |
| AvlRotate.RotateBuild | avl.go:386-402 | rotating towards -sign lifts the child on side +sign and moves its inner child across to the old root |
| AvlRotate.DoubleRotate | avl.go:404-440 | a double rotation keeps the in-order sequence and puts the grandchild `e` on top with balance 0 |
| AvlRotate.DoubleRotateBalanced | avl.go:409-427 | the balance table for a and b (0 or -eBal, by the sign of sign*eBal) is right: the result is balanced and as tall as the lifted child was |
| AvlRebalance.HandleSubtreeGrowthCorrect | avl.go:442-464 | after a child grew: the new subtree is balanced and keeps the in-order sequence; propagation goes on exactly when the parent's balance was 0, and then the subtree is one level taller and tilted; otherwise its height is what it was before the insertion |
| AvlRebalance.GrowthAdjust | avl.go:443-453 | a parent that was 0 or tilted away from the grown side only has its balance adjusted and stays balanced, one level taller only when it was 0 |
| AvlRebalance.GrowthSingle | avl.go:455-458 | a single rotation followed by lowering both balances by sign leaves a balanced subtree of the pre-insertion height |
| AvlRebalance.GrowthDouble | avl.go:459-461 | when the grown child leans the other way, the double rotation leaves a balanced subtree of the pre-insertion height |
| AvlRebalance.HandleSubtreeShrinkCorrect | avl.go:532-563 | after a child shrank: the new subtree is balanced and keeps the in-order sequence; propagation stops exactly when the parent was 0 or the rotated sibling was 0, and otherwise the subtree is one level lower |
| AvlRebalance.ShrinkAdjust | avl.go:534-544 | a parent that was 0 or tilted towards the shrunk side only has its balance adjusted and stays balanced |
| AvlRebalance.ShrinkSingle | avl.go:546-554 | a single rotation at a parent whose sibling does not lean inwards gives a balanced subtree with the same in-order sequence; it keeps the pre-removal height when the sibling was level and is one level lower otherwise |
| AvlRebalance.RotationStops | avl.go:548-551 | after a single rotation over a level sibling, the lifted sibling leans towards the shrunk side and the old parent keeps its lean; the result is balanced and three levels above the shrunk child |
| AvlRebalance.RotationGoesOn | avl.go:553-554 | the shape after a single rotation over a tilted sibling is balanced with both factors 0 and two levels above the shrunk child |
| AvlRebalance.ShrinkDouble | avl.go:555-557 | when the sibling leans inwards, the double rotation gives a balanced subtree one level lower |
| AvlUpdate.LinkLeaf | avl.go:467-479 | linking a leaf tilts its parent towards it; the parent's subtree grew exactly when the parent's balance did not return to 0 |
| AvlUpdate.RebalanceAfterInsert | avl.go:466-493 | after linking a leaf, the climb leaves a balanced tree with the same in-order sequence, at most one level taller than before, after at most one rotation |
| AvlUpdate.GrowOnce | avl.go:481-492 | one step up: in-order sequence kept; it stops exactly when the ancestor was not 0, and then the ancestors above fit; otherwise the subtree has grown again |
| AvlUpdate.SwapWithSuccessor | avl.go:495-530 | the successor (first value of x.right, a node without a left child) takes x's place with x's left child and balance; the path returned runs up the left spine of x.right from the successor's old parent, so it starts at the successor itself exactly when that is x.right; the successor's right child fills the place that shrank, and the tree's in-order sequence is the old one without x |
| AvlUpdate.RebalanceAfterRemove | avl.go:318-327 | the shrink loop leaves a balanced tree with the same in-order sequence, at most one level lower than before |
| AvlUpdate.ShrinkOnce | avl.go:318-327 | one step up: in-order sequence kept, and the loop goes on only while a subtree lost a level and an ancestor remains |
| AvlOrder.InsertSortedCorrect | avl.go:206-237 | inserting into an ascending sequence keeps it ascending and adds exactly the inserted value |
| AvlOrder.RemoveValueCorrect | avl.go:275-329 | removal keeps the sequence ascending and drops exactly the removed value |
| AvlOrder.InsertPresent | avl.go:222-223 | inserting a value that is already present changes nothing |
| AvlOrder.InsertSortedSplit | avl.go:213-232 | a value above everything before the empty slot and below everything after it is inserted exactly at the slot |
| AvlOrder.RemoveValueSplit | avl.go:289-316 | removing a value that sits between two ascending parts leaves their concatenation |
| AvlOrder.InsertThenRemove | avl_test.go:105-116 | removing a value just inserted gives back the original contents |
| AvlOrder.LeastAboveSplit | avl.go:123-142 | in an ascending sequence the successor of an element is the element right after it, or none |
| AvlOrder.GreatestBelowSplit | avl.go:123-142 | in an ascending sequence the predecessor of an element is the element right before it, or none |
| AvlOrder.LeastAboveIsLeast | avl.go:123-142 | the successor is in the sequence, above x and at most every value above x, and there is none exactly when nothing is above x |
| AvlOrder.GreatestBelowIsGreatest | avl.go:123-142 | the predecessor is in the sequence, below x and at least every value below x, and there is none exactly when nothing is below x |
| AvlOrder.LeastAboveRemove | avl.go:60-61 | removing the current value does not change what comes after it, which is why removing the current node keeps the iterator right |
| AvlOrder.EndsAreExtremes | avl.go:168-182 | in an ascending sequence the first element is the least and the last the greatest |
| AvlNavigate.Descend | avl.go:186-202 | the descent ends at the node holding v, or at the empty slot exactly when v is absent, with every value before the slot below v and every value after it above v |
| AvlNavigate.DescendStep | avl.go:189-198 | one step left or right keeps the position inside the search tree and v between the values before and after it |
| AvlNavigate.FirstOrLastInOrder | avl.go:360-372 | following children on side sign finds the first (sign < 0) or last (sign > 0) value, and nil exactly for an empty tree |
| AvlNavigate.NextOrPrevInOrder | avl.go:123-142 | returns the successor (sign > 0) or predecessor (sign < 0) of the node among the tree's values |
| AvlNavigate.NeighbourCases | avl.go:123-142 | the neighbour on side sign is reached by going to the child on side sign and then as far as possible towards -sign when that child exists, and otherwise is the first ancestor the node is not on side sign of |
| AvlNavigate.ExtremeStep | avl.go:126-133 | the extreme value on a side is that of the child on that side, or the node's own value when there is no such child |
| AvlNavigate.FirstTurnAfter | avl.go:134-139 | climbing while the node is a right child ends at the first value after the node's position, or nil when there is none |
| AvlNavigate.FirstTurnBefore | avl.go:134-139 | climbing while the node is a left child ends at the last value before the node's position, or nil when there is none |
| AvlTree.Tree.constructor | avl.go:566-568 | a new tree is empty, valid, with size 0 and no cached first node |
| AvlTree.Tree.Len | avl.go:164-166 | the element count is the number of values held |
| AvlTree.Tree.First | avl.go:170-176 | returns the least value (nil exactly for an empty tree) and caches it, without changing the tree |
| AvlTree.Tree.Last | avl.go:180-182 | returns the greatest value, nil exactly for an empty tree |
| AvlTree.Tree.Find | avl.go:186-202 | finds v exactly when the tree holds it |
| AvlTree.Tree.Insert | avl.go:206-237 | contents become the ascending insertion of v; a present value changes nothing; the size grows by one for a new value; the cache is dropped exactly when v is below the cached first value; the height grows by at most one |
| AvlTree.Tree.Remove | avl.go:275-329 | contents lose v and the size drops by one; the cache is dropped when v is at most the cached first value; a value not in the tree is reported and changes nothing; the height drops by at most one |
| AvlTree.SizeBoundsHeight | avl.go:156-166 | a valid tree holding size values has height h with 2^h ≤ (size + 1)², that is h ≤ 2 log2(size + 1) |
| AvlTree.LinkInOrder | avl.go:227-232 | a leaf linked in the slot the descent ended at puts v in ascending position and adds one element |
| AvlTree.Unlink | avl.go:288-328 | unlinking the node leaves a valid tree whose contents are the old ones without the node's value, at most one level lower than before |
| AvlTree.ReplaceBySuccessor | avl.go:289-290 | a node with two children gives way to its successor, then the ancestors are rebalanced; the tree stays valid and loses exactly the node's value, at most one level lower |
| AvlTree.ReplaceByChild | avl.go:291-315 | a node with at most one child is replaced by that child; the climb is skipped when the node was the root; the tree ends at most one level lower |
| AvlTree.UnlinkShape | avl.go:292-304 | in a balanced tree a node with at most one child is one level above that child, which holds all the values below the node; the whole tree's height is that of the child hung one level higher |
| AvlTree.UnlinkInOrder | avl.go:288-316 | removing the node's value from the in-order sequence closes the gap between the values on either side of it, and the length drops by one |
| AvlIterator.Iterator.constructor | avl.go:334-345 | a new forward iterator over the tree is not yet started |
| AvlIterator.Iterator.First | avl.go:72-79 | moves to the least value (nil for an empty tree) and precomputes its successor |
| AvlIterator.Iterator.Get | avl.go:83-88 | returns the current value; an iterator not yet started starts with First |
| AvlIterator.Iterator.Next | avl.go:92-103 | advances to the precomputed value and precomputes its successor; an iterator not yet started moves to the second value |
| AvlIterator.Successor | avl.go:101 | the node after the current one is the successor of its value among the tree's values |
| AvlIterator.ForEach | avl.go:351-358 | hands the values to the visitor in ascending order and stops right after the first one it refuses, or after all of them |
| AvlScenarios.EmptyTree | avl_test.go:33-42 | on a new tree, Len is 0 and First, Last and a new iterator's First and Next find nothing |
| AvlScenarios.WalkForward | avl_test.go:81-89 | a walk with First and Next visits every value in ascending order, and Get returns the current one |
| AvlScenarios.VisitAll | avl_test.go:92-99 | ForEach with a visitor that always goes on visits every value in ascending order |
| AvlScenarios.InsertFindRemove | avl_test.go:104-116 | after inserting a new value Find returns it; after removing it Find returns nil, and the contents and size are back to what they were |
| AvlScenarios.RemoveWhileIterating | avl_test.go:126-138 | removing the current node after each step still visits every value in order, with the current value always the tree's First, and the tree ends empty |
| AvlScenarios.RemoveLeast | avl_test.go:129-135 | removing the least value leaves the rest, and its successor is unchanged by the removal |

## Left out

- Node identity: a node handle is its value. `Remove` takes a value, and the reset sentinel (`parent == node`) that makes Remove panic on a removed node becomes the `NotInTree` outcome. A node that was never inserted cannot be expressed.
- `reset`, `setParentBalance` and the parent fields: parent pointers are represented by the path of frames, so parent/child consistency holds by construction. The validator's parent-pointer check is part of that.
- `InsertNode`: with handles identified by values it does exactly what `Insert` does (same cache rule, same descent, same linking), so it is not modelled separately. Its comment says it returns nil for a present value; the code returns the existing node, as `Insert` does.
- Generics and the `Comparable` interface: values are integers, and `Cmp` is the integer comparison. The unused `errNoCmpFn` is not modelled.
- The panic on an invalid direction is a precondition (`direction == Forward`) on the iterator and `ForEach`.
- ForEach: the visitor is a pure function of the value; a visitor that changes the tree (the source allows removing the current node) is covered by RemoveWhileIterating instead.
- AvlIterator.Successor: the node handle the iterator holds is found again by a descent from the root, because handles are values; the walk from that node is the same.
- AvlUpdate.RebalanceAfterInsert: the rotation count is a ghost result and is not returned by Insert.
- The test's `New[int](func…)` call passes a comparison function, which `New` does not take; the model's constructor follows `New` as defined.
- The benchmarks, and the random choice of values and removal order in the tests: the scenario methods take the tree and value as parameters.
