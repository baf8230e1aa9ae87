/**
 * The tree object: its root, the cached leftmost node `first` and the
 * element count `size`, with the public operations that read or update
 * them. A node handle is identified with the value it holds, which is
 * unique in the tree.
 */
module AvlTree {
  import opened AvlNode
  import opened AvlPath
  import opened AvlOrder
  import opened AvlUpdate
  import opened AvlNavigate

  /** What Remove reports: the node was unlinked, or it was not in the tree. */
  datatype Outcome = Removed | NotInTree

  class Tree {
    var root: Node
    var first: Option<int>
    var size: int

    /** The tree invariant, the element count and the cache of the leftmost value. */
    ghost predicate Valid()
      reads this
    {
      && AvlNode.Valid(root)
      && size == |InOrder(root)|
      && (first.Some? ==> InOrder(root) != [] && first.value == InOrder(root)[0])
    }

    /** The values held, in ascending order. */
    ghost function Contents(): seq<int>
      reads this
    {
      InOrder(root)
    }

    /** An empty tree. */
    constructor ()
      ensures Valid() && Contents() == [] && size == 0 && first == None
    {
      root, first, size := Nil, None, 0;
    }

    /** The number of values held. */
    method Len() returns (n: int)
      requires Valid()
      ensures n == |Contents()|
    {
      n := size;
    }

    /**
     * The least value, or None for an empty tree; recomputed by leftmost
     * descent only when the cache is empty, and cached afterwards.
     */
    method First() returns (r: Option<int>)
      requires Valid()
      modifies this
      ensures Valid() && root == old(root) && size == old(size)
      ensures r.None? <==> Contents() == []
      ensures r.Some? ==> r.value == Contents()[0]
      ensures first == r
    {
      if first.None? {
        first := FirstOrLastInOrder(root, -1);
      }
      r := first;
    }

    /** The greatest value, or None for an empty tree. */
    method Last() returns (r: Option<int>)
      requires Valid()
      ensures r.None? <==> Contents() == []
      ensures r.Some? ==> r.value == Contents()[|Contents()| - 1]
    {
      r := FirstOrLastInOrder(root, 1);
    }

    /** The node holding `v`, or None when no value compares equal to `v`. */
    method Find(v: int) returns (r: Option<int>)
      requires Valid()
      ensures r == if v in Contents() then Some(v) else None
    {
      var _, cur := Descend(root, v);
      r := if cur == Nil then None else Some(cur.value);
    }

    /**
     * Inserts `v` unless an equal value is present, in which case nothing
     * changes. A new value is linked as a leaf with balance 0 in the slot
     * the descent ends at, the tree is rebalanced and the size grows by
     * one. The cache is dropped when `v` is below the cached least value.
     */
    method Insert(v: int) returns (r: int)
      requires Valid()
      modifies this
      ensures Valid()
      ensures r == v
      ensures Contents() == InsertSorted(old(Contents()), v)
      ensures v in old(Contents()) ==> root == old(root) && size == old(size)
      ensures v !in old(Contents()) ==> size == old(size) + 1
      ensures first == if old(first).Some? && v < old(first).value then None else old(first)
      ensures Height(old(root)) <= Height(root) <= Height(old(root)) + 1
    {
      if first.Some? && Cmp(v, first.value) < 0 {
        first := None;
      }
      var path, cur := Descend(root, v);
      if cur.Node? {
        InsertPresent(InOrder(root), v);
        return cur.value;
      }
      PlugBalanced(path, Nil);
      PlugHeight(path, Nil);
      var leaf := Node(Nil, v, 0, Nil);
      var newRoot, _ := RebalanceAfterInsert(path, leaf);
      LinkInOrder(path, v);
      root := newRoot;
      size := size + 1;
      r := v;
    }

    /**
     * Unlinks the node holding `v`; when there is none, reports NotInTree
     * and changes nothing. A node with two children gives way to its
     * successor, otherwise its only child (or nothing) takes its place;
     * the ancestors are then rebalanced, except when the root itself was
     * unlinked this way. The size drops by one and the cache is dropped
     * when `v` is at most the cached least value.
     */
    method Remove(v: int) returns (r: Outcome)
      requires Valid()
      modifies this
      ensures Valid()
      ensures r == NotInTree <==> v !in old(Contents())
      ensures r == NotInTree ==> root == old(root) && first == old(first) && size == old(size)
      ensures r == Removed ==> Contents() == RemoveValue(old(Contents()), v) && size == old(size) - 1
      ensures r == Removed ==> first == if old(first).Some? && v <= old(first).value then None else old(first)
      ensures Height(old(root)) - 1 <= Height(root) <= Height(old(root))
    {
      var path, x := Descend(root, v);
      if x == Nil {
        return NotInTree;
      }
      if first.Some? && Cmp(v, first.value) <= 0 {
        first := None;
      }
      size := size - 1;
      UnlinkInOrder(path, x);
      var newRoot := Unlink(path, x);
      root := newRoot;
      r := Removed;
    }
  }

  /** A valid tree of `size` values has height at most 2 log2(size + 1). */
  lemma SizeBoundsHeight(t: Tree)
    requires t.Valid()
    ensures Pow2(Height(t.root)) <= (t.size + 1) * (t.size + 1)
  {
    HeightBound(t.root);
  }

  /** The in-order sequence after a new leaf holding `v` is linked in the empty slot `path` leads to. */
  lemma LinkInOrder(path: seq<Frame>, v: int)
    requires Sorted(InOrder(Plug(path, Nil)))
    requires forall x :: x in Before(path) ==> x < v
    requires forall x :: x in After(path) ==> v < x
    ensures InOrder(Plug(path, Node(Nil, v, 0, Nil))) == InsertSorted(InOrder(Plug(path, Nil)), v)
    ensures Sorted(InsertSorted(InOrder(Plug(path, Nil)), v))
    ensures |InsertSorted(InOrder(Plug(path, Nil)), v)| == |InOrder(Plug(path, Nil))| + 1
  {
    PlugInOrder(path, Nil);
    PlugInOrder(path, Node(Nil, v, 0, Nil));
    assert InOrder(Plug(path, Nil)) == Before(path) + After(path);
    InsertSortedSplit(Before(path), v, After(path));
    InsertSortedCorrect(InOrder(Plug(path, Nil)), v);
  }

  /**
   * The new whole tree once node `x`, reached by `path`, is unlinked: a
   * node with two children gives way to its successor, otherwise its only
   * child (or nothing) takes its place; the ancestors are then rebalanced
   * from the place that lost a level, except when `x` was the root and had
   * at most one child.
   */
  method Unlink(path: seq<Frame>, x: Node) returns (root: Node)
    requires x.Node? && Valid(Plug(path, x))
    ensures Valid(root)
    ensures InOrder(root) == RemoveValue(InOrder(Plug(path, x)), x.value)
    ensures Height(Plug(path, x)) - 1 <= Height(root) <= Height(Plug(path, x))
  {
    if x.left.Node? && x.right.Node? {
      root := ReplaceBySuccessor(path, x);
    } else {
      root := ReplaceByChild(path, x);
    }
    UnlinkResult(path, x, root);
  }

  /** The two-children case of Unlink: the successor takes x's place, then the shrink loop runs. */
  method ReplaceBySuccessor(path: seq<Frame>, x: Node) returns (root: Node)
    requires x.Node? && x.left.Node? && x.right.Node? && Balanced(Plug(path, x))
    ensures Balanced(root)
    ensures InOrder(root) == Before(path) + InOrder(x.left) + InOrder(x.right) + After(path)
    ensures Height(Plug(path, x)) - 1 <= Height(root) <= Height(Plug(path, x))
  {
    var up, shrunk, _ := SwapWithSuccessor(path, x);
    root := RebalanceAfterRemove(up, shrunk);
  }

  /**
   * The other case of Unlink: the only child of `x`, or nothing, takes its
   * place, and the shrink loop runs unless `x` was the root.
   */
  method ReplaceByChild(path: seq<Frame>, x: Node) returns (root: Node)
    requires x.Node? && (x.left == Nil || x.right == Nil) && Balanced(Plug(path, x))
    ensures Balanced(root)
    ensures InOrder(root) == Before(path) + InOrder(x.left) + InOrder(x.right) + After(path)
    ensures Height(Plug(path, x)) - 1 <= Height(root) <= Height(Plug(path, x))
  {
    var child := if x.left == Nil then x.right else x.left;
    UnlinkShape(path, x);
    if path == [] {
      root := child;
    } else {
      root := RebalanceAfterRemove(path, child);
    }
  }

  /** A tree holding the values around `x` but not `x` holds the sequence without `x`. */
  lemma UnlinkResult(path: seq<Frame>, x: Node, t: Node)
    requires x.Node? && Sorted(InOrder(Plug(path, x)))
    requires InOrder(t) == Before(path) + InOrder(x.left) + InOrder(x.right) + After(path)
    ensures InOrder(t) == RemoveValue(InOrder(Plug(path, x)), x.value)
    ensures Sorted(InOrder(t))
  {
    UnlinkInOrder(path, x);
    Regroup(Before(path), InOrder(x.left), InOrder(x.right), After(path));
    RemoveValueCorrect(InOrder(Plug(path, x)), x.value);
  }

  /** Unlinking node `x` (reached by `path`) closes up the values on either side of it. */
  lemma UnlinkInOrder(path: seq<Frame>, x: Node)
    requires x.Node? && Sorted(InOrder(Plug(path, x)))
    ensures RemoveValue(InOrder(Plug(path, x)), x.value)
      == (Before(path) + InOrder(x.left)) + (InOrder(x.right) + After(path))
    ensures |RemoveValue(InOrder(Plug(path, x)), x.value)| == |InOrder(Plug(path, x))| - 1
  {
    assert InOrder(Plug(path, x))
      == (Before(path) + InOrder(x.left)) + [x.value] + (InOrder(x.right) + After(path)) by {
      PlugInOrder(path, x);
    }
    RemoveValueSplit(Before(path) + InOrder(x.left), x.value, InOrder(x.right) + After(path));
  }

  /**
   * In a balanced tree, a node with at most one child is one level above
   * that child, which holds all the values below the node.
   */
  lemma UnlinkShape(path: seq<Frame>, x: Node)
    requires x.Node? && (x.left == Nil || x.right == Nil) && Balanced(Plug(path, x))
    ensures
      var child := if x.left == Nil then x.right else x.left;
      && Balanced(child) && Fits(path, Height(child) + 1)
      && Height(Plug(path, x)) == PathHeight(path, Height(child) + 1)
      && InOrder(Plug(path, child)) == Before(path) + InOrder(x.left) + InOrder(x.right) + After(path)
  {
    PlugBalanced(path, x);
    PlugHeight(path, x);
    OneChild(x);
    ChildInOrder(path, x);
  }

  /** A balanced node with at most one child is one level above that child. */
  lemma OneChild(x: Node)
    requires x.Node? && (x.left == Nil || x.right == Nil) && Balanced(x)
    ensures var child := if x.left == Nil then x.right else x.left;
      Balanced(child) && Height(x) == Height(child) + 1
  {
  }

  /** The only child of `x`, hung in x's place, holds the values around x's own. */
  lemma ChildInOrder(path: seq<Frame>, x: Node)
    requires x.Node? && (x.left == Nil || x.right == Nil)
    ensures var child := if x.left == Nil then x.right else x.left;
      InOrder(Plug(path, child)) == Before(path) + InOrder(x.left) + InOrder(x.right) + After(path)
  {
    var child := if x.left == Nil then x.right else x.left;
    assert InOrder(child) == InOrder(x.left) + InOrder(x.right);
    PlugInOrder(path, child);
  }
}
