/**
 * Forward iteration over the tree. The iterator holds the current node and
 * the node after it, computed before the current one is handed out, so the
 * current node may be removed from the tree between two steps.
 */
module AvlIterator {
  import opened AvlNode
  import opened AvlOrder
  import opened AvlNavigate
  import opened AvlTree

  /** The only direction an iterator can be built for: forward in order. */
  const Forward: int := 1

  /** The side every step of an iterator moves to. */
  const StepSign: int := 1

  class Iterator {
    var tree: Tree
    var cur: Option<int>
    var next: Option<int>
    var initialized: bool

    /** Once started, `next` is the successor of `cur` among the values the tree holds. */
    ghost predicate Valid()
      reads this, tree
    {
      && tree.Valid()
      && (initialized ==> next == if cur.None? then None else LeastAbove(tree.Contents(), cur.value))
    }

    /** A fresh iterator over `t`, not yet started. */
    constructor (t: Tree, direction: int)
      requires direction == Forward && t.Valid()
      ensures Valid() && tree == t && !initialized && cur == None && next == None
    {
      tree, cur, next, initialized := t, None, None, false;
    }

    /** Moves to the least value and returns it, or None for an empty tree. */
    method First() returns (r: Option<int>)
      requires Valid()
      modifies this, tree
      ensures Valid() && tree == old(tree) && tree.root == old(tree.root)
      ensures initialized && r == cur
      ensures r == if tree.Contents() == [] then None else Some(tree.Contents()[0])
    {
      cur := tree.First();
      next := None;
      if cur.Some? {
        next := Successor(tree, cur.value);
      }
      initialized := true;
      r := cur;
    }

    /** The current value; an iterator that was not started starts with First. */
    method Get() returns (r: Option<int>)
      requires Valid()
      modifies this, tree
      ensures Valid() && tree == old(tree) && tree.root == old(tree.root)
      ensures initialized && r == cur
      ensures old(initialized) ==> r == old(cur) && next == old(next)
      ensures !old(initialized) ==> r == if tree.Contents() == [] then None else Some(tree.Contents()[0])
    {
      if !initialized {
        r := First();
        return;
      }
      r := cur;
    }

    /**
     * Advances to the value computed as the next one and returns it, or
     * None at the end; an iterator that was not started starts with First
     * and then advances.
     */
    method Next() returns (r: Option<int>)
      requires Valid()
      modifies this, tree
      ensures Valid() && tree == old(tree) && tree.root == old(tree.root)
      ensures initialized && r == cur
      ensures old(initialized) ==> r == old(next)
      ensures !old(initialized) ==>
        r == if tree.Contents() == [] then None else LeastAbove(tree.Contents(), tree.Contents()[0])
    {
      if !initialized {
        var _ := First();
      }
      var prev := cur;
      cur := next;
      if next.None? {
        return None;
      }
      LeastAboveIsLeast(tree.Contents(), prev.value);
      next := Successor(tree, cur.value);
      r := cur;
    }
  }

  /** The successor of a value held by `t`, found from the node holding it. */
  method Successor(t: Tree, v: int) returns (r: Option<int>)
    requires t.Valid() && v in t.Contents()
    ensures r == LeastAbove(t.Contents(), v)
  {
    var path, n := Descend(t.root, v);
    r := NextOrPrevInOrder(path, n, StepSign);
  }

  /**
   * Hands the values to `fn` in order and stops after the first value `fn`
   * answers false to. Returned: the values handed out, a prefix of the
   * tree's in-order sequence that ends at the first refused value, or all
   * of it when `fn` accepts every value.
   */
  method ForEach(t: Tree, direction: int, fn: int -> bool) returns (visited: seq<int>)
    requires direction == Forward && t.Valid()
    modifies t
    ensures t.Valid() && t.root == old(t.root)
    ensures visited <= t.Contents()
    ensures forall j :: 0 <= j < |visited| - 1 ==> fn(visited[j])
    ensures |visited| < |t.Contents()| ==> visited != [] && !fn(visited[|visited| - 1])
  {
    var it := new Iterator(t, direction);
    ghost var s := t.Contents();
    ghost var i := 0;
    visited := [];
    var node := it.Get();
    while node.Some?
      invariant fresh(it) && it.Valid() && it.tree == t && it.initialized && node == it.cur
      invariant t.root == old(t.root) && t.Contents() == s
      invariant 0 <= i <= |s| && visited == s[..i]
      invariant forall j :: 0 <= j < i ==> fn(s[j])
      invariant node == if i < |s| then Some(s[i]) else None
      decreases |s| - i
    {
      visited := visited + [node.value];
      if !fn(node.value) {
        assert visited == s[..i + 1];
        return;
      }
      LeastAboveSplit(s[..i], s[i], s[i + 1..]);
      assert s == s[..i] + [s[i]] + s[i + 1..];
      node := it.Next();
      i := i + 1;
    }
  }
}
