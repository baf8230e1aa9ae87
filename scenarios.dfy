/**
 * The behaviour the test suite checks, stated as client methods of the
 * tree and its iterator.
 */
module AvlScenarios {
  import opened AvlNode
  import opened AvlOrder
  import opened AvlTree
  import opened AvlIterator

  /** On a new tree, Len is 0 and First, Last and a new iterator's First and Next all find nothing. */
  method EmptyTree() returns (n: int, least: Option<int>, greatest: Option<int>, start: Option<int>, after: Option<int>)
    ensures n == 0 && least == None && greatest == None && start == None && after == None
  {
    var t := new Tree();
    n := t.Len();
    least := t.First();
    greatest := t.Last();
    var it := new Iterator(t, Forward);
    start := it.First();
    after := it.Next();
  }

  /**
   * A walk with First and Next hands out every value in ascending order,
   * and Get returns the value the walk is at.
   */
  method WalkForward(t: Tree) returns (walked: seq<int>)
    requires t.Valid()
    modifies t
    ensures t.Valid() && t.root == old(t.root)
    ensures walked == t.Contents()
  {
    var it := new Iterator(t, Forward);
    ghost var s := t.Contents();
    ghost var i := 0;
    walked := [];
    var node := it.First();
    while node.Some?
      invariant fresh(it) && it.Valid() && it.tree == t && it.initialized && node == it.cur
      invariant t.root == old(t.root) && t.Contents() == s
      invariant 0 <= i <= |s| && walked == s[..i]
      invariant node == if i < |s| then Some(s[i]) else None
      decreases |s| - i
    {
      var got := it.Get();
      assert got == node;
      walked := walked + [got.value];
      LeastAboveSplit(s[..i], s[i], s[i + 1..]);
      assert s == s[..i] + [s[i]] + s[i + 1..];
      node := it.Next();
      i := i + 1;
    }
  }

  /** ForEach with a visitor that always goes on hands out every value in ascending order. */
  method VisitAll(t: Tree) returns (visited: seq<int>)
    requires t.Valid()
    modifies t
    ensures t.Valid() && visited == t.Contents()
  {
    visited := ForEach(t, Forward, _ => true);
    assert |visited| == |t.Contents()|;
    assert visited == t.Contents()[..|visited|];
  }

  /**
   * Inserting a value makes Find return it; removing it again makes Find
   * return None, and the size goes up and back down by one.
   */
  method InsertFindRemove(t: Tree, v: int) returns (found: Option<int>, gone: Option<int>)
    requires t.Valid() && v !in t.Contents()
    modifies t
    ensures t.Valid() && t.Contents() == old(t.Contents()) && t.size == old(t.size)
    ensures found == Some(v) && gone == None
  {
    ghost var s := t.Contents();
    var r := t.Insert(v);
    InsertSortedCorrect(s, v);
    found := t.Find(r);
    var outcome := t.Remove(r);
    RemoveValueCorrect(t.Contents(), v);
    InsertThenRemove(s, v);
    gone := t.Find(v);
  }

  /**
   * Walks the tree with an iterator that was not started and removes the
   * current node after each step: every value is visited in order, the
   * least value of the tree is the current one at each step, and the tree
   * ends empty.
   */
  method RemoveWhileIterating(t: Tree) returns (visited: seq<int>, firsts: seq<int>)
    requires t.Valid()
    modifies t
    ensures t.Valid() && t.Contents() == [] && t.size == 0
    ensures visited == old(t.Contents()) && firsts == visited
  {
    var it := new Iterator(t, Forward);
    ghost var s := t.Contents();
    ghost var i := 0;
    visited, firsts := [], [];
    var node := it.Get();
    while node.Some?
      invariant fresh(it) && it.Valid() && it.tree == t && it.initialized && node == it.cur
      invariant 0 <= i <= |s| && t.Contents() == s[i..]
      invariant visited == s[..i] && firsts == s[..i]
      invariant node == if i < |s| then Some(s[i]) else None
      decreases |s| - i
    {
      visited := visited + [node.value];
      var least := t.First();
      firsts := firsts + [least.value];
      RemoveLeast(s[i..]);
      assert s[i..][1..] == s[i + 1..];
      var _ := t.Remove(node.value);
      node := it.Next();
      i := i + 1;
    }
  }

  /**
   * Removing the least value of an ascending sequence leaves the rest, and
   * the successor of the removed value is unchanged by its removal.
   */
  lemma RemoveLeast(u: seq<int>)
    requires Sorted(u) && u != []
    ensures RemoveValue(u, u[0]) == u[1..]
    ensures LeastAbove(u[1..], u[0]) == LeastAbove(u, u[0])
    ensures LeastAbove(u, u[0]) == if |u| > 1 then Some(u[1]) else None
  {
    assert u == [] + [u[0]] + u[1..];
    RemoveValueSplit([], u[0], u[1..]);
    LeastAboveRemove(u, u[0], u[0]);
    LeastAboveSplit([], u[0], u[1..]);
  }
}
