/**
 * The read-only walks over the tree: the descent that Find and Insert
 * share, the leftmost/rightmost descent of firstOrLastInOrder, and the
 * in-order neighbour of a node (nextOrPrevInOrder), which climbs parent
 * pointers, here the frames of the node's path.
 */
module AvlNavigate {
  import opened AvlNode
  import opened AvlPath
  import opened AvlOrder

  /**
   * Descends from `root` comparing `v` with each node, going left when `v`
   * is smaller and right when it is larger, and stops at a node equal to
   * `v` or at the empty slot where `v` belongs. Returned: the path of the
   * visited ancestors and what is found at its end.
   */
  method Descend(root: Node, v: int) returns (path: seq<Frame>, cur: Node)
    requires Sorted(InOrder(root))
    ensures Plug(path, cur) == root
    ensures cur.Node? ==> cur.value == v
    ensures cur == Nil <==> v !in InOrder(root)
    ensures forall x :: x in Before(path) ==> x < v
    ensures forall x :: x in After(path) ==> v < x
  {
    path, cur := [], root;
    while cur != Nil
      invariant Plug(path, cur) == root
      invariant Sorted(InOrder(cur))
      invariant Around(path, v)
      decreases cur
    {
      var c := Cmp(v, cur.value);
      if c == 0 {
        break;
      }
      var goLeft := c < 0;
      DescendStep(path, cur, v, goLeft);
      path := [Frame(goLeft, cur.value, cur.balance, if goLeft then cur.right else cur.left)] + path;
      cur := if goLeft then cur.left else cur.right;
    }
    PlugInOrder(path, cur);
    if cur.Node? {
      assert InOrder(cur) == InOrder(cur.left) + [v] + InOrder(cur.right);
    }
  }

  /** Every value before the position is below `v` and every value after it is above `v`. */
  ghost predicate Around(path: seq<Frame>, v: int) {
    && (forall x :: x in Before(path) ==> x < v)
    && (forall x :: x in After(path) ==> v < x)
  }

  /** Going from `cur` to its child on the side `v` lies keeps `v` between what comes before and after. */
  lemma DescendStep(path: seq<Frame>, cur: Node, v: int, goLeft: bool)
    requires cur.Node? && Sorted(InOrder(cur)) && Around(path, v)
    requires goLeft <==> v < cur.value
    requires v != cur.value
    ensures
      var next := if goLeft then cur.left else cur.right;
      var path' := [Frame(goLeft, cur.value, cur.balance, if goLeft then cur.right else cur.left)] + path;
      && Plug(path', next) == Plug(path, cur)
      && Sorted(InOrder(next))
      && Around(path', v)
  {
    var f := Frame(goLeft, cur.value, cur.balance, if goLeft then cur.right else cur.left);
    var path' := [f] + path;
    assert path'[0] == f && path'[1..] == path;
    SortedNode(cur.left, cur.value, cur.balance, cur.right);
  }

  /**
   * The leftmost value (sign < 0) or the rightmost value (sign > 0) of the
   * tree, found by following the children on side `sign`; None for an
   * empty tree.
   */
  method FirstOrLastInOrder(root: Node, sign: int) returns (r: Option<int>)
    requires IsSign(sign)
    ensures r.None? <==> root == Nil
    ensures r.Some? && sign < 0 ==> r.value == InOrder(root)[0]
    ensures r.Some? && sign > 0 ==> r.value == InOrder(root)[|InOrder(root)| - 1]
  {
    if root == Nil {
      return None;
    }
    var first := root;
    while Child(first, sign) != Nil
      invariant first.Node?
      invariant sign < 0 ==> InOrder(first)[0] == InOrder(root)[0]
      invariant sign > 0 ==> InOrder(first)[|InOrder(first)| - 1] == InOrder(root)[|InOrder(root)| - 1]
      decreases first
    {
      first := Child(first, sign);
    }
    r := Some(first.value);
  }

  /**
   * The in-order successor (sign > 0) or predecessor (sign < 0) of the node
   * `n` reached by `path`: the extreme node on side -sign of n's child on
   * side `sign` when there is one, otherwise the first ancestor that `n`
   * does not hang on side `sign` of, and None at the end of the order.
   */
  method NextOrPrevInOrder(path: seq<Frame>, n: Node, sign: int) returns (r: Option<int>)
    requires IsSign(sign) && n.Node? && Sorted(InOrder(Plug(path, n)))
    ensures sign > 0 ==> r == LeastAbove(InOrder(Plug(path, n)), n.value)
    ensures sign < 0 ==> r == GreatestBelow(InOrder(Plug(path, n)), n.value)
  {
    NeighbourCases(path, n, sign);
    var next := Child(n, sign);
    if next != Nil {
      while Child(next, -sign) != Nil
        invariant next.Node? && Extreme(next, -sign) == Extreme(Child(n, sign), -sign)
        decreases next
      {
        ExtremeStep(next, -sign);
        next := Child(next, -sign);
      }
      ExtremeStep(next, -sign);
      r := Some(next.value);
    } else {
      var up := path;
      while up != [] && Side(up[0]) == sign
        invariant FirstTurn(up, sign) == FirstTurn(path, sign)
        decreases |up|
      {
        up := up[1..];
      }
      r := if up == [] then None else Some(up[0].value);
    }
  }

  /** The first value (side < 0) or the last value (side > 0) of a non-empty subtree. */
  ghost function Extreme(t: Node, side: int): int
    requires t.Node?
  {
    if side < 0 then InOrder(t)[0] else InOrder(t)[|InOrder(t)| - 1]
  }

  /** The extreme value on side `side` is that of the child on that side, or the node's own when there is none. */
  lemma ExtremeStep(t: Node, side: int)
    requires IsSign(side) && t.Node?
    ensures Child(t, side).Node? ==> Extreme(Child(t, side), side) == Extreme(t, side)
    ensures Child(t, side) == Nil ==> Extreme(t, side) == t.value
  {
    var l, r := InOrder(t.left), InOrder(t.right);
    assert InOrder(t) == l + [t.value] + r;
    if side < 0 && t.left.Node? {
      assert InOrder(t)[0] == l[0];
    } else if side > 0 && t.right.Node? {
      assert InOrder(t)[|InOrder(t)| - 1] == r[|r| - 1];
    }
  }

  /**
   * The value of the first ancestor the position does not hang on side
   * `sign` of, or None when it hangs on side `sign` all the way up.
   */
  function FirstTurn(path: seq<Frame>, sign: int): Option<int>
    decreases |path|
  {
    if path == [] then None
    else if Side(path[0]) == sign then FirstTurn(path[1..], sign)
    else Some(path[0].value)
  }

  /** The first turn right-to-left going up is the first value after the position. */
  lemma {:induction false} FirstTurnAfter(path: seq<Frame>)
    ensures FirstTurn(path, 1) == if After(path) == [] then None else Some(After(path)[0])
    decreases |path|
  {
    if path != [] {
      FirstTurnAfter(path[1..]);
    }
  }

  /** The first turn left-to-right going up is the last value before the position. */
  lemma {:induction false} FirstTurnBefore(path: seq<Frame>)
    ensures FirstTurn(path, -1) == if Before(path) == [] then None else Some(Before(path)[|Before(path)| - 1])
    decreases |path|
  {
    if path != [] {
      FirstTurnBefore(path[1..]);
    }
  }

  /**
   * The in-order neighbour of `n` on side `sign` is the extreme value on
   * side -sign of its child on side `sign` when there is one, and the first
   * turn of its path otherwise.
   */
  lemma NeighbourCases(path: seq<Frame>, n: Node, sign: int)
    requires IsSign(sign) && n.Node? && Sorted(InOrder(Plug(path, n)))
    ensures sign > 0 ==>
      LeastAbove(InOrder(Plug(path, n)), n.value) ==
        if Child(n, sign).Node? then Some(Extreme(Child(n, sign), -sign)) else FirstTurn(path, sign)
    ensures sign < 0 ==>
      GreatestBelow(InOrder(Plug(path, n)), n.value) ==
        if Child(n, sign).Node? then Some(Extreme(Child(n, sign), -sign)) else FirstTurn(path, sign)
  {
    var s := InOrder(Plug(path, n));
    var a, b := Before(path) + InOrder(n.left), InOrder(n.right) + After(path);
    assert s == a + [n.value] + b by {
      PlugInOrder(path, n);
    }
    if sign > 0 {
      LeastAboveSplit(a, n.value, b);
      FirstTurnAfter(path);
    } else {
      GreatestBelowSplit(a, n.value, b);
      FirstTurnBefore(path);
    }
  }
}
