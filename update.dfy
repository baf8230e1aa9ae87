/**
 * The loops that restructure the tree after an insertion or a removal:
 * rebalanceAfterInsert, swapWithSuccessor and the shrink loop of Remove.
 * Each walks the path of ancestors (the parent pointers) and returns the
 * new whole tree.
 */
module AvlUpdate {
  import opened AvlNode
  import opened AvlPath
  import opened AvlRotate
  import opened AvlRebalance

  /**
   * Rebalancing after a new leaf was linked at the end of `path`: the
   * leaf's parent tilts towards it; while a parent that was 0 tilts, the
   * growth goes on upwards; it stops at the first parent that levels out or
   * is rotated, so at most one rotation (single or double) happens.
   */
  method RebalanceAfterInsert(path: seq<Frame>, inserted: Node) returns (root: Node, ghost rotations: nat)
    requires IsLeaf(inserted)
    requires Fits(path, 0)
    ensures Balanced(root)
    ensures InOrder(root) == InOrder(Plug(path, inserted))
    ensures PathHeight(path, 0) <= Height(root) <= PathHeight(path, 0) + 1
    ensures rotations <= 1
  {
    rotations := 0;
    if path == [] {
      return inserted, 0;
    }
    var parent := path[0].(balance := path[0].balance + Side(path[0]));
    LinkLeaf(path, inserted);
    if parent.balance == 0 {
      root := Plug(path[1..], Attach(parent, inserted));
      PlugFinal(path[1..], Attach(parent, inserted));
      PlugSameInOrder(path[1..], Attach(parent, inserted), Attach(path[0], inserted));
      return;
    }
    var node, up := Attach(parent, inserted), path[1..];
    PlugSameInOrder(up, node, Attach(path[0], inserted));
    var done := false;
    ghost var h0 := PathHeight(path, 0);
    while !done && up != []
      invariant Balanced(node)
      invariant InOrder(Plug(up, node)) == InOrder(Plug(path, inserted))
      invariant !done ==> Grown(up, node, h0)
      invariant done ==> Fits(up, Height(node)) && PathHeight(up, Height(node)) == h0
      invariant rotations <= (if done then 1 else 0)
      decreases |up|
    {
      var f := up[0];
      if f.balance != 0 && f.balance + Side(f) != 0 {
        rotations := rotations + 1;
      }
      node, up, done := GrowOnce(up, node, h0);
    }
    root := Plug(up, node);
    PlugFinal(up, node);
  }

  predicate IsLeaf(n: Node) {
    n.Node? && n.left == Nil && n.right == Nil && n.balance == 0
  }

  /** The subtree `node` has grown by one level and the ancestors still fit its old height. */
  ghost predicate Grown(up: seq<Frame>, node: Node, h0: nat) {
    && node.Node? && node.balance != 0 && Height(node) >= 1
    && Fits(up, Height(node) - 1)
    && PathHeight(up, Height(node) - 1) == h0
  }

  lemma PlugFinal(up: seq<Frame>, node: Node)
    ensures Balanced(Plug(up, node)) <==> Balanced(node) && Fits(up, Height(node))
    ensures Height(Plug(up, node)) == PathHeight(up, Height(node))
  {
    PlugBalanced(up, node);
    PlugHeight(up, node);
  }

  /** Linking the leaf tilts its parent; the parent's subtree grew exactly when the parent was 0. */
  lemma LinkLeaf(path: seq<Frame>, inserted: Node)
    requires IsLeaf(inserted) && path != [] && Fits(path, 0)
    ensures
      var parent := path[0].(balance := path[0].balance + Side(path[0]));
      var n := Attach(parent, inserted);
      && Balanced(n)
      && InOrder(n) == InOrder(Attach(path[0], inserted))
      && (parent.balance == 0 ==> Fits(path[1..], Height(n)) && PathHeight(path[1..], Height(n)) == PathHeight(path, 0))
      && (parent.balance != 0 ==> Grown(path[1..], n, PathHeight(path, 0)))
  {
    var f := path[0];
    var parent := f.(balance := f.balance + Side(f));
    var n := Attach(parent, inserted);
    var sib := f.sibling;
    assert Height(inserted) == 1 && Balanced(inserted);
    assert Height(sib) <= 1 && Balanced(sib) && Fits(path[1..], 1 + Max(0, Height(sib)));
    assert parent.balance == BalanceAround(f, 1);
    assert Balanced(n) && Height(n) == 2 by {
      AttachFacts(parent, inserted);
    }
    if Height(sib) == 0 {
      assert parent.balance != 0;
    } else {
      assert parent.balance == 0;
    }
  }

  /** One iteration of the growth loop: handleSubtreeGrowth at `up[0]`, then one step up. */
  method GrowOnce(up: seq<Frame>, node: Node, ghost h0: nat) returns (next: Node, rest: seq<Frame>, done: bool)
    requires up != [] && Balanced(node) && Grown(up, node, h0)
    ensures Balanced(next) && rest == up[1..]
    ensures InOrder(Plug(rest, next)) == InOrder(Plug(up, node))
    ensures done <==> up[0].balance != 0
    ensures !done ==> Grown(rest, next, h0)
    ensures done ==> Fits(rest, Height(next)) && PathHeight(rest, Height(next)) == h0
  {
    GrowthEnter(up, node, h0);
    var step := GrowthStep(node, up[0]);
    PlugSameInOrder(up[1..], step.subtree, Attach(up[0], node));
    GrowthLeave(up, Height(node), Height(step.subtree), step.stop, h0);
    next, rest, done := step.subtree, up[1..], step.stop;
  }

  /** One call of handleSubtreeGrowth, with what HandleSubtreeGrowthCorrect proves of its result. */
  method GrowthStep(node: Node, parent: Frame) returns (step: Step)
    requires GrowthContext(node, parent)
    ensures Balanced(step.subtree)
    ensures InOrder(step.subtree) == InOrder(Attach(parent, node))
    ensures step.stop <==> parent.balance != 0
    ensures Height(step.subtree) == 1 + Max(Height(node) - 1, Height(parent.sibling)) + (if step.stop then 0 else 1)
    ensures !step.stop ==> step.subtree.Node? && step.subtree.balance != 0
  {
    step := HandleSubtreeGrowth(node, parent);
    HandleSubtreeGrowthCorrect(node, parent);
  }

  /** The ancestor `up[0]` of a grown subtree meets what handleSubtreeGrowth needs. */
  lemma GrowthEnter(up: seq<Frame>, node: Node, h0: nat)
    requires up != [] && Balanced(node) && Grown(up, node, h0)
    ensures GrowthContext(node, up[0])
  {
  }

  /**
   * After one step of growth at `up[0]` above a subtree of height `h`, the
   * new subtree of height `hs` (one level taller than before the insertion
   * exactly when the step did not stop) gives the next loop state.
   */
  lemma GrowthLeave(up: seq<Frame>, h: nat, hs: nat, stop: bool, h0: nat)
    requires up != [] && h >= 1 && Fits(up, h - 1) && PathHeight(up, h - 1) == h0
    requires hs == 1 + Max(h - 1, Height(up[0].sibling)) + (if stop then 0 else 1)
    ensures stop ==> Fits(up[1..], hs) && PathHeight(up[1..], hs) == h0
    ensures !stop ==> hs >= 1 && Fits(up[1..], hs - 1) && PathHeight(up[1..], hs - 1) == h0
  {
    var oldH := 1 + Max(h - 1, Height(up[0].sibling));
    assert Fits(up[1..], oldH) && PathHeight(up[1..], oldH) == h0;
    if stop {
      assert hs == oldH;
    } else {
      assert hs - 1 == oldH;
    }
  }

  /**
   * Unlinks a node `x` with two children (reached by `above`) in favour of
   * its in-order successor `y`, the leftmost node of x.right. `y` takes
   * x's place with x's left child and balance, and x.right too unless `y`
   * is x.right itself; y's right child takes y's old place. Returned: the
   * path to that place, whose first frame is where rebalancing starts (y's
   * old parent, or `y` itself) and whose side is the side that shrank.
   */
  method SwapWithSuccessor(above: seq<Frame>, x: Node) returns (up: seq<Frame>, shrunk: Node, ghost succ: Node)
    requires x.Node? && x.left.Node? && x.right.Node?
    ensures succ.Node? && succ.left == Nil && shrunk == succ.right
    ensures |up| > |above| && Plug(up[..|up| - |above| - 1], succ) == x.right
    ensures forall f :: f in up[..|up| - |above| - 1] ==> f.onLeft
    ensures |up| == |above| + 1 <==> x.right.left == Nil
    ensures up[|up| - |above|..] == above
    ensures up[|up| - |above| - 1] == Frame(false, InOrder(x.right)[0], x.balance, x.left)
    ensures up[0].onLeft <==> x.right.left.Node?
    ensures InOrder(Plug(up, shrunk)) == Before(above) + InOrder(x.left) + InOrder(x.right) + After(above)
    ensures Balanced(Plug(above, x)) ==>
      && Balanced(shrunk) && Fits(up, Height(shrunk) + 1)
      && PathHeight(up, Height(shrunk) + 1) == Height(Plug(above, x))
  {
    var y := x.right;
    var q: seq<Frame> := [];
    if y.left != Nil {
      while y.left != Nil
        invariant y.Node? && Plug(q, y) == x.right
        invariant forall f :: f in q ==> f.onLeft
        invariant q != [] || y == x.right
        decreases y
      {
        q := [Frame(true, y.value, y.balance, y.right)] + q;
        y := y.left;
      }
    }
    up := q + [Frame(false, y.value, x.balance, x.left)] + above;
    shrunk := y.right;
    SuccessorFacts(above, x, q, y);
    succ := y;
  }

  lemma SuccessorFacts(above: seq<Frame>, x: Node, q: seq<Frame>, y: Node)
    requires x.Node? && x.left.Node? && x.right.Node? && y.Node? && y.left == Nil
    requires Plug(q, y) == x.right
    requires forall f :: f in q ==> f.onLeft
    requires q != [] || y == x.right
    ensures
      var up := q + [Frame(false, y.value, x.balance, x.left)] + above;
      && |up| > |above| && up[|up| - |above|..] == above && up[..|up| - |above| - 1] == q
      && (|up| == |above| + 1 <==> x.right.left == Nil)
      && up[|up| - |above| - 1] == Frame(false, InOrder(x.right)[0], x.balance, x.left)
      && (up[0].onLeft <==> x.right.left.Node?)
      && InOrder(Plug(up, y.right)) == Before(above) + InOrder(x.left) + InOrder(x.right) + After(above)
      && (Balanced(Plug(above, x)) ==>
        && Balanced(y.right) && Fits(up, Height(y.right) + 1)
        && PathHeight(up, Height(y.right) + 1) == Height(Plug(above, x)))
  {
    var frame := Frame(false, y.value, x.balance, x.left);
    var up := q + [frame] + above;
    assert up[|up| - |above|..] == above && up[|up| - |above| - 1] == frame;
    assert up[..|up| - |above| - 1] == q;
    if q != [] {
      LeftSpine(q, y);
    }
    assert up[0].onLeft <==> x.right.left.Node? by {
      if q != [] {
        assert up[0] == q[0] && q[0] in q;
        LeftSpine(q, y);
      }
    }
    SuccessorInOrder(above, x, q, y);
    if Balanced(Plug(above, x)) {
      SuccessorFits(above, x, q, y);
    }
  }

  lemma SuccessorInOrder(above: seq<Frame>, x: Node, q: seq<Frame>, y: Node)
    requires x.Node? && x.left.Node? && x.right.Node? && y.Node? && y.left == Nil
    requires Plug(q, y) == x.right
    requires forall f :: f in q ==> f.onLeft
    ensures
      var up := q + [Frame(false, y.value, x.balance, x.left)] + above;
      && InOrder(x.right)[0] == y.value
      && InOrder(Plug(up, y.right)) == Before(above) + InOrder(x.left) + InOrder(x.right) + After(above)
  {
    var frame := Frame(false, y.value, x.balance, x.left);
    var p := Plug(q, y.right);
    SpineInOrder(q, y);
    var up := q + [frame] + above;
    assert InOrder(Plug(up, y.right)) == Before(above) + InOrder(Attach(frame, p)) + After(above) by {
      PlugThrough(q, frame, above, y.right);
      PlugInOrder(above, Attach(frame, p));
    }
    assert InOrder(Attach(frame, p)) == InOrder(x.left) + ([y.value] + InOrder(p));
    Regroup(Before(above), InOrder(x.left), [y.value] + InOrder(p), After(above));
  }

  /** Following a left-only path up from a node without a left child, the node comes first. */
  lemma SpineInOrder(q: seq<Frame>, y: Node)
    requires y.Node? && y.left == Nil
    requires forall f :: f in q ==> f.onLeft
    ensures InOrder(Plug(q, y)) == [y.value] + InOrder(Plug(q, y.right))
  {
    BeforeAllLeft(q);
    PlugInOrder(q, y);
    PlugInOrder(q, y.right);
    assert InOrder(y) == [y.value] + InOrder(y.right);
  }

  lemma SuccessorFits(above: seq<Frame>, x: Node, q: seq<Frame>, y: Node)
    requires x.Node? && x.left.Node? && x.right.Node? && y.Node? && y.left == Nil
    requires Plug(q, y) == x.right
    requires Balanced(Plug(above, x))
    ensures
      var up := q + [Frame(false, y.value, x.balance, x.left)] + above;
      && Balanced(y.right) && Fits(up, Height(y.right) + 1)
      && PathHeight(up, Height(y.right) + 1) == Height(Plug(above, x))
  {
    var frame := Frame(false, y.value, x.balance, x.left);
    PlugBalanced(above, x);
    PlugHeight(above, x);
    PlugBalanced(q, y);
    PlugHeight(q, y);
    assert Height(y) == Height(y.right) + 1;
    assert q + [frame] + above == q + ([frame] + above);
    FitsAppend(q, [frame] + above, Height(y.right) + 1);
    FitsAppend([frame], above, Height(x.right));
    assert [frame][1..] == [];
    assert Fits([frame], Height(x.right));
    assert PathHeight([frame], Height(x.right)) == Height(x);
  }

  /**
   * The shrink loop of Remove: starting below `up[0]`, apply
   * handleSubtreeShrink at each ancestor in turn while the ancestor's
   * subtree has lost a level and an ancestor remains.
   */
  method RebalanceAfterRemove(up: seq<Frame>, shrunk: Node) returns (root: Node)
    requires up != [] && Balanced(shrunk) && Fits(up, Height(shrunk) + 1)
    ensures Balanced(root)
    ensures InOrder(root) == InOrder(Plug(up, shrunk))
    ensures PathHeight(up, Height(shrunk) + 1) - 1 <= Height(root) <= PathHeight(up, Height(shrunk) + 1)
  {
    ghost var h0 := PathHeight(up, Height(shrunk) + 1);
    var node, path := shrunk, up;
    var more := true;
    while more
      invariant Balanced(node)
      invariant InOrder(Plug(path, node)) == InOrder(Plug(up, shrunk))
      invariant Shrinking(path, Height(node), more, h0)
      decreases |path|
    {
      node, path, more := ShrinkOnce(path, node, h0);
    }
    root := Plug(path, node);
    ShrinkFinal(path, node, h0);
  }

  /** When the shrink loop ends, the whole tree is balanced and at most one level lower than before. */
  lemma ShrinkFinal(path: seq<Frame>, node: Node, h0: nat)
    requires Balanced(node) && Shrinking(path, Height(node), false, h0)
    ensures Balanced(Plug(path, node)) && h0 - 1 <= Height(Plug(path, node)) <= h0
  {
    PlugFinal(path, node);
  }

  /**
   * While `more`, the subtree (of height `h`) has lost a level and the
   * ancestors fit its old height; once done, they fit its height and the
   * whole tree is at most one level lower than `h0`.
   */
  ghost predicate Shrinking(path: seq<Frame>, h: nat, more: bool, h0: nat) {
    && (more ==> path != [] && Fits(path, h + 1) && PathHeight(path, h + 1) == h0)
    && (!more ==> Fits(path, h) && h0 - 1 <= PathHeight(path, h) <= h0)
  }

  /** One iteration of the shrink loop: handleSubtreeShrink at `path[0]`, then one step up. */
  method ShrinkOnce(path: seq<Frame>, node: Node, ghost h0: nat) returns (next: Node, rest: seq<Frame>, more: bool)
    requires Balanced(node) && Shrinking(path, Height(node), true, h0)
    ensures Balanced(next) && |rest| < |path|
    ensures InOrder(Plug(rest, next)) == InOrder(Plug(path, node))
    ensures Shrinking(rest, Height(next), more, h0)
  {
    ShrinkEnter(path, Height(node), h0);
    var step := ShrinkStep(path[0], node);
    PlugSameInOrder(path[1..], step.subtree, Attach(path[0], node));
    ShrinkLeave(path, Height(node), Height(step.subtree), step.stop, h0);
    next, rest := step.subtree, path[1..];
    more := !step.stop && rest != [];
  }

  /** One call of handleSubtreeShrink, with what HandleSubtreeShrinkCorrect proves of its result. */
  method ShrinkStep(parent: Frame, shrunk: Node) returns (step: Step)
    requires ShrinkContext(shrunk, parent)
    ensures Balanced(step.subtree)
    ensures InOrder(step.subtree) == InOrder(Attach(parent, shrunk))
    ensures step.stop <==> parent.balance == 0 || (parent.balance == -Side(parent) && parent.sibling.balance == 0)
    ensures Height(step.subtree) == 1 + Max(Height(shrunk) + 1, Height(parent.sibling)) - (if step.stop then 0 else 1)
  {
    step := HandleSubtreeShrink(parent, shrunk);
    HandleSubtreeShrinkCorrect(parent, shrunk);
  }

  /** The ancestor `path[0]` of a subtree that lost a level meets what handleSubtreeShrink needs. */
  lemma ShrinkEnter(path: seq<Frame>, h: nat, h0: nat)
    requires path != [] && Fits(path, h + 1) && PathHeight(path, h + 1) == h0
    ensures Balanced(path[0].sibling) && -1 <= path[0].balance <= 1
    ensures path[0].balance == BalanceAround(path[0], h + 1)
    ensures var oldH := 1 + Max(h + 1, Height(path[0].sibling));
      Fits(path[1..], oldH) && PathHeight(path[1..], oldH) == h0
  {
  }

  /**
   * After one step of shrinking at `path[0]` above a subtree of height `h`,
   * the new subtree of height `hs` (the ancestor's old height when the step
   * stopped, one less otherwise) leaves the remaining ancestors in the next
   * loop state.
   */
  lemma ShrinkLeave(path: seq<Frame>, h: nat, hs: nat, stop: bool, h0: nat)
    requires path != [] && Fits(path, h + 1) && PathHeight(path, h + 1) == h0
    requires hs == 1 + Max(h + 1, Height(path[0].sibling)) - (if stop then 0 else 1)
    ensures Shrinking(path[1..], hs, !stop && path[1..] != [], h0)
  {
    var oldH := 1 + Max(h + 1, Height(path[0].sibling));
    assert Fits(path[1..], oldH) && PathHeight(path[1..], oldH) == h0;
    if stop {
      assert hs == oldH;
    } else {
      assert hs + 1 == oldH;
    }
  }

  /** Plugging a node at the end of a non-empty path that only goes left gives a node with a left child. */
  lemma {:induction false} LeftSpine(q: seq<Frame>, y: Node)
    requires q != [] && y.Node?
    requires forall f :: f in q ==> f.onLeft
    ensures Plug(q, y).Node? && Plug(q, y).left.Node?
    decreases |q|
  {
    if |q| > 1 {
      assert forall f :: f in q[1..] ==> f in q;
      assert q[0] in q;
      LeftSpine(q[1..], Attach(q[0], y));
    } else {
      assert q[0] in q;
      assert Plug(q, y) == Plug(q[1..], Attach(q[0], y)) && q[1..] == [];
    }
  }
}
