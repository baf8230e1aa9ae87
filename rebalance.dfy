/**
 * The single steps of rebalancing: what happens at one ancestor when the
 * subtree below it has grown (after an insertion) or shrunk (after a
 * removal) by one level.
 */
module AvlRebalance {
  import opened AvlNode
  import opened AvlPath
  import opened AvlRotate

  /** The subtree now in the ancestor's place, and whether propagation stops there. */
  datatype Step = Step(subtree: Node, stop: bool)

  /**
   * The state in which handleSubtreeGrowth is called: `node` hangs below
   * `parent`, is balanced, has grown by one level (so its balance is not 0)
   * and the parent's stored balance still describes the old height.
   */
  ghost predicate GrowthContext(node: Node, parent: Frame) {
    && node.Node? && Balanced(node) && node.balance != 0
    && Balanced(parent.sibling)
    && -1 <= parent.balance <= 1
    && parent.balance == BalanceAround(parent, Height(node) - 1)
  }

  /**
   * One step of insertion rebalancing at `parent`, whose child `node` (on
   * side `sign`) has grown: a parent that was 0 tilts towards `sign` and
   * propagation goes on; a parent tilted the other way becomes 0 and it
   * stops; otherwise a single rotation (when `node` leans the same way) or a
   * double rotation restores balance and it stops.
   */
  function HandleSubtreeGrowth(node: Node, parent: Frame): (r: Step)
    requires GrowthContext(node, parent)
  {
    var sign := Side(parent);
    var p := Attach(parent, node);
    AttachAsBuild(parent, node);
    if parent.balance == 0 then Step(AdjustBalance(p, sign), false)
    else if parent.balance + sign == 0 then Step(AdjustBalance(p, sign), true)
    else if sign * node.balance > 0 then
      var rotated := Rotate(p, -sign);
      Step(AdjustBalance(AdjustChildBalance(rotated, -sign, -sign), -sign), true)
    else
      assert Height(Child(node, -sign)) > 0 by { BuildChildren(node, sign); BuildFacts(sign, Child(node, -sign), node.value, node.balance, Child(node, sign)); }
      Step(DoubleRotate(p, -sign), true)
  }

  /**
   * Insertion rebalancing at one ancestor is right: the result is balanced,
   * keeps the in-order sequence, and propagation goes on exactly when the
   * ancestor was 0 -- the one case where the ancestor's subtree has grown
   * (and then its balance is not 0). Stopping means the subtree's height
   * is what it was before the insertion.
   */
  lemma HandleSubtreeGrowthCorrect(node: Node, parent: Frame)
    requires GrowthContext(node, parent)
    ensures var r := HandleSubtreeGrowth(node, parent);
      && Balanced(r.subtree)
      && InOrder(r.subtree) == InOrder(Attach(parent, node))
      && (r.stop <==> parent.balance != 0)
      && Height(r.subtree) == 1 + Max(Height(node) - 1, Height(parent.sibling)) + (if r.stop then 0 else 1)
      && (!r.stop ==> r.subtree.balance != 0)
  {
    var sign := Side(parent);
    AttachAsBuild(parent, node);
    if parent.balance == 0 || parent.balance + sign == 0 {
      GrowthAdjust(node, parent);
    } else if sign * node.balance > 0 {
      GrowthSingle(node, parent);
      GrowthSingleIs(node, parent);
    } else {
      GrowthDouble(node, parent);
      GrowthDoubleIs(node, parent);
    }
  }

  lemma GrowthAdjust(node: Node, parent: Frame)
    requires GrowthContext(node, parent)
    requires parent.balance == 0 || parent.balance + Side(parent) == 0
    ensures var t := AdjustBalance(Attach(parent, node), Side(parent));
      && Balanced(t)
      && Height(t) == 1 + Max(Height(node) - 1, Height(parent.sibling)) + (if parent.balance == 0 then 1 else 0)
      && (parent.balance == 0 ==> t.balance != 0)
  {
    var sign := Side(parent);
    AttachAsBuild(parent, node);
    var t := Build(sign, parent.sibling, parent.value, parent.balance + sign, node);
    assert AdjustBalance(Attach(parent, node), sign) == t;
    BuildFacts(sign, parent.sibling, parent.value, parent.balance + sign, node);
  }

  /** The single rotation of an ancestor whose child on side `sign` is `node`, followed by lowering both balances by `sign`. */
  lemma SingleRotationShape(node: Node, parent: Frame, sign: int)
    requires node.Node? && sign == Side(parent)
    ensures
      var inner, outer := Child(node, -sign), Child(node, sign);
      var lower := Build(-sign, inner, parent.value, parent.balance - sign, parent.sibling);
      var top := Build(-sign, outer, node.value, node.balance - sign, lower);
      && AdjustBalance(AdjustChildBalance(Rotate(Attach(parent, node), -sign), -sign, -sign), -sign) == top
      && InOrder(top) == InOrder(Attach(parent, node))
  {
    var inner, outer := Child(node, -sign), Child(node, sign);
    AttachAsBuild(parent, node);
    var p := Attach(parent, node);
    var rotated := Rotate(p, -sign);
    assert rotated == Build(-sign, outer, node.value, node.balance,
      Build(-sign, inner, parent.value, parent.balance, parent.sibling));
    var lower := Build(-sign, inner, parent.value, parent.balance - sign, parent.sibling);
    var top := Build(-sign, outer, node.value, node.balance - sign, lower);
    BuildInOrder(-sign, inner, parent.value, parent.balance - sign, parent.sibling);
    BuildInOrder(-sign, inner, parent.value, parent.balance, parent.sibling);
    BuildInOrder(-sign, outer, node.value, node.balance - sign, lower);
    BuildInOrder(-sign, outer, node.value, node.balance, Build(-sign, inner, parent.value, parent.balance, parent.sibling));
  }

  lemma GrowthSingle(node: Node, parent: Frame)
    requires GrowthContext(node, parent)
    requires parent.balance != 0 && parent.balance + Side(parent) != 0
    requires Side(parent) * node.balance > 0
    ensures var sign := Side(parent);
      var t := AdjustBalance(AdjustChildBalance(Rotate(Attach(parent, node), -sign), -sign, -sign), -sign);
      && Balanced(t)
      && InOrder(t) == InOrder(Attach(parent, node))
      && Height(t) == 1 + Max(Height(node) - 1, Height(parent.sibling))
  {
    var sign := Side(parent);
    var sib := parent.sibling;
    var h := Height(node) - 1;
    var inner, outer := Child(node, -sign), Child(node, sign);
    var lower := Build(-sign, inner, parent.value, parent.balance - sign, sib);
    var top := Build(-sign, outer, node.value, node.balance - sign, lower);
    SingleRotationShape(node, parent, sign);
    GrowthSingleHeights(node, parent);
    assert Balanced(lower) && Height(lower) == h by {
      BuildFacts(-sign, inner, parent.value, parent.balance - sign, sib);
    }
    BuildFacts(-sign, outer, node.value, node.balance - sign, lower);
  }

  /** Before a single rotation at insertion: the parent and `node` both lean towards `node`'s side. */
  lemma GrowthSingleHeights(node: Node, parent: Frame)
    requires GrowthContext(node, parent)
    requires parent.balance != 0 && parent.balance + Side(parent) != 0
    requires Side(parent) * node.balance > 0
    ensures var sign, h := Side(parent), Height(node) - 1;
      && parent.balance == sign && Height(parent.sibling) == h - 1 && node.balance == sign
      && Height(Child(node, sign)) == h && Height(Child(node, -sign)) == h - 1
      && Balanced(Child(node, sign)) && Balanced(Child(node, -sign))
  {
    var sign := Side(parent);
    AttachAsBuild(parent, node);
    assert node.balance == sign by {
      if sign > 0 {
      } else {
      }
    }
    BuildChildren(node, sign);
    BuildFacts(sign, Child(node, -sign), node.value, node.balance, Child(node, sign));
  }

  lemma GrowthSingleIs(node: Node, parent: Frame)
    requires GrowthContext(node, parent)
    requires parent.balance != 0 && parent.balance + Side(parent) != 0
    requires Side(parent) * node.balance > 0
    ensures HandleSubtreeGrowth(node, parent).subtree ==
      AdjustBalance(AdjustChildBalance(Rotate(Attach(parent, node), -Side(parent)), -Side(parent), -Side(parent)), -Side(parent))
  {
  }

  lemma GrowthDouble(node: Node, parent: Frame)
    requires GrowthContext(node, parent)
    requires parent.balance != 0 && parent.balance + Side(parent) != 0
    requires Side(parent) * node.balance <= 0
    ensures Child(node, -Side(parent)).Node?
    ensures var t := DoubleRotate(Attach(parent, node), -Side(parent));
      && Balanced(t)
      && InOrder(t) == InOrder(Attach(parent, node))
      && Height(t) == 1 + Max(Height(node) - 1, Height(parent.sibling))
  {
    var sign := Side(parent);
    var h := Height(node) - 1;
    var p := Attach(parent, node);
    assert p == Build(sign, parent.sibling, parent.value, parent.balance, node)
      && parent.balance == sign && Height(parent.sibling) == h - 1 by {
      AttachAsBuild(parent, node);
    }
    var inner, outer := Child(node, -sign), Child(node, sign);
    assert node.balance == -sign by {
      if sign > 0 {
      } else {
      }
    }
    assert Balanced(inner) && Balanced(outer) && Height(inner) == h && Height(outer) == h - 1 by {
      BuildChildren(node, sign);
      BuildFacts(sign, inner, node.value, node.balance, outer);
    }
    DoubleRotateBalanced(p, -sign);
  }

  lemma GrowthDoubleIs(node: Node, parent: Frame)
    requires GrowthContext(node, parent)
    requires parent.balance != 0 && parent.balance + Side(parent) != 0
    requires Side(parent) * node.balance <= 0
    requires Child(node, -Side(parent)).Node?
    ensures HandleSubtreeGrowth(node, parent).subtree == DoubleRotate(Attach(parent, node), -Side(parent))
  {
  }

  /**
   * The state in which handleSubtreeShrink is called: the child `shrunk`
   * hangs below `parent`, is balanced, has lost one level, and the parent's
   * stored balance still describes the old height.
   */
  ghost predicate ShrinkContext(shrunk: Node, parent: Frame) {
    && Balanced(shrunk)
    && Balanced(parent.sibling)
    && -1 <= parent.balance <= 1
    && parent.balance == BalanceAround(parent, Height(shrunk) + 1)
  }

  /**
   * One step of removal rebalancing at `parent`, whose child `shrunk` has
   * lost a level; `sign` is +1 when the left side shrank. A parent that was
   * 0 tilts towards `sign` and propagation stops; a parent tilted towards
   * the shrunk side becomes 0 and it goes on; otherwise the taller child
   * `node` is rotated up: singly when it leans towards `sign` or not at all
   * (stopping exactly when it did not lean), doubly otherwise (going on).
   */
  function HandleSubtreeShrink(parent: Frame, shrunk: Node): (r: Step)
    requires ShrinkContext(shrunk, parent)
  {
    var sign := -Side(parent);
    var p := Attach(parent, shrunk);
    AttachAsBuild(parent, shrunk);
    if parent.balance == 0 then Step(AdjustBalance(p, sign), true)
    else if parent.balance + sign == 0 then Step(AdjustBalance(p, sign), false)
    else
      var node := Child(p, sign);
      assert node == parent.sibling && Height(node) > 0;
      if sign * node.balance >= 0 then
        var rotated := Rotate(p, -sign);
        if node.balance == 0 then Step(AdjustBalance(rotated, -sign), true)
        else Step(AdjustBalance(AdjustChildBalance(rotated, -sign, -sign), -sign), false)
      else
        assert Height(Child(node, -sign)) > 0 by { BuildChildren(node, sign); BuildFacts(sign, Child(node, -sign), node.value, node.balance, Child(node, sign)); }
        Step(DoubleRotate(p, -sign), false)
  }

  /**
   * Removal rebalancing at one ancestor is right: the result is balanced,
   * keeps the in-order sequence, and has lost a level exactly when
   * propagation goes on. It stops exactly when the ancestor was 0, or when
   * it was tilted away from the shrunk side and a single rotation lifted a
   * taller child whose balance was 0.
   */
  lemma HandleSubtreeShrinkCorrect(parent: Frame, shrunk: Node)
    requires ShrinkContext(shrunk, parent)
    ensures var r := HandleSubtreeShrink(parent, shrunk);
      && Balanced(r.subtree)
      && InOrder(r.subtree) == InOrder(Attach(parent, shrunk))
      && (r.stop <==> parent.balance == 0 || (parent.balance == -Side(parent) && parent.sibling.balance == 0))
      && Height(r.subtree) == 1 + Max(Height(shrunk) + 1, Height(parent.sibling)) - (if r.stop then 0 else 1)
  {
    var sign := -Side(parent);
    AttachAsBuild(parent, shrunk);
    if parent.balance == 0 || parent.balance + sign == 0 {
      ShrinkAdjust(parent, shrunk);
    } else if sign * parent.sibling.balance >= 0 {
      ShrinkSingle(parent, shrunk);
      ShrinkSingleIs(parent, shrunk);
    } else {
      ShrinkDouble(parent, shrunk);
    }
  }

  lemma ShrinkAdjust(parent: Frame, shrunk: Node)
    requires ShrinkContext(shrunk, parent)
    requires parent.balance == 0 || parent.balance == Side(parent)
    ensures var t := AdjustBalance(Attach(parent, shrunk), -Side(parent));
      && Balanced(t)
      && Height(t) == 1 + Max(Height(shrunk) + 1, Height(parent.sibling)) - (if parent.balance == 0 then 0 else 1)
  {
    var sign := Side(parent);
    AttachAsBuild(parent, shrunk);
    var t := Build(sign, parent.sibling, parent.value, parent.balance - sign, shrunk);
    assert AdjustBalance(Attach(parent, shrunk), -sign) == t;
    BuildFacts(sign, parent.sibling, parent.value, parent.balance - sign, shrunk);
  }

  /** The subtree a single rotation at removal leaves: `node`'s balance decides whether `parent`'s is lowered too. */
  function ShrinkRotated(parent: Frame, shrunk: Node): Node
    requires parent.sibling.Node?
  {
    var sign := -Side(parent);
    AttachAsBuild(parent, shrunk);
    var rotated := Rotate(Attach(parent, shrunk), -sign);
    if parent.sibling.balance == 0 then AdjustBalance(rotated, -sign)
    else AdjustBalance(AdjustChildBalance(rotated, -sign, -sign), -sign)
  }

  lemma ShrinkSingleIs(parent: Frame, shrunk: Node)
    requires ShrinkContext(shrunk, parent)
    requires parent.balance == -Side(parent)
    requires -Side(parent) * parent.sibling.balance >= 0
    ensures parent.sibling.Node?
    ensures HandleSubtreeShrink(parent, shrunk) == Step(ShrinkRotated(parent, shrunk), parent.sibling.balance == 0)
  {
    AttachAsBuild(parent, shrunk);
  }

  lemma ShrinkSingle(parent: Frame, shrunk: Node)
    requires ShrinkContext(shrunk, parent)
    requires parent.balance == -Side(parent)
    requires -Side(parent) * parent.sibling.balance >= 0
    ensures parent.sibling.Node?
    ensures var t := ShrinkRotated(parent, shrunk);
      && Balanced(t)
      && InOrder(t) == InOrder(Attach(parent, shrunk))
      && Height(t) == 1 + Max(Height(shrunk) + 1, Height(parent.sibling)) - (if parent.sibling.balance == 0 then 0 else 1)
  {
    var sign := -Side(parent);
    var node := parent.sibling;
    var h := Height(shrunk);
    ShrinkSingleShape(parent, shrunk);
    var inner, outer := Child(node, -sign), Child(node, sign);
    var lower := Build(-sign, inner, parent.value, parent.balance, shrunk);
    var rotated := Build(-sign, outer, node.value, node.balance, lower);
    BuildInOrderBalance(-sign, outer, node.value, node.balance, lower);
    if node.balance == 0 {
      assert ShrinkRotated(parent, shrunk) == Build(-sign, outer, node.value, -sign, lower);
      RotationStops(sign, shrunk, parent.value, inner, node.value, outer);
    } else {
      var lower' := Build(-sign, inner, parent.value, 0, shrunk);
      assert ShrinkRotated(parent, shrunk) == Build(-sign, outer, node.value, 0, lower');
      BuildInOrderBalance(-sign, inner, parent.value, parent.balance, shrunk);
      RotationGoesOn(sign, shrunk, parent.value, inner, node.value, outer);
    }
  }

  /**
   * Before a single rotation at removal: the parent leans towards its
   * child `node` on side `sign`, which leans that way or not at all, and
   * the rotation lifts `node` over the parent.
   */
  lemma ShrinkSingleShape(parent: Frame, shrunk: Node)
    requires ShrinkContext(shrunk, parent)
    requires parent.balance == -Side(parent)
    requires -Side(parent) * parent.sibling.balance >= 0
    ensures var sign, node, h := -Side(parent), parent.sibling, Height(shrunk);
      && node.Node? && Height(node) == h + 2 && parent.balance == sign
      && (node.balance == 0 || node.balance == sign)
      && Balanced(Child(node, -sign)) && Balanced(Child(node, sign))
      && Height(Child(node, sign)) == h + 1
      && Height(Child(node, -sign)) == (if node.balance == 0 then h + 1 else h)
      && Rotate(Attach(parent, shrunk), -sign) ==
        Build(-sign, Child(node, sign), node.value, node.balance,
          Build(-sign, Child(node, -sign), parent.value, parent.balance, shrunk))
  {
    var sign := -Side(parent);
    var node := parent.sibling;
    var h := Height(shrunk);
    var p := Attach(parent, shrunk);
    assert Height(node) == h + 2 && p == Build(sign, shrunk, parent.value, parent.balance, node) by {
      AttachAsBuild(parent, shrunk);
      BuildFlip(sign, parent.sibling, parent.value, parent.balance, shrunk);
    }
    var inner, outer := Child(node, -sign), Child(node, sign);
    assert node == Build(sign, inner, node.value, node.balance, outer) by {
      BuildChildren(node, sign);
    }
    assert node.balance == 0 || node.balance == sign by {
      if sign > 0 {
      } else {
      }
    }
    BuildFacts(sign, inner, node.value, node.balance, outer);
    RotateBuild(sign, shrunk, parent.value, parent.balance, inner, node.value, node.balance, outer);
  }

  /** The single rotation that stops the shrink: the lifted child had balance 0, the height is kept. */
  lemma RotationStops(sign: int, x: Node, pv: int, inner: Node, nv: int, outer: Node)
    requires IsSign(sign) && Balanced(x) && Balanced(inner) && Balanced(outer)
    requires Height(inner) == Height(x) + 1 && Height(outer) == Height(x) + 1
    ensures var top := Build(-sign, outer, nv, -sign, Build(-sign, inner, pv, sign, x));
      Balanced(top) && Height(top) == Height(x) + 3
  {
    BuildFacts(-sign, inner, pv, sign, x);
    BuildFacts(-sign, outer, nv, -sign, Build(-sign, inner, pv, sign, x));
  }

  /** The single rotation after which the shrink goes on: both nodes end level, one level lower. */
  lemma RotationGoesOn(sign: int, x: Node, pv: int, inner: Node, nv: int, outer: Node)
    requires IsSign(sign) && Balanced(x) && Balanced(inner) && Balanced(outer)
    requires Height(inner) == Height(x) && Height(outer) == Height(x) + 1
    ensures var top := Build(-sign, outer, nv, 0, Build(-sign, inner, pv, 0, x));
      Balanced(top) && Height(top) == Height(x) + 2
  {
    BuildFacts(-sign, inner, pv, 0, x);
    BuildFacts(-sign, outer, nv, 0, Build(-sign, inner, pv, 0, x));
  }

  lemma ShrinkDouble(parent: Frame, shrunk: Node)
    requires ShrinkContext(shrunk, parent)
    requires parent.balance == -Side(parent)
    requires -Side(parent) * parent.sibling.balance < 0
    ensures var t := HandleSubtreeShrink(parent, shrunk).subtree;
      && Balanced(t)
      && InOrder(t) == InOrder(Attach(parent, shrunk))
      && Height(t) == Height(parent.sibling)
  {
    var sign := -Side(parent);
    var node := parent.sibling;
    var h := Height(shrunk);
    var p := Attach(parent, shrunk);
    assert Height(node) == h + 2 && p == Build(sign, shrunk, parent.value, parent.balance, node) by {
      AttachAsBuild(parent, shrunk);
      BuildFlip(sign, parent.sibling, parent.value, parent.balance, shrunk);
    }
    var inner, outer := Child(node, -sign), Child(node, sign);
    assert node.balance == -sign by {
      if sign > 0 {
      } else {
      }
    }
    assert Balanced(inner) && Balanced(outer) && Height(inner) == h + 1 && Height(outer) == h by {
      BuildChildren(node, sign);
      BuildFacts(sign, inner, node.value, node.balance, outer);
    }
    assert HandleSubtreeShrink(parent, shrunk).subtree == DoubleRotate(p, -sign);
    DoubleRotateBalanced(p, -sign);
  }
}
