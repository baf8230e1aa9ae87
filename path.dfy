/**
 * The chain of parent pointers from a node up to the root.
 *
 * A path lists, innermost first, the ancestors of a position in the tree.
 * Each frame records one ancestor: on which side of it the position hangs,
 * its value, its stored balance factor and its other child. Following a
 * `parent` pointer is dropping the first frame; writing a new child into the
 * parent's slot (or into `root` when there is no parent) is `Plug`.
 */
module AvlPath {
  import opened AvlNode

  /** `onLeft` holds when the position is the ancestor's left child. */
  datatype Frame = Frame(onLeft: bool, value: int, balance: int, sibling: Node)

  /** The side of the ancestor the position hangs on: -1 for left, +1 for right. */
  function Side(f: Frame): (sign: int)
    ensures IsSign(sign)
  {
    if f.onLeft then -1 else 1
  }

  /** The ancestor of frame `f` with `t` hung in the position. */
  function Attach(f: Frame, t: Node): (n: Node)
    ensures n.Node? && n.value == f.value && n.balance == f.balance
  {
    if f.onLeft then Node(t, f.value, f.balance, f.sibling)
    else Node(f.sibling, f.value, f.balance, t)
  }

  /** The whole tree obtained by hanging `t` in the position the path leads to. */
  function Plug(path: seq<Frame>, t: Node): Node
    decreases |path|
  {
    if path == [] then t else Plug(path[1..], Attach(path[0], t))
  }

  /** The values that come before the position, in order. */
  function Before(path: seq<Frame>): seq<int>
    decreases |path|
  {
    if path == [] then []
    else
      var f := path[0];
      Before(path[1..]) + (if f.onLeft then [] else InOrder(f.sibling) + [f.value])
  }

  /** The values that come after the position, in order. */
  function After(path: seq<Frame>): seq<int>
    decreases |path|
  {
    if path == [] then []
    else
      var f := path[0];
      (if f.onLeft then [f.value] + InOrder(f.sibling) else []) + After(path[1..])
  }

  /** The balance factor frame `f` must hold when the position has height `h`. */
  function BalanceAround(f: Frame, h: int): int {
    if f.onLeft then Height(f.sibling) - h else h - Height(f.sibling)
  }

  /** Height of the whole tree when the position holds a subtree of height `h`. */
  function PathHeight(path: seq<Frame>, h: nat): nat
    decreases |path|
  {
    if path == [] then h else PathHeight(path[1..], 1 + Max(h, Height(path[0].sibling)))
  }

  /**
   * The ancestors are balanced, with correct balance factors, around a
   * position that holds a subtree of height `h`.
   */
  ghost predicate Fits(path: seq<Frame>, h: nat)
    decreases |path|
  {
    path != [] ==>
      var f := path[0];
      && Balanced(f.sibling)
      && f.balance == BalanceAround(f, h)
      && -1 <= f.balance <= 1
      && Fits(path[1..], 1 + Max(h, Height(f.sibling)))
  }

  lemma AttachFacts(f: Frame, t: Node)
    ensures Height(Attach(f, t)) == 1 + Max(Height(t), Height(f.sibling))
    ensures Balanced(Attach(f, t)) <==>
      && Balanced(t) && Balanced(f.sibling)
      && f.balance == BalanceAround(f, Height(t)) && -1 <= f.balance <= 1
  {
  }

  /** The ancestor holds the position on side Side(f) and its other child on the opposite side. */
  lemma AttachAsBuild(f: Frame, t: Node)
    ensures Attach(f, t) == Build(Side(f), f.sibling, f.value, f.balance, t)
    ensures BalanceAround(f, Height(t)) ==
      if Side(f) > 0 then Height(t) - Height(f.sibling) else Height(f.sibling) - Height(t)
  {
  }

  /** Plugging splits the in-order sequence of the whole tree around the subtree. */
  lemma {:induction false} PlugInOrder(path: seq<Frame>, t: Node)
    ensures InOrder(Plug(path, t)) == Before(path) + InOrder(t) + After(path)
    decreases |path|
  {
    if path != [] {
      var f := path[0];
      PlugInOrder(path[1..], Attach(f, t));
    }
  }

  /** The height of the whole tree depends only on the height of the subtree. */
  lemma {:induction false} PlugHeight(path: seq<Frame>, t: Node)
    ensures Height(Plug(path, t)) == PathHeight(path, Height(t))
    decreases |path|
  {
    if path != [] {
      PlugHeight(path[1..], Attach(path[0], t));
    }
  }

  /** The whole tree is balanced exactly when the subtree is and the ancestors fit its height. */
  lemma {:induction false} PlugBalanced(path: seq<Frame>, t: Node)
    ensures Balanced(Plug(path, t)) <==> Balanced(t) && Fits(path, Height(t))
    decreases |path|
  {
    if path != [] {
      var f := path[0];
      AttachFacts(f, t);
      PlugBalanced(path[1..], Attach(f, t));
    }
  }

  /** A path to a position inside the subtree, followed by the path to the subtree. */
  lemma {:induction false} PlugAppend(inner: seq<Frame>, outer: seq<Frame>, t: Node)
    ensures Plug(inner + outer, t) == Plug(outer, Plug(inner, t))
    decreases |inner|
  {
    if inner != [] {
      assert (inner + outer)[1..] == inner[1..] + outer;
      PlugAppend(inner[1..], outer, Attach(inner[0], t));
    } else {
      assert inner + outer == outer;
    }
  }

  /** Plugging along a path that passes through `frame`. */
  lemma PlugThrough(inner: seq<Frame>, frame: Frame, outer: seq<Frame>, t: Node)
    ensures Plug(inner + [frame] + outer, t) == Plug(outer, Attach(frame, Plug(inner, t)))
  {
    assert inner + [frame] + outer == inner + ([frame] + outer);
    PlugAppend(inner, [frame] + outer, t);
    PlugAppend([frame], outer, Plug(inner, t));
    assert Plug([frame], Plug(inner, t)) == Attach(frame, Plug(inner, t));
  }

  /** The ancestors along a joined path fit exactly when each part fits its own hole. */
  lemma {:induction false} FitsAppend(inner: seq<Frame>, outer: seq<Frame>, h: nat)
    ensures Fits(inner + outer, h) <==> Fits(inner, h) && Fits(outer, PathHeight(inner, h))
    ensures PathHeight(inner + outer, h) == PathHeight(outer, PathHeight(inner, h))
    decreases |inner|
  {
    if inner != [] {
      assert (inner + outer)[1..] == inner[1..] + outer;
      FitsAppend(inner[1..], outer, 1 + Max(h, Height(inner[0].sibling)));
    } else {
      assert inner + outer == outer;
    }
  }

  /** Replacing the subtree by one with the same in-order sequence leaves the whole in-order sequence unchanged. */
  lemma PlugSameInOrder(path: seq<Frame>, t: Node, u: Node)
    requires InOrder(t) == InOrder(u)
    ensures InOrder(Plug(path, t)) == InOrder(Plug(path, u))
  {
    PlugInOrder(path, t);
    PlugInOrder(path, u);
  }

  /** A path that only ever goes left has nothing before its position. */
  lemma {:induction false} BeforeAllLeft(path: seq<Frame>)
    requires forall f :: f in path ==> f.onLeft
    ensures Before(path) == []
    decreases |path|
  {
    if path != [] {
      assert forall f :: f in path[1..] ==> f in path;
      BeforeAllLeft(path[1..]);
    }
  }
}
