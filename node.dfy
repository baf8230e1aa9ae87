/**
 * Nodes of the AVL tree and the invariant the tree keeps.
 *
 * A node stores its value, its two children and its balance factor, which
 * must always equal height(right) - height(left) and lie in {-1, 0, 1}.
 * `Nil` plays the part of the nil pointer.
 */
module AvlNode {

  datatype Option<T> = None | Some(value: T)

  datatype Node = Nil | Node(left: Node, value: int, balance: int, right: Node)

  /** The comparator; it is always called as Cmp(userValue, treeValue). */
  function Cmp(a: int, b: int): (c: int)
    ensures c < 0 <==> a < b
    ensures c == 0 <==> a == b
    ensures -1 <= c <= 1
  {
    if a < b then -1 else if a > b then 1 else 0
  }

  predicate IsSign(sign: int) {
    sign == 1 || sign == -1
  }

  function Max(a: int, b: int): int {
    if a < b then b else a
  }

  /** Height of a subtree: an empty subtree has height 0. */
  function Height(n: Node): nat {
    match n
    case Nil => 0
    case Node(l, _, _, r) => 1 + Max(Height(l), Height(r))
  }

  /** The values of a subtree in order, left subtree first. */
  function InOrder(n: Node): seq<int> {
    match n
    case Nil => []
    case Node(l, v, _, r) => InOrder(l) + [v] + InOrder(r)
  }

  /** Every stored balance equals height(right) - height(left) and lies in {-1, 0, 1}. */
  ghost predicate Balanced(n: Node) {
    match n
    case Nil => true
    case Node(l, _, b, r) =>
      && b == Height(r) - Height(l)
      && -1 <= b <= 1
      && Balanced(l)
      && Balanced(r)
  }

  ghost predicate Sorted(s: seq<int>) {
    forall i, j :: 0 <= i < j < |s| ==> s[i] < s[j]
  }

  /** A well-formed AVL tree: balanced and a search tree (strictly ascending in order). */
  ghost predicate Valid(n: Node) {
    Balanced(n) && Sorted(InOrder(n))
  }

  /** The child on the side `sign` names: left when negative, right otherwise. */
  function Child(n: Node, sign: int): Node
    requires n.Node?
  {
    if sign < 0 then n.left else n.right
  }

  /**
   * The node whose child on side -sign is `inner` and whose child on side
   * +sign is `outer`.
   */
  function Build(sign: int, inner: Node, value: int, balance: int, outer: Node): (n: Node)
    requires IsSign(sign)
    ensures n.Node? && n.value == value && n.balance == balance
    ensures Child(n, -sign) == inner && Child(n, sign) == outer
  {
    if sign < 0 then Node(outer, value, balance, inner) else Node(inner, value, balance, outer)
  }

  lemma BuildInOrder(sign: int, inner: Node, value: int, balance: int, outer: Node)
    requires IsSign(sign)
    ensures InOrder(Build(sign, inner, value, balance, outer)) ==
      if sign > 0 then InOrder(inner) + [value] + InOrder(outer)
      else InOrder(outer) + [value] + InOrder(inner)
  {
  }

  lemma BuildFacts(sign: int, inner: Node, value: int, balance: int, outer: Node)
    requires IsSign(sign)
    ensures Height(Build(sign, inner, value, balance, outer)) == 1 + Max(Height(inner), Height(outer))
    ensures Balanced(Build(sign, inner, value, balance, outer)) <==>
      && Balanced(inner) && Balanced(outer)
      && balance == (if sign > 0 then Height(outer) - Height(inner) else Height(inner) - Height(outer))
      && -1 <= balance <= 1
  {
  }

  /** The in-order sequence does not depend on the stored balance factor. */
  lemma BuildInOrderBalance(sign: int, inner: Node, value: int, balance: int, outer: Node)
    requires IsSign(sign)
    ensures forall b :: InOrder(Build(sign, inner, value, b, outer)) == InOrder(Build(sign, inner, value, balance, outer))
  {
  }

  /** Building towards -sign is building towards sign with the children exchanged. */
  lemma BuildFlip(sign: int, inner: Node, value: int, balance: int, outer: Node)
    requires IsSign(sign)
    ensures Build(-sign, inner, value, balance, outer) == Build(sign, outer, value, balance, inner)
  {
  }

  /** Every node is the one built from its two children on the sides `sign` names. */
  lemma BuildChildren(n: Node, sign: int)
    requires IsSign(sign) && n.Node?
    ensures n == Build(sign, Child(n, -sign), n.value, n.balance, Child(n, sign))
  {
  }

  /** Adds `amount` to the stored balance factor of a node. */
  function AdjustBalance(n: Node, amount: int): (m: Node)
    requires n.Node?
    ensures m.Node? && m.left == n.left && m.right == n.right && m.value == n.value
    ensures m.balance == n.balance + amount
  {
    n.(balance := n.balance + amount)
  }

  /** Adds `amount` to the stored balance factor of the child on side `sign`. */
  function AdjustChildBalance(n: Node, sign: int, amount: int): (m: Node)
    requires IsSign(sign) && n.Node? && Child(n, sign).Node?
    ensures m.Node? && m.value == n.value && m.balance == n.balance
    ensures Child(m, sign) == AdjustBalance(Child(n, sign), amount)
    ensures Child(m, -sign) == Child(n, -sign)
  {
    if sign < 0 then n.(left := AdjustBalance(n.left, amount))
    else n.(right := AdjustBalance(n.right, amount))
  }

  /**
   * The test-suite validator: the height of the subtree when every balance is
   * in {-1, 0, 1} and equals rHeight - lHeight, and None when some node fails.
   */
  function CheckInvariants(n: Node): Option<nat> {
    match n
    case Nil => Some(0)
    case Node(l, _, b, r) =>
      if b < -1 || 1 < b then None
      else
        match (CheckInvariants(l), CheckInvariants(r))
        case (Some(lh), Some(rh)) =>
          if b != rh - lh then None
          else if lh > rh then Some(lh + 1) else Some(rh + 1)
        case _ => None
  }

  /** The validator accepts exactly the balanced trees, and then reports their height. */
  lemma {:induction false} CheckInvariantsCorrect(n: Node)
    ensures CheckInvariants(n) == (if Balanced(n) then Some(Height(n)) else None)
  {
    match n
    case Nil =>
    case Node(l, _, _, r) =>
      CheckInvariantsCorrect(l);
      CheckInvariantsCorrect(r);
  }

  /** Regrouping a concatenation of four sequences. */
  lemma Regroup(a: seq<int>, b: seq<int>, c: seq<int>, d: seq<int>)
    ensures a + (b + c) + d == a + b + c + d == (a + b) + (c + d)
  {
  }

  function Pow2(n: nat): nat {
    if n == 0 then 1 else 2 * Pow2(n - 1)
  }

  /**
   * The fewest nodes a balanced tree of height `h` can hold: a root over
   * one child of height h - 1 and one of height h - 2.
   */
  function MinNodes(h: nat): nat {
    if h == 0 then 0 else if h == 1 then 1 else 1 + MinNodes(h - 1) + MinNodes(h - 2)
  }

  lemma {:induction false} MinNodesMono(a: nat, b: nat)
    requires a <= b
    ensures MinNodes(a) <= MinNodes(b)
    decreases b
  {
    if a < b {
      MinNodesMono(a, b - 1);
    }
  }

  /** A balanced tree of height h holds at least MinNodes(h) values. */
  lemma {:induction false} MinNodesBound(n: Node)
    requires Balanced(n)
    ensures MinNodes(Height(n)) <= |InOrder(n)|
  {
    match n
    case Nil =>
    case Node(l, _, _, r) =>
      MinNodesBound(l);
      MinNodesBound(r);
      var h := Height(n);
      if h >= 2 {
        if Height(l) >= Height(r) {
          MinNodesMono(h - 2, Height(r));
        } else {
          MinNodesMono(h - 2, Height(l));
        }
      }
  }

  lemma SquareMono(x: nat, y: nat)
    requires x <= y
    ensures x * x <= y * y
  {
    assert x * x <= x * y by {
      MulLeft(x, x, y);
    }
    assert x * y <= y * y by {
      MulLeft(y, x, y);
    }
  }

  lemma MulLeft(c: nat, x: nat, y: nat)
    requires x <= y
    ensures c * x <= c * y
  {
  }

  /** MinNodes grows at least as fast as the square root of the powers of two. */
  lemma {:induction false} MinNodesSquare(h: nat)
    ensures Pow2(h) <= (MinNodes(h) + 1) * (MinNodes(h) + 1)
  {
    if h >= 2 {
      MinNodesSquare(h - 2);
      MinNodesMono(h - 2, h - 1);
      assert Pow2(h) == 4 * Pow2(h - 2);
      SquareStep(MinNodes(h - 1) + 1, MinNodes(h - 2) + 1, Pow2(h - 2));
    }
  }

  /** With b <= a, four times anything below b² is below (a + b)². */
  lemma SquareStep(a: nat, b: nat, p: nat)
    requires b <= a && p <= b * b
    ensures 4 * p <= (a + b) * (a + b)
  {
    SquareMono(2 * b, a + b);
    assert (2 * b) * (2 * b) == 4 * (b * b);
  }

  /**
   * The AVL height bound: a balanced tree holding k values has height h
   * with 2^h <= (k + 1)^2, that is h <= 2 log2(k + 1), so every descent
   * from the root is logarithmic.
   */
  lemma HeightBound(n: Node)
    requires Balanced(n)
    ensures Pow2(Height(n)) <= (|InOrder(n)| + 1) * (|InOrder(n)| + 1)
  {
    MinNodesBound(n);
    MinNodesSquare(Height(n));
    SquareMono(MinNodes(Height(n)) + 1, |InOrder(n)| + 1);
  }

  /** A balanced tree of at most 1024 values, as the test suite builds, is at most 14 levels high. */
  lemma HeightOf1024(n: Node)
    requires Balanced(n) && |InOrder(n)| <= 1024
    ensures Height(n) <= 14
  {
    if Height(n) >= 15 {
      assert MinNodes(15) == 1596;
      MinNodesBound(n);
      MinNodesMono(15, Height(n));
    }
  }

  lemma SortedConcat(a: seq<int>, b: seq<int>)
    requires Sorted(a) && Sorted(b)
    requires forall x, y :: x in a && y in b ==> x < y
    ensures Sorted(a + b)
  {
    var s := a + b;
    forall i, j | 0 <= i < j < |s| ensures s[i] < s[j] {
      if j < |a| {
        assert s[i] == a[i] && s[j] == a[j];
      } else if |a| <= i {
        assert s[i] == b[i - |a|] && s[j] == b[j - |a|];
      } else {
        assert s[i] == a[i] && s[j] == b[j - |a|];
        assert a[i] in a && b[j - |a|] in b;
      }
    }
  }

  lemma SortedSplit(a: seq<int>, b: seq<int>)
    requires Sorted(a + b)
    ensures Sorted(a) && Sorted(b)
  {
    assert forall i :: 0 <= i < |a| ==> a[i] == (a + b)[i];
    assert forall i :: 0 <= i < |b| ==> b[i] == (a + b)[|a| + i];
  }

  /** A node is a search tree when its children are and they sit on either side of its value. */
  lemma SortedNode(l: Node, v: int, b: int, r: Node)
    ensures Sorted(InOrder(Node(l, v, b, r))) <==>
      && Sorted(InOrder(l)) && Sorted(InOrder(r))
      && (forall x :: x in InOrder(l) ==> x < v)
      && (forall x :: x in InOrder(r) ==> v < x)
  {
    var s := InOrder(Node(l, v, b, r));
    var ls, rs := InOrder(l), InOrder(r);
    assert s == ls + [v] + rs;
    if Sorted(s) {
      assert s == ls + ([v] + rs);
      SortedSplit(ls, [v] + rs);
      SortedSplit([v], rs);
      forall x | x in ls ensures x < v {
        var i :| 0 <= i < |ls| && ls[i] == x;
        assert s[i] == x && s[|ls|] == v;
      }
      forall x | x in rs ensures v < x {
        var i :| 0 <= i < |rs| && rs[i] == x;
        assert s[|ls| + 1 + i] == x && s[|ls|] == v;
      }
    } else if Sorted(ls) && Sorted(rs) && (forall x :: x in ls ==> x < v) && (forall x :: x in rs ==> v < x) {
      SortedConcat(ls, [v]);
      SortedConcat(ls + [v], rs);
    }
  }
}
