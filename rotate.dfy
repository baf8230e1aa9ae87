/**
 * The two restructuring primitives of the tree.
 *
 * `Rotate(a, sign)` lifts the child of `a` on side -sign into `a`'s place and
 * leaves every stored balance factor as it was; `DoubleRotate(a, sign)`
 * lifts the grandchild `e` (child +sign of child -sign) into `a`'s place and
 * recomputes the three balance factors involved from `e`'s old one. Both
 * return the subtree that takes `a`'s place: hanging it into the old
 * parent's slot is the caller's `Plug`.
 */
module AvlRotate {
  import opened AvlNode

  /** The subtree after rotating `a` towards `sign`; balance factors are not touched. */
  function Rotate(a: Node, sign: int): (r: Node)
    requires IsSign(sign) && a.Node? && Child(a, -sign).Node?
    ensures InOrder(r) == InOrder(a)
  {
    var b := Child(a, -sign);
    var e := Child(b, sign);
    Build(sign, Child(b, -sign), b.value, b.balance,
      Build(sign, e, a.value, a.balance, Child(a, sign)))
  }

  /** A rotation towards -sign lifts the child on side `sign`, moving its inner child across. */
  lemma RotateBuild(sign: int, x: Node, pv: int, pb: int, inner: Node, nv: int, nb: int, outer: Node)
    requires IsSign(sign)
    ensures Rotate(Build(sign, x, pv, pb, Build(sign, inner, nv, nb, outer)), -sign)
      == Build(-sign, outer, nv, nb, Build(-sign, inner, pv, pb, x))
  {
  }

  /** Balance factor of `a` after a double rotation: -eBal only when sign * eBal < 0. */
  function DoubleRotateBalanceA(eBal: int, sign: int): (aBal: int)
    requires IsSign(sign)
  {
    if sign * eBal >= 0 then 0 else -eBal
  }

  /** Balance factor of `b` after a double rotation: -eBal only when sign * eBal > 0. */
  function DoubleRotateBalanceB(eBal: int, sign: int): (bBal: int)
    requires IsSign(sign)
  {
    if sign * eBal <= 0 then 0 else -eBal
  }

  /**
   * The subtree after the double rotation of `a` towards `sign`: with
   * b = Child(a, -sign) and e = Child(b, sign), `e` ends on top with balance
   * 0, `b` on side -sign and `a` on side +sign of it.
   */
  function DoubleRotate(a: Node, sign: int): (r: Node)
    requires IsSign(sign) && a.Node? && Child(a, -sign).Node? && Child(Child(a, -sign), sign).Node?
    ensures InOrder(r) == InOrder(a)
    ensures r.value == Child(Child(a, -sign), sign).value && r.balance == 0
  {
    var b := Child(a, -sign);
    var e := Child(b, sign);
    var f := Child(e, -sign);
    var g := Child(e, sign);
    var eBal := e.balance;
    DoubleRotateInOrder(a, sign, DoubleRotateBalanceA(eBal, sign), DoubleRotateBalanceB(eBal, sign));
    var a' := Build(sign, g, a.value, DoubleRotateBalanceA(eBal, sign), Child(a, sign));
    var b' := Build(sign, Child(b, -sign), b.value, DoubleRotateBalanceB(eBal, sign), f);
    Build(sign, b', e.value, 0, a')
  }

  lemma DoubleRotateInOrder(a: Node, sign: int, aBal: int, bBal: int)
    requires IsSign(sign) && a.Node? && Child(a, -sign).Node? && Child(Child(a, -sign), sign).Node?
    ensures
      var b := Child(a, -sign);
      var e := Child(b, sign);
      var a' := Build(sign, Child(e, sign), a.value, aBal, Child(a, sign));
      var b' := Build(sign, Child(b, -sign), b.value, bBal, Child(e, -sign));
      InOrder(Build(sign, b', e.value, 0, a')) == InOrder(a)
  {
    if sign > 0 {
      var Node(b, av, _, ar) := a;
      var Node(bl, bv, _, e) := b;
      var Node(f, ev, _, g) := e;
      calc {
        InOrder(a);
        InOrder(b) + [av] + InOrder(ar);
        (InOrder(bl) + [bv] + (InOrder(f) + [ev] + InOrder(g))) + [av] + InOrder(ar);
        (InOrder(bl) + [bv] + InOrder(f)) + [ev] + (InOrder(g) + [av] + InOrder(ar));
      }
    } else {
      var Node(al, av, _, b) := a;
      var Node(e, bv, _, br) := b;
      var Node(g, ev, _, f) := e;
      calc {
        InOrder(a);
        InOrder(al) + [av] + InOrder(b);
        InOrder(al) + [av] + ((InOrder(g) + [ev] + InOrder(f)) + [bv] + InOrder(br));
        (InOrder(al) + [av] + InOrder(g)) + [ev] + (InOrder(f) + [bv] + InOrder(br));
      }
    }
  }

  /**
   * The double-rotation table is right: when the child on side -sign is two
   * levels taller than the child on side +sign and its inner child `e` is the
   * taller of its two, the result is balanced and one level lower than `a`
   * would be.
   */
  lemma DoubleRotateBalanced(a: Node, sign: int)
    requires IsSign(sign) && a.Node? && Child(a, -sign).Node? && Child(Child(a, -sign), sign).Node?
    requires Balanced(Child(a, sign)) && Balanced(Child(Child(a, -sign), -sign))
    requires Balanced(Child(Child(a, -sign), sign))
    requires Height(Child(Child(a, -sign), sign)) == Height(Child(Child(a, -sign), -sign)) + 1
    requires Height(Child(a, sign)) == Height(Child(Child(a, -sign), -sign))
    ensures Balanced(DoubleRotate(a, sign))
    ensures Height(DoubleRotate(a, sign)) == Height(Child(a, -sign))
  {
    var b := Child(a, -sign);
    var e := Child(b, sign);
    assert Height(Child(e, -sign)) <= Height(Child(Child(a, -sign), -sign));
  }
}
