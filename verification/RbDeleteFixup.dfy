/** rbtree_delete_fixup (rbtree.c:382-483). */
module RbDeleteFixup {
  import opened RbShape
  import opened RbRotate
  import opened RbInsert

  /** The focus is one black node short; everything else fits. */
  ghost predicate ShortFocus(c: Ctx, t: Tree) {
    && Balanced(t) && NoRedRed(t) && !IsRed(t)
    && CBalanced(c, BlackHeight(t) + 1) && CNoRedRed(c, false)
  }

  /** A sibling of a short subtree is never the sentinel. */
  lemma SiblingIsFork(c: Ctx, t: Tree)
    requires ShortFocus(c, t) && c != Top
    ensures Sibling(c).Fork? && Balanced(Sibling(c)) && NoRedRed(Sibling(c))
  {
  }

  /** A hole that takes a red root takes a black one. */
  lemma BlackFits(c: Ctx)
    requires CNoRedRed(c, true)
    ensures CNoRedRed(c, false)
  {
  }

  ghost predicate BlackChildren(t: Tree) {
    t.Fork? && !t.red && !IsRed(t.left) && !IsRed(t.right)
  }

  // ----- colours: child on the left -----

  ghost function RedSiblingLeft(c: Ctx): Ctx
    requires c.InLeft? && c.right.Fork?
  {
    InLeft(InLeft(c.up, c.right.node, false, c.right.right), c.node, true, c.right.left)
  }

  lemma RedSiblingLeftFits(c: Ctx, t: Tree)
    requires ShortFocus(c, t) && c.InLeft? && IsRed(c.right)
    ensures ShortFocus(RedSiblingLeft(c), t) && Stays(c, t, RedSiblingLeft(c), t) && !IsRed(c.right.left)
  {
    var tp, s := Step(c, t), c.right;
    assert Balanced(s.left) && Balanced(s.right);
    var tp' := Fork(Fork(t, c.node, true, s.left), s.node, false, s.right);
    assert InOrder(tp) == InOrder(tp');
    PlugSameOrder(c.up, tp, tp');
  }

  lemma RecolorUpLeft(c: Ctx, t: Tree)
    requires ShortFocus(c, t) && c.InLeft? && !c.red && BlackChildren(c.right)
    ensures var t' := Fork(t, c.node, false, Painted(c.right, true));
            ShortFocus(c.up, t') && Stays(c, t, c.up, t')
  {
    var s' := Painted(c.right, true);
    assert Balanced(c.right.left) && Balanced(s');
    PlugSameOrder(c.up, Step(c, t), Fork(t, c.node, false, s'));
  }

  lemma MoveRedLeft(c: Ctx, t: Tree)
    requires ShortFocus(c, t) && c.InLeft? && c.red && BlackChildren(c.right)
    ensures var t' := Fork(t, c.node, false, Painted(c.right, true));
            RedBlack(Plug(c.up, t')) && Stays(c, t, c.up, t')
  {
    var s' := Painted(c.right, true);
    var t' := Fork(t, c.node, false, s');
    assert Balanced(c.right.left) && Balanced(s') && Balanced(t') && NoRedRed(t');
    assert BlackHeight(t') == BlackHeight(t) + 1;
    BlackFits(c.up);
    PlugSameOrder(c.up, Step(c, t), t');
    PlugRedBlack(c.up, t');
  }

  /** The near nephew is red and the far one black: a rotation at the sibling makes the far one red. */
  ghost function NearToFarLeft(c: Ctx): Ctx
    requires c.InLeft? && c.right.Fork? && c.right.left.Fork?
  {
    InLeft(c.up, c.node, c.red, RotatedRight(Fork(Painted(c.right.left, false), c.right.node, true, c.right.right)))
  }

  lemma NearToFarLeftFits(c: Ctx, t: Tree)
    requires ShortFocus(c, t) && c.InLeft? && c.right.Fork?
    requires !c.right.red && IsRed(c.right.left) && !IsRed(c.right.right)
    ensures ShortFocus(NearToFarLeft(c), t) && Stays(c, t, NearToFarLeft(c), t)
    ensures !NearToFarLeft(c).right.red && IsRed(NearToFarLeft(c).right.right)
  {
    var c' := NearToFarLeft(c);
    var s, s' := c.right, c'.right;
    assert Balanced(s.left) && Balanced(s.right) && Balanced(s'.right);
    assert BlackHeight(s') == BlackHeight(s) && Balanced(s');
    assert NoRedRed(s.left) && NoRedRed(s.right) && NoRedRed(s'.right) && NoRedRed(s'.left) && NoRedRed(s');
    assert InOrder(s) == InOrder(s');
    PlugSameOrder(c.up, Step(c, t), Step(c', t));
  }

  /** The far nephew is red: the last rotation. */
  ghost function FarRotatedLeft(c: Ctx, t: Tree): Tree
    requires c.InLeft? && c.right.Fork? && c.right.right.Fork?
  {
    Fork(Fork(t, c.node, false, c.right.left), c.right.node, c.red, Painted(c.right.right, false))
  }

  lemma FarRotatedLeftFits(c: Ctx, t: Tree)
    requires ShortFocus(c, t) && c.InLeft? && c.right.Fork? && !c.right.red && IsRed(c.right.right)
    ensures RedBlack(Plug(c.up, FarRotatedLeft(c, t))) && Stays(c, t, c.up, FarRotatedLeft(c, t))
  {
    var f, s := FarRotatedLeft(c, t), c.right;
    assert Balanced(s.left) && Balanced(s.right) && Balanced(s.right.left) && Balanced(s.right.right);
    assert NoRedRed(s.left) && NoRedRed(s.right) && NoRedRed(s.right.left) && NoRedRed(s.right.right);
    assert Balanced(f.right) && Balanced(f.left) && Balanced(f);
    assert NoRedRed(f.right) && !IsRed(f.left) && !IsRed(f.right) && NoRedRed(f);
    assert BlackHeight(f.left) == BlackHeight(t) + 1;
    assert BlackHeight(f) == BlackHeight(t) + 1 + Weight(c.red);
    assert InOrder(f.right) == InOrder(s.right);
    assert InOrder(f) == InOrder(Step(c, t));
    PlugSameOrder(c.up, Step(c, t), f);
    PlugRedBlack(c.up, f);
  }

  // ----- colours: child on the right -----

  ghost function RedSiblingRight(c: Ctx): Ctx
    requires c.InRight? && c.left.Fork?
  {
    InRight(InRight(c.up, c.left.left, c.left.node, false), c.left.right, c.node, true)
  }

  lemma RedSiblingRightFits(c: Ctx, t: Tree)
    requires ShortFocus(c, t) && c.InRight? && IsRed(c.left)
    ensures ShortFocus(RedSiblingRight(c), t) && Stays(c, t, RedSiblingRight(c), t) && !IsRed(c.left.right)
  {
    var tp, s := Step(c, t), c.left;
    assert Balanced(s.left) && Balanced(s.right);
    var tp' := Fork(s.left, s.node, false, Fork(s.right, c.node, true, t));
    assert InOrder(tp) == InOrder(tp');
    PlugSameOrder(c.up, tp, tp');
  }

  lemma RecolorUpRight(c: Ctx, t: Tree)
    requires ShortFocus(c, t) && c.InRight? && !c.red && BlackChildren(c.left)
    ensures var t' := Fork(Painted(c.left, true), c.node, false, t);
            ShortFocus(c.up, t') && Stays(c, t, c.up, t')
  {
    var s' := Painted(c.left, true);
    assert Balanced(c.left.left) && Balanced(s');
    PlugSameOrder(c.up, Step(c, t), Fork(s', c.node, false, t));
  }

  lemma MoveRedRight(c: Ctx, t: Tree)
    requires ShortFocus(c, t) && c.InRight? && c.red && BlackChildren(c.left)
    ensures var t' := Fork(Painted(c.left, true), c.node, false, t);
            RedBlack(Plug(c.up, t')) && Stays(c, t, c.up, t')
  {
    var s' := Painted(c.left, true);
    var t' := Fork(s', c.node, false, t);
    assert Balanced(c.left.left) && Balanced(s') && Balanced(t') && NoRedRed(t');
    assert BlackHeight(t') == BlackHeight(t) + 1;
    BlackFits(c.up);
    PlugSameOrder(c.up, Step(c, t), t');
    PlugRedBlack(c.up, t');
  }

  ghost function NearToFarRight(c: Ctx): Ctx
    requires c.InRight? && c.left.Fork? && c.left.right.Fork?
  {
    InRight(c.up, RotatedLeft(Fork(c.left.left, c.left.node, true, Painted(c.left.right, false))), c.node, c.red)
  }

  lemma NearToFarRightFits(c: Ctx, t: Tree)
    requires ShortFocus(c, t) && c.InRight? && c.left.Fork? && !c.left.red && IsRed(c.left.right) && !IsRed(c.left.left)
    ensures ShortFocus(NearToFarRight(c), t) && Stays(c, t, NearToFarRight(c), t)
    ensures !NearToFarRight(c).left.red && IsRed(NearToFarRight(c).left.left)
  {
    var c' := NearToFarRight(c);
    var s, s' := c.left, c'.left;
    assert Balanced(s.left) && Balanced(s.right) && Balanced(s'.left);
    assert BlackHeight(s') == BlackHeight(s) && Balanced(s');
    assert NoRedRed(s.left) && NoRedRed(s.right) && NoRedRed(s'.right) && NoRedRed(s'.left) && NoRedRed(s');
    assert InOrder(s) == InOrder(s');
    PlugSameOrder(c.up, Step(c, t), Step(c', t));
  }

  ghost function FarRotatedRight(c: Ctx, t: Tree): Tree
    requires c.InRight? && c.left.Fork? && c.left.left.Fork?
  {
    Fork(Painted(c.left.left, false), c.left.node, c.red, Fork(c.left.right, c.node, false, t))
  }

  lemma FarRotatedRightFits(c: Ctx, t: Tree)
    requires ShortFocus(c, t) && c.InRight? && c.left.Fork? && !c.left.red && IsRed(c.left.left)
    ensures RedBlack(Plug(c.up, FarRotatedRight(c, t))) && Stays(c, t, c.up, FarRotatedRight(c, t))
  {
    var f, s := FarRotatedRight(c, t), c.left;
    assert Balanced(s.left) && Balanced(s.right) && Balanced(s.left.left) && Balanced(s.left.right);
    assert NoRedRed(s.left) && NoRedRed(s.right) && NoRedRed(s.left.left) && NoRedRed(s.left.right);
    assert Balanced(f.right) && Balanced(f.left) && Balanced(f);
    assert NoRedRed(f.left) && !IsRed(f.left) && !IsRed(f.right) && NoRedRed(f);
    assert BlackHeight(f.left) == BlackHeight(t) + 1;
    assert BlackHeight(f) == BlackHeight(t) + 1 + Weight(c.red);
    assert InOrder(f.left) == InOrder(s.left);
    assert InOrder(f) == InOrder(Step(c, t));
    PlugSameOrder(c.up, Step(c, t), f);
    PlugRedBlack(c.up, f);
  }

  // ----- pointer code: repainting next to the focus -----

  ghost function WithSibling(c: Ctx, s: Tree): Ctx
    requires c != Top
  {
    if c.InLeft? then InLeft(c.up, c.node, c.red, s) else InRight(c.up, s, c.node, c.red)
  }

  ghost function WithColor(c: Ctx, red: bool): Ctx
    requires c != Top
  {
    if c.InLeft? then InLeft(c.up, c.node, red, c.right) else InRight(c.up, c.left, c.node, red)
  }

  method PaintParent(rb: RbTree, child: Node, par: Node, red: bool, ghost c: Ctx, ghost t: Tree)
    requires At(rb, c, t, child, par) && c != Top
    modifies par`red
    ensures At(rb, WithColor(c, red), t, child, par)
  {
    par.red := red;
  }

  method PaintSibling(rb: RbTree, child: Node, par: Node, s: Node, red: bool, ghost c: Ctx, ghost t: Tree)
    requires At(rb, c, t, child, par) && c != Top && Sibling(c).Fork? && s == Sibling(c).node
    modifies s`red
    ensures At(rb, WithSibling(c, Painted(Sibling(c), red)), t, child, par)
  {
    ghost var sp := if c.InLeft? then par.right else par.left;
    assert RepT(Sibling(c), sp, par, rb.nil);
    s.red := red;
    assert RepT(Painted(Sibling(c), red), sp, par, rb.nil);
    assert Refs(Painted(Sibling(c), red)) == Refs(Sibling(c));
  }

  ghost function PaintedRight(s: Tree): Tree
    requires s.Fork? && s.right.Fork?
  {
    Fork(s.left, s.node, s.red, Painted(s.right, false))
  }

  ghost function PaintedLeft(s: Tree): Tree
    requires s.Fork? && s.left.Fork?
  {
    Fork(Painted(s.left, false), s.node, s.red, s.right)
  }

  /** sibling->right->color = BLACK */
  method PaintRightNephew(rb: RbTree, child: Node, par: Node, s: Node, ghost c: Ctx, ghost t: Tree)
    requires At(rb, c, t, child, par) && c != Top && Sibling(c).Fork? && s == Sibling(c).node && Sibling(c).right.Fork?
    modifies Refs(Sibling(c))
    ensures At(rb, WithSibling(c, PaintedRight(Sibling(c))), t, child, par)
  {
    ghost var sp := if c.InLeft? then par.right else par.left;
    assert RepT(Sibling(c), sp, par, rb.nil);
    assert RepT(Sibling(c).right, s.right, s, rb.nil);
    s.right.red := false;
    assert RepT(Painted(Sibling(c).right, false), s.right, s, rb.nil);
    assert RepT(PaintedRight(Sibling(c)), sp, par, rb.nil);
    assert Refs(PaintedRight(Sibling(c))) == Refs(Sibling(c));
  }

  /** sibling->left->color = BLACK */
  method PaintLeftNephew(rb: RbTree, child: Node, par: Node, s: Node, ghost c: Ctx, ghost t: Tree)
    requires At(rb, c, t, child, par) && c != Top && Sibling(c).Fork? && s == Sibling(c).node && Sibling(c).left.Fork?
    modifies Refs(Sibling(c))
    ensures At(rb, WithSibling(c, PaintedLeft(Sibling(c))), t, child, par)
  {
    ghost var sp := if c.InLeft? then par.right else par.left;
    assert RepT(Sibling(c), sp, par, rb.nil);
    assert RepT(Sibling(c).left, s.left, s, rb.nil);
    s.left.red := false;
    assert RepT(Painted(Sibling(c).left, false), s.left, s, rb.nil);
    assert RepT(PaintedLeft(Sibling(c)), sp, par, rb.nil);
    assert Refs(PaintedLeft(Sibling(c))) == Refs(Sibling(c));
  }

  lemma SiblingFacts(rb: RbTree, c: Ctx, t: Tree, child: Node, par: Node)
    requires At(rb, c, t, child, par) && c != Top && Sibling(c).Fork? && NilOk(rb)
    ensures par != rb.nil && par == c.node && par.red == c.red
    ensures par.right == child <==> c.InRight?
    ensures par.left == child <==> c.InLeft?
    ensures var s := Sibling(c);
      && s.node == (if c.InLeft? then par.right else par.left) && s.node != rb.nil && s.node.red == s.red
      && s.node.left.red == IsRed(s.left) && s.node.right.red == IsRed(s.right)
  {
    var s := Sibling(c);
    var sp := if c.InLeft? then par.right else par.left;
    assert RepT(s, sp, par, rb.nil);
    assert RepT(s.left, sp.left, sp, rb.nil) && RepT(s.right, sp.right, sp, rb.nil);
    NilNotInTree(t, child, par, rb.nil);
    assert s.node in Refs(s) && s.node in CRefs(c);
  }

  /** Turning the parent down towards a short left child. */
  method TurnLeft(rb: RbTree, child: Node, par: Node, ghost c: Ctx, ghost t: Tree)
    requires At(rb, c, t, child, par) && c.InLeft? && c.right.Fork?
    modifies rb`root, Refs(t) + CRefs(c)
    ensures var s := c.right;
            At(rb, c.up, Fork(Fork(t, c.node, c.red, s.left), s.node, s.red, s.right), s.node, s.node.parent)
    ensures At(rb, InLeft(InLeft(c.up, c.right.node, c.right.red, c.right.right), c.node, c.red, c.right.left),
               t, child, par)
  {
    Zip(rb, c, t, child, par);
    assert Refs(Step(c, t)) + CRefs(c.up) == Refs(t) + CRefs(c);
    ghost var tp := Step(c, t);
    RotateLeft(rb, par, c.up, tp);
    ghost var r := RotatedLeft(tp);
    UnzipLeft(rb, c.up, r, r.node, r.node.parent);
    UnzipLeft(rb, InLeft(c.up, r.node, r.red, r.right), r.left, par, r.node);
  }

  method TurnRight(rb: RbTree, child: Node, par: Node, ghost c: Ctx, ghost t: Tree)
    requires At(rb, c, t, child, par) && c.InRight? && c.left.Fork?
    modifies rb`root, Refs(t) + CRefs(c)
    ensures var s := c.left;
            At(rb, c.up, Fork(s.left, s.node, s.red, Fork(s.right, c.node, c.red, t)), s.node, s.node.parent)
    ensures At(rb, InRight(InRight(c.up, c.left.left, c.left.node, c.left.red), c.left.right, c.node, c.red), t, child,
               par)
  {
    Zip(rb, c, t, child, par);
    assert Refs(Step(c, t)) + CRefs(c.up) == Refs(t) + CRefs(c);
    ghost var tp := Step(c, t);
    RotateRight(rb, par, c.up, tp);
    ghost var r := RotatedRight(tp);
    UnzipRight(rb, c.up, r, r.node, r.node.parent);
    UnzipRight(rb, InRight(c.up, r.left, r.node, r.red), r.right, par, r.node);
  }

  // ----- the steps of the fixup -----

  /** rbtree.c:388-389, 407-408, 422-423 */
  function OtherChild(par: Node, child: Node): Node
    reads par
  {
    if par.right == child then par.left else par.right
  }

  lemma OtherChildIsSibling(rb: RbTree, c: Ctx, t: Tree, child: Node, par: Node)
    requires At(rb, c, t, child, par) && ShortFocus(c, t) && NilOk(rb) && c != Top
    ensures Sibling(c).Fork? && OtherChild(par, child) == Sibling(c).node
  {
    SiblingIsFork(c, t);
    SiblingFacts(rb, c, t, child, par);
  }

  /** The colours of parent and red sibling exchanged. */
  ghost function RedBelow(c: Ctx): Ctx
    requires c != Top && Sibling(c).Fork?
  {
    WithSibling(WithColor(c, true), Painted(Sibling(c), false))
  }

  /** rbtree.c:401-402 */
  method ExchangeColors(rb: RbTree, child: Node, par: Node, sibling: Node, ghost c: Ctx, ghost t: Tree)
    requires At(rb, c, t, child, par) && c != Top && Sibling(c).Fork? && sibling == Sibling(c).node
    modifies par`red, sibling`red
    ensures At(rb, RedBelow(c), t, child, par) && CRefs(RedBelow(c)) == CRefs(c)
  {
    PaintParent(rb, child, par, true, c, t);
    PaintSibling(rb, child, par, sibling, false, WithColor(c, true), t);
  }

  ghost function RedSiblingTurned(c: Ctx): Ctx
    requires c != Top && Sibling(c).Fork?
  {
    if c.InLeft? then RedSiblingLeft(c) else RedSiblingRight(c)
  }

  lemma RedSiblingFits(c: Ctx, t: Tree)
    requires ShortFocus(c, t) && c != Top && IsRed(Sibling(c))
    ensures var c' := RedSiblingTurned(c);
            ShortFocus(c', t) && Stays(c, t, c', t) && c'.red && Sibling(c').Fork? && !IsRed(Sibling(c'))
  {
    if c.InLeft? { RedSiblingLeftFits(c, t); } else { RedSiblingRightFits(c, t); }
    SiblingIsFork(RedSiblingTurned(c), t);
  }

  /** rbtree.c:399-409 */
  method RedSibling(rb: RbTree, child: Node, par: Node, sibling0: Node, ghost c: Ctx, ghost t: Tree)
    returns (sibling: Node, ghost c': Ctx)
    requires At(rb, c, t, child, par) && ShortFocus(c, t) && NilOk(rb)
    requires c != Top && IsRed(Sibling(c)) && sibling0 == Sibling(c).node
    modifies rb`root, Refs(t) + CRefs(c)
    ensures At(rb, c', t, child, par) && NilOk(rb) && c' == RedSiblingTurned(c)
    ensures Sibling(c').Fork? && sibling == Sibling(c').node
  {
    NilApart(rb, c, t, child, par);
    SiblingFacts(rb, c, t, child, par);
    RedSiblingFits(c, t);
    ExchangeColors(rb, child, par, sibling0, c, t);
    if par.right == child {
      TurnRight(rb, child, par, RedBelow(c), t);
    } else {
      TurnLeft(rb, child, par, RedBelow(c), t);
    }
    c' := RedSiblingTurned(c);
    OtherChildIsSibling(rb, c', t, child, par);
    sibling := OtherChild(par, child);
  }

  ghost function Recolored(c: Ctx, t: Tree): Tree
    requires c != Top && Sibling(c).Fork?
  {
    Step(WithSibling(c, Painted(Sibling(c), true)), t)
  }

  lemma RecoloredFits(c: Ctx, t: Tree)
    requires ShortFocus(c, t) && c != Top && !c.red && BlackChildren(Sibling(c))
    ensures ShortFocus(c.up, Recolored(c, t)) && Stays(c, t, c.up, Recolored(c, t))
  {
    if c.InLeft? { RecolorUpLeft(c, t); } else { RecolorUpRight(c, t); }
  }

  /** rbtree.c:416-423 */
  method GoUp(rb: RbTree, child: Node, par: Node, sibling0: Node, ghost c: Ctx, ghost t: Tree)
    returns (sibling: Node, ghost t': Tree)
    requires At(rb, c, t, child, par) && ShortFocus(c, t) && NilOk(rb)
    requires c != Top && !c.red && BlackChildren(Sibling(c)) && sibling0 == Sibling(c).node
    modifies CRefs(c)
    ensures At(rb, c.up, t', par, par.parent) && NilOk(rb) && t' == Recolored(c, t)
    ensures c.up != Top ==> Sibling(c.up).Fork? && sibling == Sibling(c.up).node
  {
    SiblingFacts(rb, c, t, child, par);
    NilApart(rb, c, t, child, par);
    RecoloredFits(c, t);
    if sibling0 != rb.nil {
      PaintSibling(rb, child, par, sibling0, true, c, t);
    }
    t' := Recolored(c, t);
    Zip(rb, WithSibling(c, Painted(Sibling(c), true)), t, child, par);
    if c.up != Top { OtherChildIsSibling(rb, c.up, t', par, par.parent); }
    sibling := OtherChild(par.parent, par);
  }

  /** rbtree.c:428-438: a red parent takes over the missing black. */
  method MoveRed(rb: RbTree, child: Node, par: Node, sibling: Node, ghost c: Ctx, ghost t: Tree) returns (ghost w: Tree)
    requires At(rb, c, t, child, par) && ShortFocus(c, t) && NilOk(rb)
    requires c != Top && c.red && BlackChildren(Sibling(c)) && sibling == Sibling(c).node
    modifies CRefs(c)
    ensures RepT(w, rb.root, rb.nil, rb.nil) && RedBlack(w) && NilOk(rb) && InOrder(w) == InOrder(Plug(c, t))
  {
    SiblingFacts(rb, c, t, child, par);
    NilApart(rb, c, t, child, par);
    if sibling != rb.nil {
      PaintSibling(rb, child, par, sibling, true, c, t);
    }
    ghost var c1 := WithSibling(c, Painted(Sibling(c), true));
    PaintParent(rb, child, par, false, c1, t);
    ghost var c2 := WithColor(c1, false);
    PlugRep(c2, t, child, par, rb.root, rb.nil, rb.nil);
    w := Plug(c2, t);
    if c.InLeft? { MoveRedLeft(c, t); } else { MoveRedRight(c, t); }
  }

  /** Rotating the right-hand sibling of the focus to the right. */
  method TurnSiblingRight(rb: RbTree, child: Node, par: Node, s: Node, ghost c: Ctx, ghost t: Tree)
    requires At(rb, c, t, child, par) && c.InLeft? && c.right.Fork? && c.right.left.Fork? && s == c.right.node
    modifies rb`root, Refs(t) + CRefs(c)
    ensures At(rb, InLeft(c.up, c.node, c.red, RotatedRight(c.right)), t, child, par)
  {
    Zip(rb, c, t, child, par);
    ghost var tp := Step(c, t);
    UnzipRight(rb, c.up, tp, par, par.parent);
    ghost var cs := InRight(c.up, t, c.node, c.red);
    assert RepT(c.right, s, par, rb.nil);
    RotateRight(rb, s, cs, c.right);
    ghost var s' := RotatedRight(c.right);
    Zip(rb, cs, s', s'.node, par);
    UnzipLeft(rb, c.up, Step(cs, s'), par, par.parent);
    assert RepT(t, par.left, par, rb.nil);
  }

  method TurnSiblingLeft(rb: RbTree, child: Node, par: Node, s: Node, ghost c: Ctx, ghost t: Tree)
    requires At(rb, c, t, child, par) && c.InRight? && c.left.Fork? && c.left.right.Fork? && s == c.left.node
    modifies rb`root, Refs(t) + CRefs(c)
    ensures At(rb, InRight(c.up, RotatedLeft(c.left), c.node, c.red), t, child, par)
  {
    Zip(rb, c, t, child, par);
    ghost var tp := Step(c, t);
    UnzipLeft(rb, c.up, tp, par, par.parent);
    ghost var cs := InLeft(c.up, c.node, c.red, t);
    assert RepT(c.left, s, par, rb.nil);
    RotateLeft(rb, s, cs, c.left);
    ghost var s' := RotatedLeft(c.left);
    Zip(rb, cs, s', s'.node, par);
    UnzipRight(rb, c.up, Step(cs, s'), par, par.parent);
    assert RepT(t, par.right, par, rb.nil);
  }

  /** rbtree.c:448-453 */
  method NearRight(rb: RbTree, child: Node, par: Node, sibling0: Node, ghost c: Ctx, ghost t: Tree)
    returns (sibling: Node, ghost c': Ctx)
    requires At(rb, c, t, child, par) && ShortFocus(c, t) && NilOk(rb) && c.InRight?
    requires c.left.Fork? && !c.left.red && IsRed(c.left.right) && !IsRed(c.left.left) && sibling0 == c.left.node
    modifies rb`root, Refs(t) + CRefs(c)
    ensures At(rb, c', t, child, par) && NilOk(rb) && c' == NearToFarRight(c)
    ensures Sibling(c').Fork? && sibling == Sibling(c').node
  {
    NilApart(rb, c, t, child, par);
    SiblingFacts(rb, c, t, child, par);
    NearToFarRightFits(c, t);
    ghost var c1 := WithSibling(c, Painted(c.left, true));
    PaintSibling(rb, child, par, sibling0, true, c, t);
    PaintRightNephew(rb, child, par, sibling0, c1, t);
    TurnSiblingLeft(rb, child, par, sibling0, WithSibling(c1, PaintedRight(c1.left)), t);
    c' := NearToFarRight(c);
    OtherChildIsSibling(rb, c', t, child, par);
    sibling := OtherChild(par, child);
  }

  /** rbtree.c:460-465 */
  method NearLeft(rb: RbTree, child: Node, par: Node, sibling0: Node, ghost c: Ctx, ghost t: Tree)
    returns (sibling: Node, ghost c': Ctx)
    requires At(rb, c, t, child, par) && ShortFocus(c, t) && NilOk(rb) && c.InLeft?
    requires c.right.Fork? && !c.right.red && IsRed(c.right.left) && !IsRed(c.right.right) && sibling0 == c.right.node
    modifies rb`root, Refs(t) + CRefs(c)
    ensures At(rb, c', t, child, par) && NilOk(rb) && c' == NearToFarLeft(c)
    ensures Sibling(c').Fork? && sibling == Sibling(c').node
  {
    NilApart(rb, c, t, child, par);
    SiblingFacts(rb, c, t, child, par);
    NearToFarLeftFits(c, t);
    ghost var c1 := WithSibling(c, Painted(c.right, true));
    PaintSibling(rb, child, par, sibling0, true, c, t);
    PaintLeftNephew(rb, child, par, sibling0, c1, t);
    TurnSiblingRight(rb, child, par, sibling0, WithSibling(c1, PaintedLeft(c1.right)), t);
    c' := NearToFarLeft(c);
    OtherChildIsSibling(rb, c', t, child, par);
    sibling := OtherChild(par, child);
  }

  /** rbtree.c:469-470 */
  method HandColorOver(rb: RbTree, child: Node, par: Node, sibling: Node, ghost c: Ctx, ghost t: Tree)
    requires At(rb, c, t, child, par) && c != Top && Sibling(c).Fork? && sibling == Sibling(c).node && NilOk(rb)
    modifies sibling`red, par`red
    ensures At(rb, HandedOver(c), t, child, par) && CRefs(HandedOver(c)) == CRefs(c)
  {
    SiblingFacts(rb, c, t, child, par);
    sibling.red := par.red;
    par.red := false;
    ghost var sp := if c.InLeft? then par.right else par.left;
    assert RepT(Painted(Sibling(c), c.red), sp, par, rb.nil);
    assert Refs(Painted(Sibling(c), c.red)) == Refs(Sibling(c));
  }

  ghost function HandedOver(c: Ctx): Ctx
    requires c != Top && Sibling(c).Fork?
  {
    WithColor(WithSibling(c, Painted(Sibling(c), c.red)), false)
  }

  /** rbtree.c:468-482 */
  method FarRed(rb: RbTree, child: Node, par: Node, sibling: Node, ghost c: Ctx, ghost t: Tree) returns (ghost w: Tree)
    requires At(rb, c, t, child, par) && ShortFocus(c, t) && NilOk(rb)
    requires c != Top && Sibling(c).Fork? && !Sibling(c).red && sibling == Sibling(c).node
    requires c.InLeft? ==> IsRed(c.right.right)
    requires c.InRight? ==> IsRed(c.left.left)
    modifies rb`root, Refs(t) + CRefs(c)
    ensures RepT(w, rb.root, rb.nil, rb.nil) && RedBlack(w) && NilOk(rb) && InOrder(w) == InOrder(Plug(c, t))
  {
    SiblingFacts(rb, c, t, child, par);
    NilApart(rb, c, t, child, par);
    ghost var c1 := HandedOver(c);
    HandColorOver(rb, child, par, sibling, c, t);
    ghost var r;
    if par.right == child {
      FarRotatedRightFits(c, t);
      PaintLeftNephew(rb, child, par, sibling, c1, t);
      TurnRight(rb, child, par, WithSibling(c1, PaintedLeft(c1.left)), t);
      r := FarRotatedRight(c, t);
    } else {
      FarRotatedLeftFits(c, t);
      PaintRightNephew(rb, child, par, sibling, c1, t);
      TurnLeft(rb, child, par, WithSibling(c1, PaintedRight(c1.right)), t);
      r := FarRotatedLeft(c, t);
    }
    PlugRep(c.up, r, r.node, r.node.parent, rb.root, rb.nil, rb.nil);
    w := Plug(c.up, r);
  }

  // ----- the whole fixup -----

  ghost predicate Ready(c: Ctx, t: Tree, sibling: Node) {
    c != Top && ShortFocus(c, t) && Sibling(c).Fork? && sibling == Sibling(c).node && !Sibling(c).red
    && (c.red || !BlackChildren(Sibling(c)))
  }

  /** The loop at rbtree.c:391-426: climb while nothing red is in reach. */
  method ClimbShort(rb: RbTree, child0: Node, parent0: Node, ghost c0: Ctx, ghost t0: Tree)
    returns (child: Node, child_parent: Node, sibling: Node, done: bool, ghost c: Ctx, ghost t: Tree)
    requires At(rb, c0, t0, child0, parent0) && ShortFocus(c0, t0) && NilOk(rb)
    modifies rb`root, Refs(t0) + CRefs(c0)
    ensures At(rb, c, t, child, child_parent) && NilOk(rb) && Stays(c0, t0, c, t) && ShortFocus(c, t)
    ensures if done then c == Top else Ready(c, t, sibling)
  {
    child, child_parent, c, t, done := child0, parent0, c0, t0, false;
    sibling := OtherChild(child_parent, child);
    if c != Top { OtherChildIsSibling(rb, c, t, child, child_parent); }
    var goUp := true;
    while goUp
      invariant At(rb, c, t, child, child_parent) && NilOk(rb) && Stays(c0, t0, c, t) && ShortFocus(c, t)
      invariant c != Top ==> Sibling(c).Fork? && sibling == Sibling(c).node
      invariant !goUp ==> Ready(c, t, sibling)
      decreases goUp, Depth(c)
    {
      SameNodes(c0, t0, c, t);
      NilApart(rb, c, t, child, child_parent);
      if child_parent == rb.nil {
        done := true;
        return;
      }
      SiblingFacts(rb, c, t, child, child_parent);
      if sibling.red {
        RedSiblingFits(c, t);
        sibling, c := RedSibling(rb, child, child_parent, sibling, c, t);
        SiblingFacts(rb, c, t, child, child_parent);
        SameNodes(c0, t0, c, t);
      }
      if !child_parent.red && !sibling.red && !sibling.left.red && !sibling.right.red {
        RecoloredFits(c, t);
        sibling, t := GoUp(rb, child, child_parent, sibling, c, t);
        c := c.up;
        child := child_parent;
        child_parent := child_parent.parent;
      } else {
        goUp := false;
      }
    }
  }

  /** rbtree_delete_fixup: adds the missing black node to every path through the focus. */
  method DeleteFixup(rb: RbTree, child0: Node, parent0: Node, ghost c0: Ctx, ghost t0: Tree) returns (ghost w: Tree)
    requires At(rb, c0, t0, child0, parent0) && ShortFocus(c0, t0) && NilOk(rb)
    modifies rb`root, Refs(t0) + CRefs(c0)
    ensures RepT(w, rb.root, rb.nil, rb.nil) && RedBlack(w) && NilOk(rb) && InOrder(w) == InOrder(Plug(c0, t0))
  {
    var child, child_parent, sibling, done;
    ghost var c, t;
    child, child_parent, sibling, done, c, t := ClimbShort(rb, child0, parent0, c0, t0);
    SameNodes(c0, t0, c, t);
    if done {
      w := t;
      return;
    }
    SiblingFacts(rb, c, t, child, child_parent);
    if child_parent.red && !sibling.red && !sibling.left.red && !sibling.right.red {
      w := MoveRed(rb, child, child_parent, sibling, c, t);
      return;
    }
    if child_parent.right == child && !sibling.red && sibling.right.red && !sibling.left.red {
      NearToFarRightFits(c, t);
      sibling, c := NearRight(rb, child, child_parent, sibling, c, t);
    } else if child_parent.left == child && !sibling.red && sibling.left.red && !sibling.right.red {
      NearToFarLeftFits(c, t);
      sibling, c := NearLeft(rb, child, child_parent, sibling, c, t);
    }
    SameNodes(c0, t0, c, t);
    w := FarRed(rb, child, child_parent, sibling, c, t);
  }
}
