/** rbtree_insert_fixup and rbtree_insert (rbtree.c:136-252). */
module RbInsert {
  import opened RbShape
  import opened RbRotate
  import opened RbSearch

  // ----- colouring along the way up -----

  ghost function Depth(c: Ctx): nat {
    if c.Top? then 0 else 1 + Depth(c.up)
  }

  ghost function Sibling(c: Ctx): Tree
    requires c != Top
  {
    if c.InLeft? then c.right else c.left
  }

  /** The loop invariant on colours: the focus is a red node, and the only fault there can be
      is that its parent, or the root's parent position, asks for a black one. */
  ghost predicate RedFocus(c: Ctx, t: Tree) {
    && t.Fork? && t.red && Balanced(t) && NoRedRed(t) && CBalanced(c, BlackHeight(t))
    && (c.Top? || (NoRedRed(Sibling(c)) && (c.red ==> !IsRed(Sibling(c))) && CNoRedRed(c.up, c.red)))
  }

  ghost predicate Stays(c: Ctx, t: Tree, c': Ctx, t': Tree) {
    InOrder(Plug(c, t)) == InOrder(Plug(c', t'))
  }

  lemma PlugSameOrder(c: Ctx, t: Tree, t': Tree)
    requires InOrder(t) == InOrder(t')
    ensures InOrder(Plug(c, t)) == InOrder(Plug(c, t'))
  {
    PlugInOrder(c, t); PlugInOrder(c, t');
  }

  lemma SameNodes(c: Ctx, t: Tree, c': Ctx, t': Tree)
    requires Stays(c, t, c', t')
    ensures Refs(t) + CRefs(c) == Refs(t') + CRefs(c')
  {
    PlugRefs(c, t); PlugRefs(c', t');
    RefsAreInOrder(Plug(c, t)); RefsAreInOrder(Plug(c', t'));
  }

  ghost function Painted(t: Tree, red: bool): Tree
    requires t.Fork?
  {
    Fork(t.left, t.node, red, t.right)
  }

  /** Both children of a black node turn black and the node turns red. */
  ghost function Flipped(g: Tree): Tree
    requires g.Fork? && g.left.Fork? && g.right.Fork?
  {
    Fork(Painted(g.left, false), g.node, true, Painted(g.right, false))
  }

  /** The subtree one level up. */
  ghost function Step(c: Ctx, t: Tree): Tree
    requires c != Top
  {
    if c.InLeft? then Fork(t, c.node, c.red, c.right) else Fork(c.left, c.node, c.red, t)
  }

  /** A black, balanced subtree that fits its context; the fault, if any, is below it. */
  ghost predicate FitsAbove(up: Ctx, g: Tree) {
    g.Fork? && !g.red && Balanced(g) && CBalanced(up, BlackHeight(g)) && CNoRedRed(up, false)
  }

  /** Red focus under a red parent: there is a black grandparent, and everything else fits. */
  lemma Grandparent(c: Ctx, t: Tree)
    requires RedFocus(c, t) && c != Top && c.red
    ensures c.up != Top && NoRedRed(Sibling(c.up)) && NoRedRed(Sibling(c)) && !IsRed(Sibling(c))
    ensures var g := Step(c.up, Step(c, t));
            FitsAbove(c.up.up, g) && Plug(c, t) == Plug(c.up.up, g)
  {
    assert Balanced(Step(c, t)) && CBalanced(c.up, BlackHeight(Step(c, t)));
  }

  /** Red uncle: the fault moves two levels up. */
  lemma FlipMovesUp(up: Ctx, g: Tree)
    requires FitsAbove(up, g) && IsRed(g.left) && IsRed(g.right)
    requires NoRedRed(g.left.left) && NoRedRed(g.left.right) && NoRedRed(g.right.left) && NoRedRed(g.right.right)
    ensures RedFocus(up, Flipped(g)) && InOrder(Plug(up, g)) == InOrder(Plug(up, Flipped(g)))
  {
    assert InOrder(Flipped(g)) == InOrder(g);
    PlugSameOrder(up, g, Flipped(g));
    assert Balanced(g.left) && Balanced(g.right);
    assert Balanced(Painted(g.left, false)) && Balanced(Painted(g.right, false));
  }

  // ----- pointer code -----

  /** rbtree.c:150-154, 175-179: parent and uncle are the two children of g. */
  method FlipColors(rb: RbTree, g: Node, ghost c: Ctx, ghost t: Tree)
    requires At(rb, c, t, g, g.parent) && t.Fork? && t.left.Fork? && t.right.Fork?
    modifies g.left`red, g.right`red, g`red
    ensures At(rb, c, Flipped(t), g, g.parent)
  {
    assert RepT(t.left, g.left, g, rb.nil) && RepT(t.right, g.right, g, rb.nil);
    g.left.red := false;
    g.right.red := false;
    g.red := true;
    assert RepT(Painted(t.left, false), g.left, g, rb.nil);
    assert RepT(Painted(t.right, false), g.right, g, rb.nil);
  }

  ghost method ZipTwice(rb: RbTree, c: Ctx, t: Tree, node: Node) returns (g: Tree)
    requires At(rb, c, t, node, node.parent) && RedFocus(c, t) && NilOk(rb) && c != Top && c.red
    ensures c.up != Top && g == Step(c.up, Step(c, t))
    ensures At(rb, c.up.up, g, node.parent.parent, node.parent.parent.parent)
    ensures Refs(g) + CRefs(c.up.up) == Refs(t) + CRefs(c)
    ensures node.parent == c.node && node.parent.parent == c.up.node
  {
    Grandparent(c, t);
    Zip(rb, c, t, node, node.parent);
    ghost var p := Step(c, t);
    g := Step(c.up, p);
    Zip(rb, c.up, p, node.parent, node.parent.parent);
    assert Refs(p) + CRefs(c.up) == Refs(t) + CRefs(c);
  }

  lemma SideOfNode(rb: RbTree, c: Ctx, t: Tree, p: Node, par: Node)
    requires At(rb, c, t, p, par) && c != Top && t.Fork? && NilOk(rb)
    ensures p == par.left <==> c.InLeft?
    ensures p == par.right <==> c.InRight?
    ensures c.InLeft? ==> par.right.red == IsRed(c.right)
    ensures c.InRight? ==> par.left.red == IsRed(c.left)
  {
    ChildSide(rb, c, p, par);
  }

  /** The node under repair has a red uncle: both children of g are red (rbtree.c:150-157, 175-182). */
  method FixRedUncle(rb: RbTree, g: Node, ghost up: Ctx, ghost t: Tree)
    requires At(rb, up, t, g, g.parent) && FitsAbove(up, t) && IsRed(t.left) && IsRed(t.right) && NilOk(rb)
    requires NoRedRed(t.left.left) && NoRedRed(t.left.right) && NoRedRed(t.right.left) && NoRedRed(t.right.right)
    modifies Refs(t)
    ensures At(rb, up, Flipped(t), g, g.parent) && RedFocus(up, Flipped(t)) && NilOk(rb)
    ensures Stays(up, t, up, Flipped(t))
  {
    FlipMovesUp(up, t);
    NilApart(rb, up, t, g, g.parent);
    assert RepT(t.left, g.left, g, rb.nil) && RepT(t.right, g.right, g, rb.nil);
    FlipColors(rb, g, up, t);
  }

  // ----- parent is a left child, uncle is black -----

  /** Red grandchild on the outside: repaint and rotate at the grandparent. */
  ghost function LeftOuter(g: Tree): Tree
    requires g.Fork? && g.left.Fork?
  {
    Fork(g.left.left, g.left.node, false, Fork(g.left.right, g.node, true, g.right))
  }

  ghost predicate OuterLeftFault(g: Tree) {
    && g.Fork? && IsRed(g.left) && !IsRed(g.right) && IsRed(g.left.left) && !IsRed(g.left.right)
    && NoRedRed(g.left.left) && NoRedRed(g.left.right) && NoRedRed(g.right)
  }

  lemma LeftOuterFits(up: Ctx, g: Tree)
    requires FitsAbove(up, g) && OuterLeftFault(g)
    ensures var o := LeftOuter(g);
            RedFocus(InLeft(up, o.node, false, o.right), o.left) &&
            InOrder(Plug(up, g)) == InOrder(Plug(InLeft(up, o.node, false, o.right), o.left))
  {
    var o := LeftOuter(g);
    assert InOrder(o) == InOrder(g);
    PlugSameOrder(up, g, o);
    assert Balanced(g.left) && Balanced(g.right);
    assert Balanced(o.right);
  }

  /** rbtree.c:165-167 */
  method RepaintRotateRight(rb: RbTree, p: Node, g: Node, ghost up: Ctx, ghost t: Tree)
    requires At(rb, up, t, g, g.parent) && t.Fork? && t.left.Fork? && p == t.left.node
    modifies rb`root, Refs(t) + CRefs(up)
    ensures At(rb, up, LeftOuter(t), p, p.parent)
  {
    assert RepT(t.left, g.left, g, rb.nil);
    p.red := false;
    g.red := true;
    assert RepT(Painted(t.left, false), g.left, g, rb.nil);
    ghost var t1 := Fork(Painted(t.left, false), t.node, true, t.right);
    assert Refs(t1) == Refs(t);
    assert RepT(t1, g, g.parent, rb.nil);
    RotateRight(rb, g, up, t1);
  }

  /** The same with the focus put back on the red node. */
  method FixLeftOuter(rb: RbTree, node: Node, ghost up: Ctx, ghost g: Tree) returns (ghost c: Ctx, ghost t: Tree)
    requires At(rb, up, g, node.parent.parent, node.parent.parent.parent)
    requires FitsAbove(up, g) && OuterLeftFault(g) && node.parent == g.left.node && node == g.left.left.node
    modifies rb`root, Refs(g) + CRefs(up)
    ensures At(rb, c, t, node, node.parent) && RedFocus(c, t) && Depth(c) == Depth(up) + 1
    ensures Stays(up, g, c, t)
  {
    LeftOuterFits(up, g);
    ghost var o := LeftOuter(g);
    var parent := node.parent;
    RepaintRotateRight(rb, parent, parent.parent, up, g);
    UnzipLeft(rb, up, o, parent, parent.parent);
    c, t := InLeft(up, o.node, false, o.right), o.left;
  }

  /** The grandparent's subtree once a red grandchild on the inside has been rotated to the outside. */
  ghost function LeftTurned(c: Ctx, t: Tree): Tree
    requires t.Fork? && c.InRight? && c.up.InLeft?
  {
    Fork(RotatedLeft(Step(c, t)), c.up.node, c.up.red, c.up.right)
  }

  lemma LeftTurnedFits(c: Ctx, t: Tree)
    requires RedFocus(c, t) && c.InRight? && c.red && c.up.InLeft? && !IsRed(c.up.right)
    ensures var g := LeftTurned(c, t);
            && FitsAbove(c.up.up, g) && OuterLeftFault(g) && Stays(c, t, c.up.up, g)
            && Refs(g) + CRefs(c.up.up) == Refs(t) + CRefs(c)
  {
    Grandparent(c, t);
    var p := Step(c, t);
    var q := RotatedLeft(p);
    RotationKeeps(p);
    PlugSameOrder(c.up, p, q);
    assert Balanced(q.left) && BlackHeight(q) == BlackHeight(p);
    SameNodes(c, t, c.up.up, LeftTurned(c, t));
  }

  /** rbtree.c:161-162 */
  method FixLeftInner(rb: RbTree, x: Node, ghost c: Ctx, ghost t: Tree) returns (node: Node)
    requires At(rb, c, t, x, x.parent) && RedFocus(c, t)
    requires c.InRight? && c.red && c.up.InLeft?
    modifies rb`root, Refs(t) + CRefs(c)
    ensures node == c.node && node.parent == x && x.parent == c.up.node
    ensures At(rb, c.up.up, LeftTurned(c, t), x.parent, x.parent.parent)
  {
    Zip(rb, c, t, x, x.parent);
    ghost var p := Step(c, t);
    node := x.parent;
    assert Refs(p) + CRefs(c.up) == Refs(t) + CRefs(c);
    assert RepT(t, x, node, rb.nil);
    RotateLeft(rb, node, c.up, p);
    ghost var q := RotatedLeft(p);
    assert RepT(q.left, x.left, x, rb.nil);
    Zip(rb, c.up, q, x, x.parent);
  }

  /** The uncle is black (rbtree.c:158-168). */
  method FixLeft(rb: RbTree, node0: Node, ghost c: Ctx, ghost t: Tree)
    returns (node: Node, ghost c': Ctx, ghost t': Tree)
    requires At(rb, c, t, node0, node0.parent) && RedFocus(c, t) && NilOk(rb)
    requires c != Top && c.red && c.up.InLeft? && !IsRed(c.up.right)
    modifies rb`root, Refs(t) + CRefs(c)
    ensures At(rb, c', t', node, node.parent) && RedFocus(c', t') && NilOk(rb)
    ensures Stays(c, t, c', t') && Depth(c') < Depth(c)
  {
    NilApart(rb, c, t, node0, node0.parent);
    SideOfNode(rb, c, t, node0, node0.parent);
    node := node0;
    ghost var g;
    if node == node.parent.right {
      LeftTurnedFits(c, t);
      g := LeftTurned(c, t);
      node := FixLeftInner(rb, node, c, t);
    } else {
      Grandparent(c, t);
      g := ZipTwice(rb, c, t, node0);
    }
    c', t' := FixLeftOuter(rb, node, c.up.up, g);
  }

  // ----- parent is a right child, uncle is black -----

  ghost function RightOuter(g: Tree): Tree
    requires g.Fork? && g.right.Fork?
  {
    Fork(Fork(g.left, g.node, true, g.right.left), g.right.node, false, g.right.right)
  }

  ghost predicate OuterRightFault(g: Tree) {
    && g.Fork? && IsRed(g.right) && !IsRed(g.left) && IsRed(g.right.right) && !IsRed(g.right.left)
    && NoRedRed(g.right.right) && NoRedRed(g.right.left) && NoRedRed(g.left)
  }

  lemma RightOuterFits(up: Ctx, g: Tree)
    requires FitsAbove(up, g) && OuterRightFault(g)
    ensures var o := RightOuter(g);
            RedFocus(InRight(up, o.left, o.node, false), o.right) &&
            InOrder(Plug(up, g)) == InOrder(Plug(InRight(up, o.left, o.node, false), o.right))
  {
    var o := RightOuter(g);
    assert InOrder(o) == InOrder(g);
    PlugSameOrder(up, g, o);
    assert Balanced(g.left) && Balanced(g.right);
    assert Balanced(o.left);
  }

  /** rbtree.c:190-192 */
  method RepaintRotateLeft(rb: RbTree, p: Node, g: Node, ghost up: Ctx, ghost t: Tree)
    requires At(rb, up, t, g, g.parent) && t.Fork? && t.right.Fork? && p == t.right.node
    modifies rb`root, Refs(t) + CRefs(up)
    ensures At(rb, up, RightOuter(t), p, p.parent)
  {
    assert RepT(t.right, g.right, g, rb.nil);
    p.red := false;
    g.red := true;
    assert RepT(Painted(t.right, false), g.right, g, rb.nil);
    ghost var t1 := Fork(t.left, t.node, true, Painted(t.right, false));
    assert Refs(t1) == Refs(t);
    assert RepT(t1, g, g.parent, rb.nil);
    RotateLeft(rb, g, up, t1);
  }

  /** The same with the focus put back on the red node. */
  method FixRightOuter(rb: RbTree, node: Node, ghost up: Ctx, ghost g: Tree) returns (ghost c: Ctx, ghost t: Tree)
    requires At(rb, up, g, node.parent.parent, node.parent.parent.parent)
    requires FitsAbove(up, g) && OuterRightFault(g) && node.parent == g.right.node && node == g.right.right.node
    modifies rb`root, Refs(g) + CRefs(up)
    ensures At(rb, c, t, node, node.parent) && RedFocus(c, t) && Depth(c) == Depth(up) + 1
    ensures Stays(up, g, c, t)
  {
    RightOuterFits(up, g);
    ghost var o := RightOuter(g);
    var parent := node.parent;
    RepaintRotateLeft(rb, parent, parent.parent, up, g);
    UnzipRight(rb, up, o, parent, parent.parent);
    c, t := InRight(up, o.left, o.node, false), o.right;
  }

  ghost function RightTurned(c: Ctx, t: Tree): Tree
    requires t.Fork? && c.InLeft? && c.up.InRight?
  {
    Fork(c.up.left, c.up.node, c.up.red, RotatedRight(Step(c, t)))
  }

  lemma RightTurnedFits(c: Ctx, t: Tree)
    requires RedFocus(c, t) && c.InLeft? && c.red && c.up.InRight? && !IsRed(c.up.left)
    ensures var g := RightTurned(c, t);
            && FitsAbove(c.up.up, g) && OuterRightFault(g) && Stays(c, t, c.up.up, g)
            && Refs(g) + CRefs(c.up.up) == Refs(t) + CRefs(c)
  {
    Grandparent(c, t);
    var p := Step(c, t);
    var q := RotatedRight(p);
    RotationKeeps(p);
    PlugSameOrder(c.up, p, q);
    assert Balanced(q.right) && BlackHeight(q) == BlackHeight(p);
    SameNodes(c, t, c.up.up, RightTurned(c, t));
  }

  /** rbtree.c:186-187 */
  method FixRightInner(rb: RbTree, x: Node, ghost c: Ctx, ghost t: Tree) returns (node: Node)
    requires At(rb, c, t, x, x.parent) && RedFocus(c, t)
    requires c.InLeft? && c.red && c.up.InRight?
    modifies rb`root, Refs(t) + CRefs(c)
    ensures node == c.node && node.parent == x && x.parent == c.up.node
    ensures At(rb, c.up.up, RightTurned(c, t), x.parent, x.parent.parent)
  {
    Zip(rb, c, t, x, x.parent);
    ghost var p := Step(c, t);
    node := x.parent;
    assert Refs(p) + CRefs(c.up) == Refs(t) + CRefs(c);
    assert RepT(t, x, node, rb.nil);
    RotateRight(rb, node, c.up, p);
    ghost var q := RotatedRight(p);
    assert RepT(q.right, x.right, x, rb.nil);
    Zip(rb, c.up, q, x, x.parent);
  }

  /** The uncle is black (rbtree.c:183-193). */
  method FixRight(rb: RbTree, node0: Node, ghost c: Ctx, ghost t: Tree)
    returns (node: Node, ghost c': Ctx, ghost t': Tree)
    requires At(rb, c, t, node0, node0.parent) && RedFocus(c, t) && NilOk(rb)
    requires c != Top && c.red && c.up.InRight? && !IsRed(c.up.left)
    modifies rb`root, Refs(t) + CRefs(c)
    ensures At(rb, c', t', node, node.parent) && RedFocus(c', t') && NilOk(rb)
    ensures Stays(c, t, c', t') && Depth(c') < Depth(c)
  {
    NilApart(rb, c, t, node0, node0.parent);
    SideOfNode(rb, c, t, node0, node0.parent);
    node := node0;
    ghost var g;
    if node == node.parent.left {
      RightTurnedFits(c, t);
      g := RightTurned(c, t);
      node := FixRightInner(rb, node, c, t);
    } else {
      Grandparent(c, t);
      g := ZipTwice(rb, c, t, node0);
    }
    c', t' := FixRightOuter(rb, node, c.up.up, g);
  }

  // ----- the whole fixup -----

  lemma UncleOf(rb: RbTree, c: Ctx, t: Tree, node: Node)
    requires At(rb, c, t, node, node.parent) && RedFocus(c, t) && NilOk(rb) && c != Top && c.red && c.up != Top
    ensures var g := node.parent.parent;
            && (node.parent == g.left <==> c.up.InLeft?)
            && (c.up.InLeft? ==> g.right.red == IsRed(c.up.right))
            && (c.up.InRight? ==> g.left.red == IsRed(c.up.left))
  {
    Zip(rb, c, t, node, node.parent);
    SideOfNode(rb, c.up, Step(c, t), node.parent, node.parent.parent);
  }

  /** The red-uncle branches, from the node under repair. */
  method FlipUp(rb: RbTree, node0: Node, ghost c: Ctx, ghost t: Tree)
    returns (node: Node, ghost c': Ctx, ghost t': Tree)
    requires At(rb, c, t, node0, node0.parent) && RedFocus(c, t) && NilOk(rb)
    requires c != Top && c.red && c.up != Top && IsRed(Sibling(c.up))
    modifies Refs(t) + CRefs(c)
    ensures At(rb, c', t', node, node.parent) && RedFocus(c', t') && NilOk(rb)
    ensures Stays(c, t, c', t') && Depth(c') < Depth(c)
  {
    Grandparent(c, t);
    ghost var g := ZipTwice(rb, c, t, node0);
    node := node0.parent.parent;
    c', t' := c.up.up, Flipped(g);
    FlipsFit(c, t);
    FixRedUncle(rb, node, c.up.up, g);
  }

  lemma FlipsFit(c: Ctx, t: Tree)
    requires RedFocus(c, t) && c != Top && c.red && c.up != Top && IsRed(Sibling(c.up))
    ensures var g := Step(c.up, Step(c, t));
            && IsRed(g.left) && IsRed(g.right)
            && NoRedRed(g.left.left) && NoRedRed(g.left.right) && NoRedRed(g.right.left) && NoRedRed(g.right.right)
  {
  }

  /** One round of the loop at rbtree.c:142-195. */
  method FixRound(rb: RbTree, node0: Node, ghost c: Ctx, ghost t: Tree)
    returns (node: Node, ghost c': Ctx, ghost t': Tree)
    requires At(rb, c, t, node0, node0.parent) && RedFocus(c, t) && NilOk(rb)
    requires c != Top && c.red
    modifies rb`root, Refs(t) + CRefs(c)
    ensures At(rb, c', t', node, node.parent) && RedFocus(c', t') && NilOk(rb)
    ensures Stays(c, t, c', t') && Depth(c') < Depth(c)
  {
    Grandparent(c, t);
    UncleOf(rb, c, t, node0);
    if node0.parent == node0.parent.parent.left {
      var uncle := node0.parent.parent.right;
      if uncle.red {
        node, c', t' := FlipUp(rb, node0, c, t);
      } else {
        node, c', t' := FixLeft(rb, node0, c, t);
      }
    } else {
      var uncle := node0.parent.parent.left;
      if uncle.red {
        node, c', t' := FlipUp(rb, node0, c, t);
      } else {
        node, c', t' := FixRight(rb, node0, c, t);
      }
    }
  }

  /** Painting the root of the finished tree black makes it a red-black tree. */
  lemma RootBlackens(c: Ctx, t: Tree)
    requires RedFocus(c, t) && (c == Top || !c.red)
    ensures var w := Plug(c, t); w.Fork? && RedBlack(Painted(w, false)) && InOrder(Painted(w, false)) == InOrder(w)
  {
    if c != Top {
      assert CNoRedRed(c, true);
      PlugRedBlack(c, t);
      PlugRefs(c, t);
      assert t.node in Refs(Plug(c, t));
    }
  }

  method InsertFixup(rb: RbTree, node0: Node, ghost c0: Ctx, ghost t0: Tree) returns (ghost w: Tree)
    requires At(rb, c0, t0, node0, node0.parent) && RedFocus(c0, t0) && NilOk(rb)
    modifies rb`root, Refs(t0) + CRefs(c0)
    ensures RepT(w, rb.root, rb.nil, rb.nil) && RedBlack(w) && NilOk(rb)
    ensures InOrder(w) == InOrder(Plug(c0, t0))
  {
    var node := node0;
    ghost var c, t := c0, t0;
    CheckGuard(rb, c, t, node);
    while node != rb.root && node.parent.red
      invariant At(rb, c, t, node, node.parent) && RedFocus(c, t) && NilOk(rb)
      invariant Stays(c0, t0, c, t)
      invariant node == rb.root <==> c == Top
      invariant node.parent.red <==> c != Top && c.red
      decreases Depth(c)
    {
      SameNodes(c0, t0, c, t);
      node, c, t := FixRound(rb, node, c, t);
      CheckGuard(rb, c, t, node);
    }
    SameNodes(c0, t0, c, t);
    w := BlackenRoot(rb, node, c, t);
  }

  /** rbtree.c:196 */
  method BlackenRoot(rb: RbTree, node: Node, ghost c: Ctx, ghost t: Tree) returns (ghost w: Tree)
    requires At(rb, c, t, node, node.parent) && RedFocus(c, t) && (c == Top || !c.red) && NilOk(rb)
    modifies Refs(t) + CRefs(c)
    ensures RepT(w, rb.root, rb.nil, rb.nil) && RedBlack(w) && NilOk(rb)
    ensures InOrder(w) == InOrder(Plug(c, t))
  {
    RootBlackens(c, t);
    PlugRep(c, t, node, node.parent, rb.root, rb.nil, rb.nil);
    PlugRefs(c, t);
    NilNotInTree(Plug(c, t), rb.root, rb.nil, rb.nil);
    rb.root.red := false;
    w := Painted(Plug(c, t), false);
  }

  lemma CheckGuard(rb: RbTree, c: Ctx, t: Tree, node: Node)
    requires At(rb, c, t, node, node.parent) && t.Fork? && NilOk(rb)
    ensures node == rb.root <==> c == Top
    ensures node.parent.red <==> c != Top && c.red
  {
    if c != Top { RootInCtx(c, node, node.parent, rb.root, rb.nil, rb.nil); }
  }

  // ----- insertion -----

  /** The order the tree's comparison function computes, with the sign convention of strcmp. */
  function Compare(a: int, b: int): int {
    if a < b then -1 else if a > b then 1 else 0
  }

  /** The descent of rbtree_insert (rbtree.c:212-229). A null shape of t at the end means a free place. */
  method FindPlace(rb: RbTree, key: int)
    returns (dup: bool, parent: Node, r: int, ghost c: Ctx)
    requires Valid(rb)
    ensures dup <==> exists n <- InOrder(rb.shape) :: n.key == key
    ensures !dup ==> RepC(c, rb.nil, parent, rb.root, rb.nil, rb.nil) && Plug(c, Leaf) == rb.shape
    ensures Valid(rb)
    ensures !dup ==> Below(Before(c), key) && Above(After(c), key)
    ensures !dup ==> (c.InLeft? ==> r < 0) && (c.InRight? ==> r >= 0)
  {
    assert allocated(Refs(rb.shape));
    r := 0;
    var node := rb.root;
    parent := rb.nil;
    c, dup := Top, false;
    ghost var t := rb.shape;
    while node != rb.nil
      invariant At(rb, c, t, node, parent) && Plug(c, t) == rb.shape
      invariant Below(Before(c), key) && Above(After(c), key)
      invariant (c.InLeft? ==> r < 0) && (c.InRight? ==> r >= 0)
      decreases t
    {
      Descend(c, t, key);
      r := Compare(key, node.key);
      if r == 0 {
        return true, parent, r, c;
      }
      parent := node;
      if r < 0 {
        UnzipLeft(rb, c, t, node, node.parent);
        c, t := InLeft(c, t.node, t.red, t.right), t.left;
        node := node.left;
      } else {
        UnzipRight(rb, c, t, node, node.parent);
        c, t := InRight(c, t.left, t.node, t.red), t.right;
        node := node.right;
      }
    }
    LastBelowIsGreatest(c, key);
  }

  /** rbtree.c:231-246: hang the new red leaf in the free place. */
  method Hang(rb: RbTree, data: Node, parent: Node, r: int, ghost c: Ctx)
    requires RepC(c, rb.nil, parent, rb.root, rb.nil, rb.nil)
    requires data != rb.nil && data !in CRefs(c)
    requires (c.InLeft? ==> r < 0) && (c.InRight? ==> r >= 0)
    modifies rb`root, rb`count, data, CRefs(c)
    ensures At(rb, c, Fork(Leaf, data, true, Leaf), data, data.parent) && rb.count == old(rb.count) + 1
  {
    NilNotInCtx(c, rb.nil, parent, rb.root, rb.nil, rb.nil);
    assert allocated(CRefs(c));
    data.parent := parent;
    data.left, data.right := rb.nil, rb.nil;
    data.red := true;
    rb.count := rb.count + 1;
    assert RepC(c, rb.nil, parent, rb.root, rb.nil, rb.nil);
    if parent != rb.nil {
      HangBelow(rb, data, parent, r, c);
    } else {
      rb.root := data;
    }
  }

  method HangBelow(rb: RbTree, data: Node, parent: Node, r: int, ghost c: Ctx)
    requires RepC(c, rb.nil, parent, rb.root, rb.nil, rb.nil) && c != Top
    requires (c.InLeft? ==> r < 0) && (c.InRight? ==> r >= 0)
    modifies parent`left, parent`right
    ensures RepC(c, data, parent, rb.root, rb.nil, rb.nil)
  {
    if r < 0 {
      parent.left := data;
    } else {
      parent.right := data;
    }
  }

  /** The new red leaf is a legal start for the fixup. */
  lemma NewLeafColors(c: Ctx, data: Node)
    requires RedBlack(Plug(c, Leaf))
    ensures RedFocus(c, Fork(Leaf, data, true, Leaf))
  {
    UnplugRedBlack(c, Leaf);
    var t := Fork(Leaf, data, true, Leaf);
    assert Balanced(t) && NoRedRed(t) && BlackHeight(t) == BlackHeight(Leaf);
  }

  /** It takes its place in the key order. */
  lemma NewLeafOrder(c: Ctx, data: Node)
    requires Sorted(InOrder(Plug(c, Leaf))) && Below(Before(c), data.key) && Above(After(c), data.key)
    ensures var s := InOrder(Plug(c, Fork(Leaf, data, true, Leaf)));
            Sorted(s) && |s| == |InOrder(Plug(c, Leaf))| + 1
  {
    var t := Fork(Leaf, data, true, Leaf);
    PlugInOrder(c, t); PlugInOrder(c, Leaf);
    assert InOrder(t) == [data];
    InsertKeepsSorted(Before(c), data, After(c));
  }

  lemma InsertKeepsSorted(a: seq<Node>, n: Node, b: seq<Node>)
    requires Sorted(a + [] + b) && Below(a, n.key) && Above(b, n.key)
    ensures Sorted(a + [n] + b)
  {
    var s, s' := a + [] + b, a + [n] + b;
    forall i, j | 0 <= i < j < |s'|
      ensures s'[i].key < s'[j].key
    {
      if j < |a| {
        assert s[i] == s'[i] && s[j] == s'[j];
      } else if i > |a| {
        assert s[i - 1] == s'[i] && s[j - 1] == s'[j];
      } else if i == |a| {
        assert s'[j] == b[j - |a| - 1];
      } else if j > |a| {
        assert s[i] == s'[i] && s[j - 1] == s'[j];
      }
    }
  }

  /** rbtree.c:231-251, once the place is known. */
  method InsertAt(rb: RbTree, data: Node, parent: Node, r: int, ghost c: Ctx)
    requires Valid(rb) && data != rb.nil && data !in Refs(rb.shape)
    requires RepC(c, rb.nil, parent, rb.root, rb.nil, rb.nil) && Plug(c, Leaf) == rb.shape
    requires (c.InLeft? ==> r < 0) && (c.InRight? ==> r >= 0)
    requires Below(Before(c), data.key) && Above(After(c), data.key)
    modifies rb, data, Refs(rb.shape)
    ensures Valid(rb) && rb.count == old(rb.count) + 1
    ensures Refs(rb.shape) == old(Refs(rb.shape)) + {data}
  {
    ghost var t := Fork(Leaf, data, true, Leaf);
    PlugRefs(c, Leaf);
    NewLeafColors(c, data);
    NilNotInCtx(c, rb.nil, parent, rb.root, rb.nil, rb.nil);
    Hang(rb, data, parent, r, c);
    ghost var w := InsertFixup(rb, data, c, t);
    NewOrder(c, data, w);
    rb.shape := w;
  }

  lemma NewOrder(c: Ctx, data: Node, w: Tree)
    requires Sorted(InOrder(Plug(c, Leaf))) && Below(Before(c), data.key) && Above(After(c), data.key)
    requires InOrder(w) == InOrder(Plug(c, Fork(Leaf, data, true, Leaf)))
    ensures Sorted(InOrder(w)) && |InOrder(w)| == |InOrder(Plug(c, Leaf))| + 1
    ensures Refs(w) == Refs(Plug(c, Leaf)) + {data}
  {
    NewLeafOrder(c, data);
    PlugRefs(c, Leaf); PlugRefs(c, Fork(Leaf, data, true, Leaf));
    RefsAreInOrder(w); RefsAreInOrder(Plug(c, Fork(Leaf, data, true, Leaf)));
  }

  /** A fresh key joins the tree and every invariant holds again; a duplicate changes nothing
      (with the same root and shape, Valid leaves no link or colour free). */
  method Insert(rb: RbTree, data: Node) returns (res: Node?)
    requires Valid(rb) && data != rb.nil && data !in Refs(rb.shape)
    modifies rb, data, Refs(rb.shape)
    ensures Valid(rb)
    ensures res == null <==> exists n <- InOrder(old(rb.shape)) :: n.key == data.key
    ensures res == null ==> unchanged(rb) && unchanged(data)
    ensures res != null ==> res == data && Refs(rb.shape) == old(Refs(rb.shape)) + {data}
    ensures res != null ==> rb.count == old(rb.count) + 1
  {
    assert allocated(Refs(rb.shape));
    var dup, parent, r; ghost var c;
    dup, parent, r, c := FindPlace(rb, data.key);
    if dup {
      return null;
    }
    assert allocated(CRefs(c));
    InsertAt(rb, data, parent, r, c);
    res := data;
  }
}
