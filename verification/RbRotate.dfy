/** Sub-tree relinking: rotations and the pointer updates they are made of (rbtree.c:86-134, 282-302). */
module RbRotate {
  import opened RbShape

  /** rbtree_null_node as declared: self-linked and black. */
  ghost predicate NilOk(rb: RbTree)
    reads rb.nil
  {
    rb.nil.parent == rb.nil && rb.nil.left == rb.nil && rb.nil.right == rb.nil && !rb.nil.red
  }

  /** p is the root of subtree t, which hangs in the hole of c under par. */
  ghost predicate At(rb: RbTree, c: Ctx, t: Tree, p: Node, par: Node)
    reads rb, Refs(t), CRefs(c)
  {
    && RepC(c, p, par, rb.root, rb.nil, rb.nil) && RepT(t, p, par, rb.nil) && Refs(t) !! CRefs(c)
  }

  /** Make q, instead of p, the child in the hole of c; the left rotation asks for the left side first, the
      right one for the right side (rbtree.c:96-104, 123-131). */
  method SetChild(rb: RbTree, p: Node, par: Node, q: Node, leftFirst: bool, ghost c: Ctx)
    requires RepC(c, p, par, rb.root, rb.nil, rb.nil) && p != rb.nil && p !in CRefs(c)
    modifies rb`root, CRefs(c)
    ensures RepC(c, q, par, rb.root, rb.nil, rb.nil)
  {
    NilNotInCtx(c, p, par, rb.root, rb.nil, rb.nil);
    if c != Top { ChildSide(rb, c, p, par); }
    if par != rb.nil {
      if leftFirst {
        if p == par.left {
          par.left := q;
        } else {
          par.right := q;
        }
      } else if p == par.right {
        par.right := q;
      } else {
        par.left := q;
      }
    } else {
      rb.root := q;
    }
  }

  /** A proper child hangs on one side only. */
  lemma ChildSide(rb: RbTree, c: Ctx, p: Node, par: Node)
    requires RepC(c, p, par, rb.root, rb.nil, rb.nil) && p != rb.nil && p !in CRefs(c) && c != Top
    ensures p == par.left <==> c.InLeft?
    ensures p == par.right <==> c.InRight?
  {
    if c.InLeft? {
      NilNotInTree(c.right, par.right, par, rb.nil);
    } else {
      NilNotInTree(c.left, par.left, par, rb.nil);
    }
  }

  /** Point the root of subtree t, if there is one, at its new parent. */
  method SetParent(rb: RbTree, p: Node, par: Node, ghost oldPar: Node, ghost t: Tree)
    requires RepT(t, p, oldPar, rb.nil)
    modifies Refs(t)
    ensures RepT(t, p, par, rb.nil)
  {
    if p != rb.nil {
      p.parent := par;
    }
  }

  // ----- moving the focus -----

  /** The parent's subtree hangs where the parent does. */
  lemma Zip(rb: RbTree, c: Ctx, t: Tree, p: Node, par: Node)
    requires At(rb, c, t, p, par) && c != Top
    ensures c.InLeft? ==> At(rb, c.up, Fork(t, c.node, c.red, c.right), par, par.parent)
    ensures c.InRight? ==> At(rb, c.up, Fork(c.left, c.node, c.red, t), par, par.parent)
    ensures par == c.node
  {}

  lemma UnzipLeft(rb: RbTree, c: Ctx, t: Tree, p: Node, par: Node)
    requires At(rb, c, t, p, par) && t.Fork?
    ensures At(rb, InLeft(c, t.node, t.red, t.right), t.left, p.left, p)
  {}

  lemma UnzipRight(rb: RbTree, c: Ctx, t: Tree, p: Node, par: Node)
    requires At(rb, c, t, p, par) && t.Fork?
    ensures At(rb, InRight(c, t.left, t.node, t.red), t.right, p.right, p)
  {}

  lemma NilApart(rb: RbTree, c: Ctx, t: Tree, p: Node, par: Node)
    requires At(rb, c, t, p, par)
    ensures rb.nil !in Refs(t) && rb.nil !in CRefs(c)
  {
    NilNotInTree(t, p, par, rb.nil);
    NilNotInCtx(c, p, par, rb.root, rb.nil, rb.nil);
  }

  // ----- rotations -----

  /** Pieces of a left rotation: x holds a and b, y holds d on its right, all apart from each other. */
  ghost predicate LeftPieces(rb: RbTree, a: Tree, x: Node, b: Tree, y: Node, d: Tree)
    reads {x, y}, Refs(a), Refs(b), Refs(d)
  {
    && x != y && x != rb.nil && y != rb.nil
    && RepT(a, x.left, x, rb.nil) && RepT(b, x.right, x, rb.nil) && RepT(d, y.right, y, rb.nil)
    && x !in Refs(a) + Refs(b) + Refs(d) && y !in Refs(a) + Refs(b) + Refs(d)
    && Refs(a) !! Refs(b) && Refs(a) !! Refs(d) && Refs(b) !! Refs(d)
  }

  /** rbtree.c:89-94: x takes over y's left subtree, y takes over x's parent link. */
  method DetachLeft(rb: RbTree, x: Node, ghost t: Tree, ghost par: Node) returns (y: Node)
    requires t.Fork? && t.right.Fork? && RepT(t, x, par, rb.nil)
    modifies x`right, t.right.node`parent, Refs(t.right.left)
    ensures y == t.right.node && LeftPieces(rb, t.left, x, t.right.left, y, t.right.right)
    ensures y.parent == x.parent && unchanged(x`parent) && unchanged(x`red) && unchanged(y`red)
  {
    ghost var b, d := t.right.left, t.right.right;
    y := x.right;
    assert RepT(t.right, y, x, rb.nil);
    assert Refs(t.right) == Refs(b) + {y} + Refs(d);
    assert allocated(Refs(t));
    x.right := y.left;
    SetParent(rb, y.left, x, y, b);
    y.parent := x.parent;
  }

  /** rbtree.c:105-106 */
  method AttachLeft(rb: RbTree, x: Node, y: Node, ghost a: Tree, ghost b: Tree, ghost d: Tree)
    requires LeftPieces(rb, a, x, b, y, d)
    modifies x`parent, y`left
    ensures RepT(Fork(Fork(a, x, x.red, b), y, y.red, d), y, y.parent, rb.nil)
  {
    y.left := x;
    x.parent := y;
    assert RepT(Fork(a, x, x.red, b), x, y, rb.nil);
  }

  ghost function RotatedLeft(t: Tree): Tree
    requires t.Fork? && t.right.Fork?
  {
    Fork(Fork(t.left, t.node, t.red, t.right.left), t.right.node, t.right.red, t.right.right)
  }

  method RotateLeft(rb: RbTree, node: Node, ghost c: Ctx, ghost t: Tree)
    requires t.Fork? && t.right.Fork? && At(rb, c, t, node, node.parent)
    modifies rb`root, Refs(t) + CRefs(c)
    ensures At(rb, c, RotatedLeft(t), t.right.node, old(node.parent))
  {
    assert RepT(t.right, node.right, node, rb.nil);
    assert Refs(t.right) == Refs(t.right.left) + {node.right} + Refs(t.right.right);
    assert allocated(Refs(t)) && allocated(CRefs(c));
    var right := DetachLeft(rb, node, t, node.parent);
    SetChild(rb, node, node.parent, right, true, c);
    AttachLeft(rb, node, right, t.left, t.right.left, t.right.right);
  }

  /** Pieces of a right rotation: x holds a on its left, y holds b and d. */
  ghost predicate RightPieces(rb: RbTree, a: Tree, x: Node, b: Tree, y: Node, d: Tree)
    reads {x, y}, Refs(a), Refs(b), Refs(d)
  {
    && x != y && x != rb.nil && y != rb.nil
    && RepT(a, x.left, x, rb.nil) && RepT(b, y.left, y, rb.nil) && RepT(d, y.right, y, rb.nil)
    && x !in Refs(a) + Refs(b) + Refs(d) && y !in Refs(a) + Refs(b) + Refs(d)
    && Refs(a) !! Refs(b) && Refs(a) !! Refs(d) && Refs(b) !! Refs(d)
  }

  /** rbtree.c:116-121 */
  method DetachRight(rb: RbTree, y: Node, ghost t: Tree, ghost par: Node) returns (x: Node)
    requires t.Fork? && t.left.Fork? && RepT(t, y, par, rb.nil)
    modifies y`left, t.left.node`parent, Refs(t.left.right)
    ensures x == t.left.node && RightPieces(rb, t.left.left, x, t.left.right, y, t.right)
    ensures x.parent == y.parent && unchanged(y`parent) && unchanged(x`red) && unchanged(y`red)
  {
    ghost var a, b := t.left.left, t.left.right;
    x := y.left;
    assert RepT(t.left, x, y, rb.nil);
    assert Refs(t.left) == Refs(a) + {x} + Refs(b);
    assert allocated(Refs(t));
    y.left := x.right;
    SetParent(rb, x.right, y, x, b);
    x.parent := y.parent;
  }

  /** rbtree.c:132-133 */
  method AttachRight(rb: RbTree, x: Node, y: Node, ghost a: Tree, ghost b: Tree, ghost d: Tree)
    requires RightPieces(rb, a, x, b, y, d)
    modifies y`parent, x`right
    ensures RepT(Fork(a, x, x.red, Fork(b, y, y.red, d)), x, x.parent, rb.nil)
  {
    x.right := y;
    y.parent := x;
    assert RepT(Fork(b, y, y.red, d), y, x, rb.nil);
  }

  ghost function RotatedRight(t: Tree): Tree
    requires t.Fork? && t.left.Fork?
  {
    Fork(t.left.left, t.left.node, t.left.red, Fork(t.left.right, t.node, t.red, t.right))
  }

  method RotateRight(rb: RbTree, node: Node, ghost c: Ctx, ghost t: Tree)
    requires t.Fork? && t.left.Fork? && At(rb, c, t, node, node.parent)
    modifies rb`root, Refs(t) + CRefs(c)
    ensures At(rb, c, RotatedRight(t), t.left.node, old(node.parent))
  {
    assert RepT(t.left, node.left, node, rb.nil);
    assert Refs(t.left) == Refs(t.left.left) + {node.left} + Refs(t.left.right);
    assert allocated(Refs(t)) && allocated(CRefs(c));
    var left := DetachRight(rb, node, t, node.parent);
    SetChild(rb, node, node.parent, left, false, c);
    AttachRight(rb, left, node, t.left.left, t.left.right, t.right);
  }

  lemma RotationKeeps(t: Tree)
    requires t.Fork?
    ensures t.right.Fork? ==> Refs(RotatedLeft(t)) == Refs(t) && InOrder(RotatedLeft(t)) == InOrder(t)
    ensures t.left.Fork? ==> Refs(RotatedRight(t)) == Refs(t) && InOrder(RotatedRight(t)) == InOrder(t)
  {
  }
}
