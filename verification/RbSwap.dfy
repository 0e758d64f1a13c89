/** The relinking swap of rbtree_delete: a node with two children changes places with its
    in-order successor (rbtree.c:282-353). */
module RbSwap {
  import opened RbShape

  // ----- path segments -----

  /** Segment i hung into the hole of base. */
  ghost function Compose(i: Ctx, base: Ctx): Ctx {
    match i
    case Top => base
    case InLeft(up, n, red, r) => InLeft(Compose(up, base), n, red, r)
    case InRight(up, l, n, red) => InRight(Compose(up, base), l, n, red)
  }

  lemma {:induction false} ComposeRefs(i: Ctx, base: Ctx)
    ensures CRefs(Compose(i, base)) == CRefs(i) + CRefs(base)
  {
    if i != Top { ComposeRefs(i.up, base); }
  }

  lemma {:induction false} ComposePlug(i: Ctx, base: Ctx, t: Tree)
    ensures Plug(Compose(i, base), t) == Plug(base, Plug(i, t))
    decreases i
  {
    match i
    case Top =>
    case InLeft(up, n, red, r) => ComposePlug(up, base, Fork(t, n, red, r));
    case InRight(up, l, n, red) => ComposePlug(up, base, Fork(l, n, red, t));
  }

  lemma {:induction false} ComposeRep(i: Ctx, base: Ctx, p: Node, par: Node, mid: Node, midPar: Node,
      topNode: Node, topPar: Node, nil: Node)
    requires RepC(i, p, par, mid, midPar, nil) && RepC(base, mid, midPar, topNode, topPar, nil)
    requires CRefs(i) !! CRefs(base)
    ensures RepC(Compose(i, base), p, par, topNode, topPar, nil)
    decreases i
  {
    if i != Top {
      ComposeRefs(i.up, base);
      ComposeRep(i.up, base, i.node, i.node.parent, mid, midPar, topNode, topPar, nil);
    }
  }

  ghost function TopNode(i: Ctx): Node
    requires i != Top
    ensures TopNode(i) in CRefs(i)
  {
    if i.up == Top then i.node else TopNode(i.up)
  }

  /** A segment without the parent link of its topmost node. */
  ghost predicate Spine(i: Ctx, p: Node, nil: Node)
    requires i != Top
    reads CRefs(i) - {TopNode(i)}, TopNode(i)`left, TopNode(i)`right, TopNode(i)`red
  {
    match i
    case InLeft(up, n, red, r) =>
      && n != nil && n.left == p && n.red == red
      && n !in CRefs(up) && n !in Refs(r) && CRefs(up) !! Refs(r)
      && RepT(r, n.right, n, nil) && (up != Top ==> n.parent == up.node && Spine(up, n, nil))
    case InRight(up, l, n, red) =>
      && n != nil && n.right == p && n.red == red
      && n !in CRefs(up) && n !in Refs(l) && CRefs(up) !! Refs(l)
      && RepT(l, n.left, n, nil) && (up != Top ==> n.parent == up.node && Spine(up, n, nil))
  }

  lemma {:induction false} SpineIs(i: Ctx, p: Node, topNode: Node, topPar: Node, nil: Node)
    requires i != Top
    ensures RepC(i, p, i.node, topNode, topPar, nil) <==>
      Spine(i, p, nil) && TopNode(i) == topNode && topNode.parent == topPar
    decreases i
  {
    if i.up != Top { SpineIs(i.up, i.node, topNode, topPar, nil); }
  }

  // ----- the two pointer helpers -----

  /** change_parent_ptr */
  method ChangeParentPtr(rb: RbTree, parent: Node, old': Node, new': Node, ghost c: Ctx, ghost topNode: Node,
      ghost topPar: Node)
    requires RepC(c, old', parent, topNode, topPar, rb.nil) && old' != rb.nil && old' !in CRefs(c)
    requires if c == Top then parent == rb.nil && topNode == rb.root else parent != rb.nil
    modifies rb`root, CRefs(c)
    ensures RepC(c, new', parent, if c == Top then rb.root else topNode, topPar, rb.nil)
    ensures c != Top ==> unchanged(rb)
  {
    if parent == rb.nil {
      if rb.root == old' { rb.root := new'; }
      return;
    }
    if c.InLeft? {
      NilNotInTree(c.right, parent.right, parent, rb.nil);
    } else {
      NilNotInTree(c.left, parent.left, parent, rb.nil);
    }
    assert old' == parent.left <==> c.InLeft?;
    assert old' == parent.right <==> c.InRight?;
    if parent.left == old' {
      parent.left := new';
    }
    if parent.right == old' {
      parent.right := new';
    }
  }

  /** change_child_ptr */
  method ChangeChildPtr(rb: RbTree, child: Node, old': Node, new': Node, ghost t: Tree, ghost q: Node)
    requires RepT(t, child, q, rb.nil) && (q == old' || q == new')
    modifies Refs(t)
    ensures RepT(t, child, new', rb.nil)
  {
    if child == rb.nil { return; }
    if child.parent == old' { child.parent := new'; }
  }

  /** change_child_ptr on the node at the top of a segment. */
  method ChangeTopPtr(rb: RbTree, child: Node, old': Node, new': Node, ghost i: Ctx, ghost p: Node)
    requires i != Top && RepC(i, p, i.node, child, old', rb.nil)
    modifies child`parent
    ensures RepC(i, p, i.node, child, new', rb.nil)
  {
    SpineIs(i, p, child, old', rb.nil);
    NilNotInCtx(i, p, i.node, child, old', rb.nil);
    assert allocated(CRefs(i));
    if child == rb.nil { return; }
    if child.parent == old' { child.parent := new'; }
    SpineIs(i, p, child, new', rb.nil);
  }

  // ----- the swap -----

  /** x, with left subtree l, sits below c; y, with right subtree yr, sits at the end of segment i
      in x's right subtree. */
  datatype Parts = Parts(x: Node, y: Node, c: Ctx, l: Tree, i: Ctx, yr: Tree)

  /** How the four parts are reached: the node at each end and the parent link it carries. */
  datatype Ends = Ends(atC: Node, cPar: Node, lp: Node, lPar: Node,
                       atI: Node, iPar: Node, iTop: Node, iTopPar: Node, yrp: Node, yrPar: Node)

  ghost predicate Apart(ps: Parts) {
    && ps.x != ps.y
    && ps.x !in Frame(ps) && ps.y !in Frame(ps)
    && CRefs(ps.c) !! Refs(ps.l) && CRefs(ps.c) !! CRefs(ps.i) && CRefs(ps.c) !! Refs(ps.yr)
    && Refs(ps.l) !! CRefs(ps.i) && Refs(ps.l) !! Refs(ps.yr) && CRefs(ps.i) !! Refs(ps.yr)
  }

  ghost function Frame(ps: Parts): set<Node> {
    CRefs(ps.c) + Refs(ps.l) + CRefs(ps.i) + Refs(ps.yr)
  }

  ghost predicate Around(rb: RbTree, ps: Parts, e: Ends)
    reads rb, Frame(ps)
  {
    && RepC(ps.c, e.atC, e.cPar, rb.root, rb.nil, rb.nil) && RepT(ps.l, e.lp, e.lPar, rb.nil)
    && (ps.i != Top ==> RepC(ps.i, e.atI, e.iPar, e.iTop, e.iTopPar, rb.nil))
    && RepT(ps.yr, e.yrp, e.yrPar, rb.nil)
  }

  /** rbtree.c:328 */
  method SwapAboveX(rb: RbTree, x: Node, y: Node, ghost ps: Parts, ghost e: Ends)
    requires Around(rb, ps, e) && Apart(ps) && x == ps.x == e.atC && y == ps.y && x != rb.nil && e.cPar == x.parent
    modifies rb`root, CRefs(ps.c)
    ensures Around(rb, ps, e.(atC := y))
  {
    assert allocated(Frame(ps));
    NilNotInCtx(ps.c, x, x.parent, rb.root, rb.nil, rb.nil);
    ChangeParentPtr(rb, x.parent, x, y, ps.c, rb.root, rb.nil);
  }

  /** rbtree.c:329-330 */
  method SwapAboveY(rb: RbTree, x: Node, y: Node, ghost ps: Parts, ghost e: Ends)
    requires Around(rb, ps, e) && Apart(ps) && x == ps.x && y == ps.y == e.atI && y != rb.nil && e.iPar == y.parent
    requires ps.i == Top <==> x.right == y
    modifies rb`root, CRefs(ps.i)
    ensures Around(rb, ps, e.(atI := x))
  {
    assert allocated(Frame(ps));
    if x.right != y {
      NilNotInCtx(ps.i, y, y.parent, e.iTop, e.iTopPar, rb.nil);
      ChangeParentPtr(rb, y.parent, y, x, ps.i, e.iTop, e.iTopPar);
    }
  }

  /** rbtree.c:333-336; the second call of each pair finds nothing left to change. */
  method SwapBelowY(rb: RbTree, x: Node, y: Node, ghost ps: Parts, ghost e: Ends)
    requires Around(rb, ps, e) && Apart(ps) && x == ps.x && y == ps.y && y.left == rb.nil
    requires e.yrp == y.right && e.yrPar == y
    modifies Refs(ps.yr)
    ensures Around(rb, ps, e.(yrPar := x))
  {
    assert allocated(Frame(ps));
    ChangeChildPtr(rb, y.left, y, x, Leaf, y);
    ChangeChildPtr(rb, y.left, y, x, Leaf, y);
    ChangeChildPtr(rb, y.right, y, x, ps.yr, y);
    ChangeChildPtr(rb, y.right, y, x, ps.yr, x);
  }

  /** rbtree.c:337 */
  method SwapBelowXLeft(rb: RbTree, x: Node, y: Node, ghost ps: Parts, ghost e: Ends)
    requires Around(rb, ps, e) && Apart(ps) && x == ps.x && y == ps.y && e.lp == x.left && e.lPar == x
    modifies Refs(ps.l)
    ensures Around(rb, ps, e.(lPar := y))
  {
    assert allocated(Frame(ps));
    ChangeChildPtr(rb, x.left, x, y, ps.l, x);
  }

  /** rbtree.c:338-339 */
  method SwapBelowXRight(rb: RbTree, x: Node, y: Node, ghost ps: Parts, ghost e: Ends)
    requires Around(rb, ps, e) && Apart(ps) && x == ps.x && y == ps.y && e.iTop == x.right && e.iTopPar == x
    requires ps.i == Top <==> x.right == y
    modifies CRefs(ps.i)
    ensures Around(rb, ps, e.(iTopPar := y))
  {
    assert allocated(Frame(ps));
    if x.right != y {
      SpineIs(ps.i, e.atI, x.right, x, rb.nil);
      ChangeTopPtr(rb, x.right, x, y, ps.i, e.atI);
    }
  }

  /** rbtree.c:340-350 */
  method SwapOwnLinks(x: Node, y: Node)
    requires x != y
    modifies x`parent, x`left, x`right, y`parent, y`left, y`right
    ensures y.parent == old(x.parent) && x.left == old(y.left) && y.left == old(x.left) && x.right == old(y.right)
    ensures x.parent == if old(x.right) == y then y else old(y.parent)
    ensures y.right == if old(x.right) == y then x else old(x.right)
  {
    if x.right == y {
      x.right := x;
      y.parent := y;
    }
    x.parent, y.parent := y.parent, x.parent;
    x.left, y.left := y.left, x.left;
    x.right, y.right := y.right, x.right;
  }

  /** The links at x and y before the swap, and the links their neighbours end up with. */
  ghost function EndsBefore(x: Node, y: Node): Ends
    reads x, y
  {
    Ends(x, x.parent, x.left, x, y, y.parent, x.right, x, y.right, y)
  }

  ghost function EndsAfter(x: Node, y: Node): Ends
    reads x, y
  {
    EndsBefore(x, y).(atC := y, atI := x, yrPar := x, lPar := y, iTopPar := y)
  }

  /** rbtree.c:328-339 */
  method SwapNeighbours(rb: RbTree, x: Node, y: Node, ghost ps: Parts)
    requires x != rb.nil && y != rb.nil && Apart(ps) && x == ps.x && y == ps.y && y.left == rb.nil
    requires Around(rb, ps, EndsBefore(x, y)) && (ps.i == Top <==> x.right == y)
    modifies rb`root, Frame(ps)
    ensures Around(rb, ps, EndsAfter(x, y))
  {
    assert allocated(Frame(ps));
    ghost var e := EndsBefore(x, y);
    SwapAboveX(rb, x, y, ps, e);
    SwapAboveY(rb, x, y, ps, e.(atC := y));
    SwapBelowY(rb, x, y, ps, e.(atC := y, atI := x));
    SwapBelowXLeft(rb, x, y, ps, e.(atC := y, atI := x, yrPar := x));
    SwapBelowXRight(rb, x, y, ps, e.(atC := y, atI := x, yrPar := x, lPar := y));
  }

  /** The pointer surgery as a whole (rbtree.c:325-350). */
  method SwapPlaces(rb: RbTree, x: Node, y: Node, ghost ps: Parts)
    requires x != rb.nil && y != rb.nil && Apart(ps) && x == ps.x && y == ps.y && y.left == rb.nil
    requires Around(rb, ps, EndsBefore(x, y)) && (ps.i == Top <==> x.right == y)
    modifies rb`root, x, y, Frame(ps)
    ensures Around(rb, ps, Ends(y, y.parent, y.left, y, x, x.parent, y.right, y, x.right, x))
    ensures x.left == rb.nil && x.red == old(y.red) && y.red == old(x.red)
    ensures ps.i == Top ==> y.right == x && x.parent == y
  {
    assert allocated(Frame(ps));
    x.red, y.red := y.red, x.red;
    SwapNeighbours(rb, x, y, ps);
    SwapOwnLinks(x, y);
  }
}
