/** rbtree_delete (rbtree.c:304-380). */
module RbDelete {
  import opened RbShape
  import opened RbRotate
  import opened RbSearch
  import opened RbInsert
  import opened RbSwap
  import opened RbDeleteFixup

  // ----- lowering the node to where it has at most one child -----

  lemma {:induction false} ComposeOrder(i: Ctx, base: Ctx)
    ensures Before(Compose(i, base)) == Before(base) + Before(i)
    ensures After(Compose(i, base)) == After(i) + After(base)
  {
    if i != Top {
      ComposeOrder(i.up, base);
      if i.InRight? { assert Before(base) + Before(i.up) + (InOrder(i.left) + [i.node]) == Before(base) + Before(i); }
      if i.InLeft? { assert [i.node] + InOrder(i.right) + (After(i.up) + After(base)) == After(i) + After(base); }
    }
  }

  /** Colours do not depend on which node stands at a position. */
  lemma {:induction false} RenameFits(i: Ctx, c: Ctx, l: Tree, x: Node, y: Node, red: bool, h: nat, holeRed: bool)
    requires CBalanced(Compose(i, InRight(c, l, x, red)), h) && CNoRedRed(Compose(i, InRight(c, l, x, red)), holeRed)
    ensures CBalanced(Compose(i, InRight(c, l, y, red)), h) && CNoRedRed(Compose(i, InRight(c, l, y, red)), holeRed)
    decreases i
  {
    if i != Top { RenameFits(i.up, c, l, x, y, red, h + Weight(i.red), i.red); }
  }

  ghost predicate Fits(c: Ctx, t: Tree) {
    Balanced(t) && NoRedRed(t) && CBalanced(c, BlackHeight(t)) && CNoRedRed(c, IsRed(t))
  }

  /** What is left of a subtree whose root has at most one child, without that root. */
  ghost function Rest(t: Tree): Tree
    requires t.Fork? && (t.left == Leaf || t.right == Leaf)
  {
    if t.left == Leaf then t.right else t.left
  }

  /** s without its element x, in the same order. */
  ghost predicate Without(s: seq<Node>, x: Node, s': seq<Node>) {
    exists k | 0 <= k < |s| :: s[k] == x && s' == s[..k] + s[k + 1..]
  }

  lemma WithoutMiddle(a: seq<Node>, x: Node, b: seq<Node>)
    ensures Without(a + [x] + b, x, a + b)
  {
    var s := a + [x] + b;
    assert s[|a|] == x && s[..|a|] == a && s[|a| + 1..] == b;
  }

  lemma WithoutKeeps(s: seq<Node>, x: Node, s': seq<Node>)
    requires Sorted(s) && Without(s, x, s')
    ensures Sorted(s') && |s'| == |s| - 1
    ensures x in s && forall n :: n in s' <==> n in s && n != x
  {
    var k :| 0 <= k < |s| && s[k] == x && s' == s[..k] + s[k + 1..];
    var a, b := s[..k], s[k + 1..];
    assert s == a + [x] + b;
    SortedSplit(a, x, b);
    MiddleRemoved(a, x, b);
  }

  lemma MiddleRemoved(a: seq<Node>, x: Node, b: seq<Node>)
    requires Sorted(a + [x] + b)
    ensures Sorted(a + b)
  {
    var s, s' := a + [x] + b, a + b;
    assert forall i | 0 <= i < |a| :: s[i] == a[i] && s'[i] == a[i];
    assert forall i | 0 <= i < |b| :: s[|a| + 1 + i] == b[i] && s'[|a| + i] == b[i];
  }

  lemma SwapRegroup<T>(a: seq<T>, l: seq<T>, x: T, y: T, r: seq<T>, i: seq<T>, c: seq<T>)
    ensures a + (l + [x] + ([] + ([] + [y] + r) + i)) + c == (a + l) + [x] + ([y] + r + i + c)
    ensures (a + (l + [y]) + []) + r + (i + c) == (a + l) + ([y] + r + i + c)
  {}

  /** The two-child case, on values: x and its successor y change places and keep the colours there. */
  lemma SwappedColors(c: Ctx, l: Tree, x: Node, cx: bool, i: Ctx, y: Node, cy: bool, yr: Tree)
    requires RedBlack(Plug(c, Fork(l, x, cx, Plug(i, Fork(Leaf, y, cy, yr)))))
    ensures Fits(Compose(i, InRight(c, l, y, cx)), Fork(Leaf, x, cy, yr))
  {
    var low, base := Fork(Leaf, y, cy, yr), InRight(c, l, x, cx);
    ComposePlug(i, base, low);
    ComposedFits(Compose(i, base), low);
    RenameFits(i, c, l, x, y, cx, BlackHeight(low), cy);
    RenamedRoot(Compose(i, InRight(c, l, y, cx)), Leaf, x, y, cy, yr);
  }

  lemma ComposedFits(c: Ctx, t: Tree)
    requires RedBlack(Plug(c, t))
    ensures Fits(c, t)
  {
    UnplugRedBlack(c, t);
  }

  lemma RenamedRoot(c: Ctx, l: Tree, x: Node, y: Node, red: bool, r: Tree)
    requires Balanced(Fork(l, y, red, r)) && NoRedRed(Fork(l, y, red, r))
    requires CBalanced(c, BlackHeight(Fork(l, y, red, r))) && CNoRedRed(c, red)
    ensures Fits(c, Fork(l, x, red, r))
  {
  }

  /** ... and leaving x out of the result is leaving x out of the order. */
  lemma SwappedOrder(c: Ctx, l: Tree, x: Node, cx: bool, i: Ctx, y: Node, cy: bool, yr: Tree)
    requires Before(i) == []
    ensures Without(InOrder(Plug(c, Fork(l, x, cx, Plug(i, Fork(Leaf, y, cy, yr))))), x,
                    InOrder(Plug(Compose(i, InRight(c, l, y, cx)), yr)))
  {
    var low, base' := Fork(Leaf, y, cy, yr), InRight(c, l, y, cx);
    var r := Plug(i, low);
    PlugInOrder(c, Fork(l, x, cx, r)); PlugInOrder(i, low); PlugInOrder(Compose(i, base'), yr);
    ComposeOrder(i, base');
    SwapRegroup(Before(c), InOrder(l), x, y, InOrder(yr), After(i), After(c));
    WithoutMiddle(Before(c) + InOrder(l), x, [y] + InOrder(yr) + After(i) + After(c));
  }

  lemma RestOrder(t: Tree)
    requires t.Fork? && (t.left == Leaf || t.right == Leaf)
    ensures InOrder(Rest(t)) == InOrder(t.left) + InOrder(t.right)
  {}

  lemma Bracket<T>(a: seq<T>, b: seq<T>, c: seq<T>, d: seq<T>)
    ensures (a + b) + (c + d) == a + (b + c) + d
  {}

  /** The one-child case, on values. */
  lemma SingleOrder(c: Ctx, t: Tree)
    requires t.Fork? && (t.left == Leaf || t.right == Leaf)
    ensures Without(InOrder(Plug(c, t)), t.node, InOrder(Plug(c, Rest(t))))
  {
    hide *;
    var l, r := InOrder(t.left), InOrder(t.right);
    PlugAroundRoot(c, t); PlugInOrder(c, Rest(t));
    WithoutMiddle(Before(c) + l, t.node, r + After(c));
    RestOrder(t);
    Bracket(Before(c), l, r, After(c));
  }

  /** rbtree.c:316-318: the smallest node of the right subtree, with the path that leads down to it. */
  method Successor(rb: RbTree, x: Node, ghost r: Tree) returns (y: Node, ghost i: Ctx, ghost t: Tree)
    requires RepT(r, x.right, x, rb.nil) && r.Fork?
    ensures RepC(i, y, y.parent, x.right, x, rb.nil) && RepT(t, y, y.parent, rb.nil) && Refs(t) !! CRefs(i)
    ensures Plug(i, t) == r && Before(i) == [] && t.Fork? && t.left == Leaf && y == t.node && y.left == rb.nil
    ensures i == Top <==> x.right == y
  {
    y, i, t := x.right, Top, r;
    while y.left != rb.nil
      invariant RepC(i, y, y.parent, x.right, x, rb.nil) && RepT(t, y, y.parent, rb.nil) && Refs(t) !! CRefs(i)
      invariant Plug(i, t) == r && Before(i) == [] && t.Fork?
      decreases t
    {
      assert RepT(t.left, y.left, y, rb.nil);
      i, t := InLeft(i, t.node, t.red, t.right), t.left;
      y := y.left;
    }
    assert RepT(t.left, y.left, y, rb.nil);
    if i != Top { RootInCtx(i, y, y.parent, x.right, x, rb.nil); }
  }

  /** What the swap establishes: x is in place below c with at most one child, and taking it out
      leaves the colours balanced and the order s without x. */
  ghost predicate Lowered(rb: RbTree, x: Node, c: Ctx, t: Tree, s: seq<Node>)
    reads rb, x, Refs(t), CRefs(c)
  {
    && At(rb, c, t, x, x.parent) && t.Fork? && t.node == x && (t.left == Leaf || t.right == Leaf)
    && Fits(c, t) && Without(s, x, InOrder(Plug(c, Rest(t))))
  }

  lemma Disassemble(rb: RbTree, x: Node, y: Node, c: Ctx, t: Tree, i: Ctx, ty: Tree) returns (ps: Parts)
    requires At(rb, c, t, x, x.parent) && t.Fork? && t.left.Fork? && t.right.Fork?
    requires RepC(i, y, y.parent, x.right, x, rb.nil) && RepT(ty, y, y.parent, rb.nil) && Refs(ty) !! CRefs(i)
    requires Plug(i, ty) == t.right && ty.Fork? && ty.left == Leaf
    ensures ps == Parts(x, y, c, t.left, i, ty.right) && y == ty.node && x == t.node
    ensures Apart(ps) && Around(rb, ps, EndsBefore(x, y))
    ensures Frame(ps) + {x, y} == Refs(t) + CRefs(c)
  {
    ps := Parts(x, y, c, t.left, i, ty.right);
    PlugRefs(i, ty);
    assert Refs(t.right) == CRefs(i) + ({y} + Refs(ty.right));
    assert RepT(ty.right, y.right, y, rb.nil);
  }

  /** The parts of a subtree whose root x has two children and whose in-order successor is y. */
  ghost predicate Divided(ps: Parts, c: Ctx, t: Tree, cy: bool) {
    && t.Fork? && ps.x == t.node && ps.c == c && ps.l == t.left
    && t.right == Plug(ps.i, Fork(Leaf, ps.y, cy, ps.yr)) && Before(ps.i) == []
    && Apart(ps) && Frame(ps) + {ps.x, ps.y} == Refs(t) + CRefs(c)
  }

  method DivideAtSuccessor(rb: RbTree, x: Node, ghost c: Ctx, ghost t: Tree) returns (y: Node, ghost ps: Parts)
    requires At(rb, c, t, x, x.parent) && t.Fork? && t.left.Fork? && t.right.Fork?
    ensures y != rb.nil && y == ps.y && y.left == rb.nil && Divided(ps, c, t, y.red)
    ensures Around(rb, ps, EndsBefore(x, y)) && (ps.i == Top <==> x.right == y)
  {
    ghost var i, ty;
    assert allocated(Refs(t)) && allocated(CRefs(c));
    y, i, ty := Successor(rb, x, t.right);
    ps := Disassemble(rb, x, y, c, t, i, ty);
  }

  /** rbtree.c:316-350 for a node with two children. */
  method Exchange(rb: RbTree, x: Node, ghost c: Ctx, ghost t: Tree) returns (ghost c': Ctx, ghost t': Tree)
    requires At(rb, c, t, x, x.parent) && t.Fork? && t.left.Fork? && t.right.Fork? && RedBlack(Plug(c, t))
    modifies rb`root, Refs(t) + CRefs(c)
    ensures Lowered(rb, x, c', t', InOrder(Plug(c, t)))
    ensures Refs(t') + CRefs(c') == Refs(t) + CRefs(c)
  {
    assert allocated(Refs(t)) && allocated(CRefs(c));
    var y; ghost var ps;
    y, ps := DivideAtSuccessor(rb, x, c, t);
    ghost var cx, cy := t.red, y.red;
    SwapPlaces(rb, x, y, ps);
    Reassemble(rb, x, y, ps, cx, cy);
    ExchangedFits(ps, c, t, cy);
    c', t' := Compose(ps.i, InRight(c, ps.l, y, cx)), Fork(Leaf, x, cy, ps.yr);
  }

  lemma ExchangedFits(ps: Parts, c: Ctx, t: Tree, cy: bool)
    requires Divided(ps, c, t, cy) && RedBlack(Plug(c, t))
    ensures var c', t' := Compose(ps.i, InRight(c, ps.l, ps.y, t.red)), Fork(Leaf, ps.x, cy, ps.yr);
      && Fits(c', t') && Without(InOrder(Plug(c, t)), ps.x, InOrder(Plug(c', ps.yr)))
      && Refs(t') + CRefs(c') == Refs(t) + CRefs(c)
  {
    ComposeRefs(ps.i, InRight(c, ps.l, ps.y, t.red));
    SwappedColors(c, t.left, ps.x, t.red, ps.i, ps.y, cy, ps.yr);
    SwappedOrder(c, t.left, ps.x, t.red, ps.i, ps.y, cy, ps.yr);
  }

  lemma Reassemble(rb: RbTree, x: Node, y: Node, ps: Parts, cx: bool, cy: bool)
    requires Around(rb, ps, Ends(y, y.parent, y.left, y, x, x.parent, y.right, y, x.right, x))
    requires Apart(ps) && x == ps.x && y == ps.y && x != rb.nil && y != rb.nil
    requires x.left == rb.nil && x.red == cy && y.red == cx && (ps.i == Top ==> y.right == x && x.parent == y)
    ensures At(rb, Compose(ps.i, InRight(ps.c, ps.l, y, cx)), Fork(Leaf, x, cy, ps.yr), x, x.parent)
  {
    var base := InRight(ps.c, ps.l, y, cx);
    ComposeRefs(ps.i, base);
    assert RepC(base, y.right, y, rb.root, rb.nil, rb.nil);
    if ps.i != Top {
      ComposeRep(ps.i, base, x, x.parent, y.right, y, rb.root, rb.nil, rb.nil);
    }
  }

  // ----- taking the node out -----

  lemma TakenOut(c: Ctx, t: Tree)
    requires t.Fork? && (t.left == Leaf || t.right == Leaf) && Fits(c, t)
    ensures t.red ==> RedBlack(Plug(c, Rest(t)))
    ensures !t.red && IsRed(Rest(t)) ==> RedBlack(Plug(c, Painted(Rest(t), false)))
    ensures !t.red && !IsRed(Rest(t)) ==> ShortFocus(c, Rest(t))
  {
    var r := Rest(t);
    assert Balanced(t.left) && Balanced(t.right) && NoRedRed(t.left) && NoRedRed(t.right);
    assert BlackHeight(t) == BlackHeight(r) + Weight(t.red);
    if t.red {
      BlackFits(c);
      PlugRedBlack(c, r);
    } else if IsRed(r) {
      var p := Painted(r, false);
      assert Balanced(r.left) && Balanced(r.right) && NoRedRed(r.left) && NoRedRed(r.right);
      assert Balanced(p) && NoRedRed(p) && BlackHeight(p) == BlackHeight(r) + 1;
      PlugRedBlack(c, Painted(r, false));
    }
  }

  /** rbtree.c:356-361 */
  method Unlink(rb: RbTree, x: Node, ghost c: Ctx, ghost t: Tree) returns (child: Node)
    requires At(rb, c, t, x, x.parent) && t.Fork? && (t.left == Leaf || t.right == Leaf)
    modifies rb`root, (Refs(t) + CRefs(c)) - {x}
    ensures At(rb, c, Rest(t), child, x.parent)
    ensures x !in Refs(Rest(t)) && x !in CRefs(c)
  {
    assert RepT(t.left, x.left, x, rb.nil) && RepT(t.right, x.right, x, rb.nil);
    assert allocated(Refs(t)) && allocated(CRefs(c));
    NilNotInCtx(c, x, x.parent, rb.root, rb.nil, rb.nil);
    if x.left != rb.nil {
      child := x.left;
    } else {
      child := x.right;
    }
    assert RepT(Rest(t), child, x, rb.nil);
    ChangeParentPtr(rb, x.parent, x, child, c, rb.root, rb.nil);
    ChangeChildPtr(rb, child, x, x.parent, Rest(t), x);
  }

  /** rbtree.c:363-372 */
  method Rebalance(rb: RbTree, x: Node, child: Node, ghost c: Ctx, ghost t: Tree) returns (ghost w: Tree)
    requires t.Fork? && t.red == x.red && (t.left == Leaf || t.right == Leaf) && Fits(c, t)
    requires At(rb, c, Rest(t), child, x.parent) && NilOk(rb)
    modifies rb`root, Refs(Rest(t)) + CRefs(c)
    ensures RepT(w, rb.root, rb.nil, rb.nil) && RedBlack(w) && NilOk(rb)
    ensures InOrder(w) == InOrder(Plug(c, Rest(t)))
  {
    ghost var r := Rest(t);
    TakenOut(c, t);
    NilApart(rb, c, r, child, x.parent);
    assert child.red == IsRed(r);
    if x.red {
      PlugRep(c, r, child, x.parent, rb.root, rb.nil, rb.nil);
      w := Plug(c, r);
    } else if child.red {
      PlugSameOrder(c, r, Painted(r, false));
      w := BlackenChild(rb, child, x.parent, c, r);
    } else {
      w := DeleteFixup(rb, child, x.parent, c, r);
    }
  }

  method BlackenChild(rb: RbTree, child: Node, par: Node, ghost c: Ctx, ghost r: Tree) returns (ghost w: Tree)
    requires At(rb, c, r, child, par) && IsRed(r)
    modifies Refs(r)
    ensures RepT(w, rb.root, rb.nil, rb.nil) && w == Plug(c, Painted(r, false))
  {
    assert allocated(CRefs(c));
    if child != rb.nil {
      child.red := false;
    }
    PlugRep(c, Painted(r, false), child, par, rb.root, rb.nil, rb.nil);
    w := Plug(c, Painted(r, false));
  }

  /** rbtree.c:312-372: x leaves the tree that is in place at (c, t). */
  method Extract(rb: RbTree, x: Node, ghost c0: Ctx, ghost t0: Tree) returns (ghost w: Tree)
    requires At(rb, c0, t0, x, x.parent) && t0.Fork? && RedBlack(Plug(c0, t0)) && NilOk(rb)
    modifies rb`root, Refs(t0) + CRefs(c0)
    ensures RepT(w, rb.root, rb.nil, rb.nil) && RedBlack(w) && NilOk(rb)
    ensures Without(InOrder(Plug(c0, t0)), x, InOrder(w)) && x != rb.nil
  {
    ghost var c, t := c0, t0;
    NilApart(rb, c, t, x, x.parent);
    assert RepT(t.left, x.left, x, rb.nil) && RepT(t.right, x.right, x, rb.nil);
    if x.left != rb.nil && x.right != rb.nil {
      c, t := Exchange(rb, x, c, t);
    } else {
      UnplugRedBlack(c, t);
      SingleOrder(c, t);
    }
    var child := Unlink(rb, x, c, t);
    w := Rebalance(rb, x, child, c, t);
  }

  /** rbtree.c:375-378 */
  method ClearLinks(rb: RbTree, x: Node, ghost w: Tree)
    requires RepT(w, rb.root, rb.nil, rb.nil) && x !in Refs(w) && x != rb.nil
    modifies x
    ensures RepT(w, rb.root, rb.nil, rb.nil)
    ensures x.parent == rb.nil && x.left == rb.nil && x.right == rb.nil && !x.red
  {
    assert allocated(Refs(w));
    x.parent := rb.nil;
    x.left := rb.nil;
    x.right := rb.nil;
    x.red := false;
  }

  lemma FocusOn(rb: RbTree, x: Node) returns (c: Ctx, t: Tree)
    requires Valid(rb) && x in Refs(rb.shape)
    ensures At(rb, c, t, x, x.parent) && t.Fork? && Plug(c, t) == rb.shape && Refs(t) + CRefs(c) == Refs(rb.shape)
    ensures rb.count > 0
  {
    c, t := Focus(rb, Top, rb.shape, rb.root, rb.nil, x);
    PlugRefs(c, t);
    RefsAreInOrder(rb.shape);
  }

  lemma RefsWithout(w: Tree, x: Node, w': Tree)
    requires Sorted(InOrder(w)) && Without(InOrder(w), x, InOrder(w'))
    ensures Refs(w') == Refs(w) - {x} && Sorted(InOrder(w')) && |InOrder(w')| == |InOrder(w)| - 1
  {
    RefsAreInOrder(w); RefsAreInOrder(w');
    WithoutAsSets(InOrder(w), x, InOrder(w'), Refs(w), Refs(w'));
  }

  lemma WithoutAsSets(s: seq<Node>, x: Node, s': seq<Node>, refs: set<Node>, refs': set<Node>)
    requires Sorted(s) && Without(s, x, s')
    requires refs == (set n | n in s) && refs' == (set n | n in s')
    ensures Sorted(s') && |s'| == |s| - 1 && refs' == refs - {x}
  {
    WithoutKeeps(s, x, s');
  }

  /** rbtree.c:310-379, once the node is found. */
  method Remove(rb: RbTree, x: Node)
    requires Valid(rb) && x in Refs(rb.shape)
    modifies rb, Refs(rb.shape)
    ensures Valid(rb) && rb.count == old(rb.count) - 1
    ensures Without(InOrder(old(rb.shape)), x, InOrder(rb.shape))
    ensures Refs(rb.shape) == old(Refs(rb.shape)) - {x}
    ensures x.parent == rb.nil && x.left == rb.nil && x.right == rb.nil && !x.red
  {
    ghost var c, t := FocusOn(rb, x);
    rb.count := rb.count - 1;
    ghost var w := Extract(rb, x, c, t);
    RefsWithout(rb.shape, x, w);
    ClearLinks(rb, x, w);
    rb.shape := w;
  }

  /** A present key leaves the tree, every invariant holds again, and its node is unlinked from
      everything; an absent key changes nothing. */
  method Delete(rb: RbTree, key: int) returns (res: Node?)
    requires Valid(rb)
    modifies rb, Refs(rb.shape)
    ensures Valid(rb)
    ensures res == null <==> forall n <- InOrder(old(rb.shape)) :: n.key != key
    ensures res == null ==> unchanged(rb)
    ensures res != null ==> res.key == key && res in old(Refs(rb.shape))
    ensures res != null ==> Without(InOrder(old(rb.shape)), res, InOrder(rb.shape))
    ensures res != null ==> Refs(rb.shape) == old(Refs(rb.shape)) - {res} && rb.count == old(rb.count) - 1
    ensures res != null ==> res.parent == rb.nil && res.left == rb.nil && res.right == rb.nil && !res.red
  {
    assert allocated(Refs(rb.shape));
    RefsAreInOrder(rb.shape);
    res := Search(rb, key);
    if res == null { return; }
    Remove(rb, res);
  }
}
