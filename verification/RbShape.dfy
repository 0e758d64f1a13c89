/** Nodes of Sandboxie's red-black tree, and the value-level trees and contexts
    ("the tree with one subtree cut out") that its pointer code is specified by. */
module RbShape {

  /** rbnode_t. Links are never null: absent children and the parent of the root
      are the shared sentinel node (RBTREE_NULL). Keys stand for the pointed-to
      keys under the tree's comparison function. */
  class Node {
    var parent: Node
    var left: Node
    var right: Node
    const key: int
    var red: bool

    /** A node linked only to itself and black, as rbtree_null_node is declared. */
    constructor (key: int)
      ensures this.key == key && parent == this && left == this && right == this && !red
    {
      this.key := key;
      parent, left, right, red := this, this, this, false;
    }
  }

  /** rbtree_t; the comparison function is the order on keys. */
  class RbTree {
    var root: Node
    var count: nat
    const nil: Node
    /** The tree the pointers spell out. */
    ghost var shape: Tree

    /** rbtree_init, over a sentinel that is shared by all trees. */
    constructor (nil: Node)
      ensures this.nil == nil && root == nil && count == 0 && shape == Leaf
    {
      this.nil := nil;
      root, count, shape := nil, 0, Leaf;
    }
  }

  datatype Tree = Leaf | Fork(left: Tree, node: Node, red: bool, right: Tree)

  /** A path from a hole up to the root: each frame is a node with the subtree on its other side. */
  datatype Ctx =
    | Top
    | InLeft(up: Ctx, node: Node, red: bool, right: Tree)
    | InRight(up: Ctx, left: Tree, node: Node, red: bool)

  ghost function Plug(c: Ctx, t: Tree): Tree
    decreases c
  {
    match c
    case Top => t
    case InLeft(up, n, red, r) => Plug(up, Fork(t, n, red, r))
    case InRight(up, l, n, red) => Plug(up, Fork(l, n, red, t))
  }

  // ----- node sets -----

  ghost function Refs(t: Tree): set<Node> {
    match t
    case Leaf => {}
    case Fork(l, n, _, r) => Refs(l) + {n} + Refs(r)
  }

  ghost function CRefs(c: Ctx): set<Node> {
    match c
    case Top => {}
    case InLeft(up, n, _, r) => CRefs(up) + {n} + Refs(r)
    case InRight(up, l, n, _) => CRefs(up) + {n} + Refs(l)
  }

  lemma {:induction false} PlugRefs(c: Ctx, t: Tree)
    ensures Refs(Plug(c, t)) == CRefs(c) + Refs(t)
    decreases c
  {
    match c
    case Top =>
    case InLeft(up, n, red, r) => PlugRefs(up, Fork(t, n, red, r));
    case InRight(up, l, n, red) => PlugRefs(up, Fork(l, n, red, t));
  }

  // ----- in-order sequence of nodes -----

  ghost function InOrder(t: Tree): seq<Node> {
    match t
    case Leaf => []
    case Fork(l, n, _, r) => InOrder(l) + [n] + InOrder(r)
  }

  /** The nodes that precede, respectively follow, the hole in key order. */
  ghost function Before(c: Ctx): seq<Node> {
    match c
    case Top => []
    case InLeft(up, _, _, _) => Before(up)
    case InRight(up, l, n, _) => Before(up) + (InOrder(l) + [n])
  }

  ghost function After(c: Ctx): seq<Node> {
    match c
    case Top => []
    case InLeft(up, n, _, r) => [n] + InOrder(r) + After(up)
    case InRight(up, _, _, _) => After(up)
  }

  lemma Regroup<T>(a: seq<T>, b: seq<T>, c: seq<T>, d: seq<T>, e: seq<T>)
    ensures a + (b + c + d) + e == (a + b) + c + (d + e)
    ensures a + (b + c + d) + e == a + b + (c + d + e)
    ensures a + (b + c + d) + e == a + (b + c) + d + e
  {}

  lemma {:induction false} PlugInOrder(c: Ctx, t: Tree)
    ensures InOrder(Plug(c, t)) == Before(c) + InOrder(t) + After(c)
    decreases c
  {
    match c
    case Top =>
    case InLeft(up, n, red, r) =>
      PlugInOrder(up, Fork(t, n, red, r));
      Regroup(Before(up), InOrder(t), [n], InOrder(r), After(up));
    case InRight(up, l, n, red) =>
      PlugInOrder(up, Fork(l, n, red, t));
      Regroup(Before(up), InOrder(l), [n], InOrder(t), After(up));
  }

  lemma {:induction false} RefsAreInOrder(t: Tree)
    ensures Refs(t) == set n | n in InOrder(t)
  {
    match t
    case Leaf =>
    case Fork(l, n, _, r) => RefsAreInOrder(l); RefsAreInOrder(r);
  }

  /** Strictly increasing keys: the search-tree order, and the absence of duplicates. */
  ghost predicate Sorted(s: seq<Node>) {
    forall i, j :: 0 <= i < j < |s| ==> s[i].key < s[j].key
  }

  // ----- red-black colouring -----

  ghost predicate IsRed(t: Tree) { t.Fork? && t.red }

  ghost function Weight(red: bool): nat { if red then 0 else 1 }

  /** Black nodes on the leftmost path; on every path when Balanced. */
  ghost function BlackHeight(t: Tree): nat {
    match t
    case Leaf => 0
    case Fork(l, _, red, _) => BlackHeight(l) + Weight(red)
  }

  ghost predicate Balanced(t: Tree) {
    t.Fork? ==> Balanced(t.left) && Balanced(t.right) && BlackHeight(t.left) == BlackHeight(t.right)
  }

  ghost predicate NoRedRed(t: Tree) {
    t.Fork? ==> NoRedRed(t.left) && NoRedRed(t.right) && (t.red ==> !IsRed(t.left) && !IsRed(t.right))
  }

  ghost predicate RedBlack(t: Tree) { Balanced(t) && NoRedRed(t) && !IsRed(t) }

  /** Filling the hole with a balanced tree of black height h gives a balanced tree. */
  ghost predicate CBalanced(c: Ctx, h: nat) {
    match c
    case Top => true
    case InLeft(up, _, red, r) => Balanced(r) && BlackHeight(r) == h && CBalanced(up, h + Weight(red))
    case InRight(up, l, _, red) => Balanced(l) && BlackHeight(l) == h && CBalanced(up, h + Weight(red))
  }

  /** No red node has a red child, and the root is black, when the hole's root is red iff holeRed. */
  ghost predicate CNoRedRed(c: Ctx, holeRed: bool) {
    match c
    case Top => !holeRed
    case InLeft(up, _, red, r) => NoRedRed(r) && (red ==> !holeRed && !IsRed(r)) && CNoRedRed(up, red)
    case InRight(up, l, _, red) => NoRedRed(l) && (red ==> !holeRed && !IsRed(l)) && CNoRedRed(up, red)
  }

  /** A context and a filling that fit together make a red-black tree... */
  lemma {:induction false} PlugRedBlack(c: Ctx, t: Tree)
    requires Balanced(t) && NoRedRed(t)
    requires CBalanced(c, BlackHeight(t)) && CNoRedRed(c, IsRed(t))
    ensures RedBlack(Plug(c, t))
    decreases c
  {
    match c
    case Top =>
    case InLeft(up, n, red, r) => PlugRedBlack(up, Fork(t, n, red, r));
    case InRight(up, l, n, red) => PlugRedBlack(up, Fork(l, n, red, t));
  }

  /** ... and every cut of a red-black tree fits. */
  lemma {:induction false} UnplugRedBlack(c: Ctx, t: Tree)
    requires RedBlack(Plug(c, t))
    ensures Balanced(t) && NoRedRed(t)
    ensures CBalanced(c, BlackHeight(t)) && CNoRedRed(c, IsRed(t))
    decreases c
  {
    match c
    case Top =>
    case InLeft(up, n, red, r) => UnplugRedBlack(up, Fork(t, n, red, r));
    case InRight(up, l, n, red) => UnplugRedBlack(up, Fork(l, n, red, t));
  }

  // ----- pointer structure -----

  /** p points to tree t, whose root's parent link is par; every link and colour agrees,
      and no node occurs twice. */
  ghost predicate RepT(t: Tree, p: Node, par: Node, nil: Node)
    reads Refs(t)
  {
    match t
    case Leaf => p == nil
    case Fork(l, n, red, r) =>
      && p == n && n != nil && n.parent == par && n.red == red
      && n !in Refs(l) && n !in Refs(r) && Refs(l) !! Refs(r)
      && RepT(l, n.left, n, nil) && RepT(r, n.right, n, nil)
  }

  /** The hole of c is where p hangs below par, and the top of c is topNode, whose parent link is topPar. */
  ghost predicate RepC(c: Ctx, p: Node, par: Node, topNode: Node, topPar: Node, nil: Node)
    reads CRefs(c)
  {
    match c
    case Top => p == topNode && par == topPar
    case InLeft(up, n, red, r) =>
      && par == n && n != nil && n.left == p && n.red == red
      && n !in CRefs(up) && n !in Refs(r) && CRefs(up) !! Refs(r)
      && RepT(r, n.right, n, nil) && RepC(up, n, n.parent, topNode, topPar, nil)
    case InRight(up, l, n, red) =>
      && par == n && n != nil && n.right == p && n.red == red
      && n !in CRefs(up) && n !in Refs(l) && CRefs(up) !! Refs(l)
      && RepT(l, n.left, n, nil) && RepC(up, n, n.parent, topNode, topPar, nil)
  }

  lemma {:induction false} PlugRep(c: Ctx, t: Tree, p: Node, par: Node, topNode: Node, topPar: Node, nil: Node)
    requires RepC(c, p, par, topNode, topPar, nil) && RepT(t, p, par, nil) && Refs(t) !! CRefs(c)
    ensures RepT(Plug(c, t), topNode, topPar, nil)
    decreases c
  {
    match c
    case Top =>
    case InLeft(up, n, red, r) => PlugRep(up, Fork(t, n, red, r), n, n.parent, topNode, topPar, nil);
    case InRight(up, l, n, red) => PlugRep(up, Fork(l, n, red, t), n, n.parent, topNode, topPar, nil);
  }

  lemma {:induction false} RootInCtx(c: Ctx, p: Node, par: Node, topNode: Node, topPar: Node, nil: Node)
    requires RepC(c, p, par, topNode, topPar, nil) && c != Top
    ensures topNode in CRefs(c) && par in CRefs(c)
    decreases c
  {
    if c.up != Top { RootInCtx(c.up, c.node, c.node.parent, topNode, topPar, nil); }
  }

  lemma {:induction false} NilNotInTree(t: Tree, p: Node, par: Node, nil: Node)
    requires RepT(t, p, par, nil)
    ensures nil !in Refs(t) && (t.Fork? ==> p in Refs(t))
  {
    match t
    case Leaf =>
    case Fork(l, n, _, r) => NilNotInTree(l, n.left, n, nil); NilNotInTree(r, n.right, n, nil);
  }

  lemma {:induction false} NilNotInCtx(c: Ctx, p: Node, par: Node, topNode: Node, topPar: Node, nil: Node)
    requires RepC(c, p, par, topNode, topPar, nil)
    ensures nil !in CRefs(c)
  {
    match c
    case Top =>
    case InLeft(up, n, _, r) =>
      NilNotInTree(r, n.right, n, nil); NilNotInCtx(up, n, n.parent, topNode, topPar, nil);
    case InRight(up, l, n, _) =>
      NilNotInTree(l, n.left, n, nil); NilNotInCtx(up, n, n.parent, topNode, topPar, nil);
  }
}
