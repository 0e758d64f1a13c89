/** Searching and walking a valid tree (rbtree.c:258-268, 485-579; RBTREE_FOR in rbtree.h). */
module RbSearch {
  import opened RbShape
  import opened RbRotate

  /** The invariant of every tree: links, colours, order and count all agree with the shape. */
  ghost predicate Valid(rb: RbTree)
    reads rb, rb.nil, Refs(rb.shape)
  {
    && NilOk(rb) && RepT(rb.shape, rb.root, rb.nil, rb.nil)
    && RedBlack(rb.shape) && Sorted(InOrder(rb.shape)) && rb.count == |InOrder(rb.shape)|
  }

  ghost predicate Below(s: seq<Node>, key: int) { forall i | 0 <= i < |s| :: s[i].key < key }

  ghost predicate Above(s: seq<Node>, key: int) { forall i | 0 <= i < |s| :: key < s[i].key }

  lemma SortedSplit(a: seq<Node>, n: Node, b: seq<Node>)
    requires Sorted(a + [n] + b)
    ensures Below(a, n.key) && Above(b, n.key)
  {
    var s := a + [n] + b;
    assert s[|a|] == n;
    assert forall i | 0 <= i < |a| :: a[i] == s[i];
    assert forall i | 0 <= i < |b| :: b[i] == s[|a| + 1 + i];
  }

  /** The nodes before and after the root of the focus. */
  lemma PlugAroundRoot(c: Ctx, t: Tree)
    requires t.Fork?
    ensures InOrder(Plug(c, t)) == (Before(c) + InOrder(t.left)) + [t.node] + (InOrder(t.right) + After(c))
  {
    PlugInOrder(c, t);
    Regroup(Before(c), InOrder(t.left), [t.node], InOrder(t.right), After(c));
  }

  lemma BelowConcat(a: seq<Node>, b: seq<Node>, key: int)
    ensures Below(a + b, key) <==> Below(a, key) && Below(b, key)
    ensures Above(a + b, key) <==> Above(a, key) && Above(b, key)
  {
    assert forall i | 0 <= i < |a| :: a[i] == (a + b)[i];
    assert forall i | 0 <= i < |b| :: b[i] == (a + b)[|a| + i];
  }

  /** Order is kept by the comparison made at t's root. */
  lemma Descend(c: Ctx, t: Tree, key: int)
    requires t.Fork? && Sorted(InOrder(Plug(c, t))) && Below(Before(c), key) && Above(After(c), key)
    ensures key < t.node.key ==> Above(After(InLeft(c, t.node, t.red, t.right)), key)
    ensures t.node.key < key ==> Below(Before(InRight(c, t.left, t.node, t.red)), key)
    ensures t.node in InOrder(Plug(c, t))
  {
    var l, n, r := InOrder(t.left), t.node, InOrder(t.right);
    PlugAroundRoot(c, t);
    SortedSplit(Before(c) + l, n, r + After(c));
    BelowConcat(Before(c), l, n.key); BelowConcat(r, After(c), n.key);
    BelowConcat(Before(c), l + [n], key); BelowConcat([n] + r, After(c), key);
    assert InOrder(Plug(c, t))[|Before(c) + l|] == n;
  }

  /** rbtree_find_less_equal: the greatest node not above the key, and whether it is an exact match. */
  method FindLessEqual(rb: RbTree, key: int) returns (found: bool, result: Node?)
    requires Valid(rb)
    ensures found <==> exists n <- InOrder(rb.shape) :: n.key == key
    ensures result == null <==> forall n <- InOrder(rb.shape) :: key < n.key
    ensures result != null ==> result in InOrder(rb.shape) && result.key <= key
    ensures result != null ==> forall n <- InOrder(rb.shape) | n.key <= key :: n.key <= result.key
    ensures found ==> result != null && result.key == key
  {
    var node := rb.root;
    result := null;
    ghost var c, t, par := Top, rb.shape, rb.nil;
    while node != rb.nil
      invariant At(rb, c, t, node, par) && Plug(c, t) == rb.shape
      invariant Below(Before(c), key) && Above(After(c), key)
      invariant result == if Before(c) == [] then null else Before(c)[|Before(c)| - 1]
      decreases t
    {
      Descend(c, t, key);
      if key == node.key {
        ExactIsGreatest(rb.shape, node);
        return true, node;
      }
      par := node;
      if key < node.key {
        UnzipLeft(rb, c, t, node, node.parent);
        c, t := InLeft(c, t.node, t.red, t.right), t.left;
        node := node.left;
      } else {
        UnzipRight(rb, c, t, node, node.parent);
        result := node;
        c, t := InRight(c, t.left, t.node, t.red), t.right;
        node := node.right;
      }
    }
    LastBelowIsGreatest(c, key);
    return false, result;
  }

  lemma ExactIsGreatest(w: Tree, n: Node)
    requires Sorted(InOrder(w)) && n in InOrder(w)
    ensures forall m <- InOrder(w) | m.key <= n.key :: m.key <= n.key
  {}

  lemma LastBelowIsGreatest(c: Ctx, key: int)
    requires Sorted(InOrder(Plug(c, Leaf))) && Below(Before(c), key) && Above(After(c), key)
    ensures var s := InOrder(Plug(c, Leaf));
      && (forall n <- s :: n.key != key)
      && (Before(c) == [] <==> forall n <- s :: key < n.key)
      && (Before(c) != [] ==> var m := Before(c)[|Before(c)| - 1];
             m in s && m.key < key && forall n <- s | n.key <= key :: n.key <= m.key)
  {
    PlugInOrder(c, Leaf);
    var s, b := InOrder(Plug(c, Leaf)), Before(c);
    assert s == b + After(c);
    if b != [] { assert s[|b| - 1] == b[|b| - 1]; }
  }

  /** rbtree_search */
  method Search(rb: RbTree, key: int) returns (result: Node?)
    requires Valid(rb)
    ensures result == null <==> forall n <- InOrder(rb.shape) :: n.key != key
    ensures result != null ==> result in InOrder(rb.shape) && result.key == key
  {
    var found, node := FindLessEqual(rb, key);
    result := if found then node else null;
  }

  /** Going left as far as possible reaches the first node of the subtree (rbtree.c:317-318, 526, 550). */
  method Leftmost(rb: RbTree, node0: Node, ghost c0: Ctx, ghost t0: Tree)
    returns (node: Node, ghost c: Ctx, ghost t: Tree)
    requires At(rb, c0, t0, node0, node0.parent) && t0.Fork? && NilOk(rb)
    ensures At(rb, c, t, node, node.parent) && t.Fork? && t.left == Leaf && Plug(c, t) == Plug(c0, t0)
    ensures Before(c) == Before(c0) && node == InOrder(t0)[0]
  {
    node, c, t := node0, c0, t0;
    while node.left != rb.nil
      invariant At(rb, c, t, node, node.parent) && t.Fork? && Plug(c, t) == Plug(c0, t0)
      invariant Before(c) == Before(c0) && InOrder(t)[0] == InOrder(t0)[0]
      decreases t
    {
      UnzipLeft(rb, c, t, node, node.parent);
      assert t.left.Fork?;
      assert InOrder(t.left)[0] == InOrder(t)[0];
      c, t := InLeft(c, t.node, t.red, t.right), t.left;
      node := node.left;
    }
    assert RepT(t.left, node.left, node, rb.nil);
  }

  /** rbtree_first: the least node, or the sentinel when the tree is empty. */
  method First(rb: RbTree) returns (node: Node)
    requires Valid(rb)
    ensures node == if rb.shape == Leaf then rb.nil else InOrder(rb.shape)[0]
  {
    node := rb.root;
    if node != rb.nil {
      ghost var c, t;
      node, c, t := Leftmost(rb, node, Top, rb.shape);
    }
  }

  /** Every node of a tree can be brought into focus. */
  lemma {:induction false} Focus(rb: RbTree, c0: Ctx, t0: Tree, p: Node, par: Node, n: Node) returns (c: Ctx, t: Tree)
    requires At(rb, c0, t0, p, par) && n in Refs(t0)
    ensures At(rb, c, t, n, n.parent) && t.Fork? && t.node == n && Plug(c, t) == Plug(c0, t0)
    decreases t0
  {
    if n == t0.node {
      c, t := c0, t0;
    } else if n in Refs(t0.left) {
      UnzipLeft(rb, c0, t0, p, par);
      c, t := Focus(rb, InLeft(c0, t0.node, t0.red, t0.right), t0.left, p.left, p, n);
    } else {
      UnzipRight(rb, c0, t0, p, par);
      c, t := Focus(rb, InRight(c0, t0.left, t0.node, t0.red), t0.right, p.right, p, n);
    }
  }

  /** Climbing while coming from the right keeps what follows (rbtree.c:552-557). */
  method ClimbRight(rb: RbTree, node0: Node, ghost c0: Ctx, ghost t0: Tree) returns (next: Node)
    requires At(rb, c0, t0, node0, node0.parent) && t0.Fork? && NilOk(rb)
    ensures next == if After(c0) == [] then rb.nil else After(c0)[0]
  {
    var node, parent := node0, node0.parent;
    ghost var c, t := c0, t0;
    NilApart(rb, c, t, node, parent);
    while parent != rb.nil && node == parent.right
      invariant At(rb, c, t, node, parent) && t.Fork? && parent == node.parent
      invariant After(c) == After(c0) && (c == Top <==> parent == rb.nil)
      decreases c
    {
      ChildSide(rb, c, node, parent);
      Zip(rb, c, t, node, parent);
      t, c := Fork(c.left, c.node, c.red, t), c.up;
      node := parent;
      parent := parent.parent;
      NilApart(rb, c, t, node, parent);
    }
    if c != Top { ChildSide(rb, c, node, parent); }
    next := parent;
  }

  /** rbtree_next: the in-order successor, or the sentinel after the last node. */
  method Next(rb: RbTree, node0: Node, ghost i: nat) returns (node: Node)
    requires Valid(rb) && i < |InOrder(rb.shape)| && node0 == InOrder(rb.shape)[i]
    ensures node == if i + 1 < |InOrder(rb.shape)| then InOrder(rb.shape)[i + 1] else rb.nil
  {
    RefsAreInOrder(rb.shape);
    ghost var c, t := Focus(rb, Top, rb.shape, rb.root, rb.nil, node0);
    SuccessorIsNext(c, t, i);
    ghost var rest := InOrder(rb.shape)[i + 1..];
    assert rest != [] ==> rest[0] == InOrder(rb.shape)[i + 1];
    assert RepT(t.right, node0.right, node0, rb.nil);
    if node0.right != rb.nil {
      UnzipRight(rb, c, t, node0, node0.parent);
      ghost var c', t';
      node, c', t' := Leftmost(rb, node0.right, InRight(c, t.left, t.node, t.red), t.right);
      assert rest[0] == InOrder(t.right)[0];
    } else {
      assert rest == After(c);
      node := ClimbRight(rb, node0, c, t);
    }
  }

  lemma SuccessorIsNext(c: Ctx, t: Tree, i: nat)
    requires t.Fork? && Sorted(InOrder(Plug(c, t))) && i < |InOrder(Plug(c, t))| && InOrder(Plug(c, t))[i] == t.node
    ensures InOrder(Plug(c, t))[i + 1..] == InOrder(t.right) + After(c)
  {
    PlugAroundRoot(c, t);
    var a, b := Before(c) + InOrder(t.left), InOrder(t.right) + After(c);
    var s := a + [t.node] + b;
    assert s[|a|] == t.node;
    assert i == |a|;
  }

  /** RBTREE_FOR visits every node exactly once, in strictly increasing key order. */
  method Enumerate(rb: RbTree) returns (visited: seq<Node>)
    requires Valid(rb)
    ensures visited == InOrder(rb.shape) && Sorted(visited) && |visited| == rb.count
  {
    visited := [];
    assert allocated(Refs(rb.shape));
    NodesAreNotNil(rb);
    var node := First(rb);
    while node != rb.nil
      invariant Valid(rb)
      invariant |visited| <= |InOrder(rb.shape)| && visited == InOrder(rb.shape)[..|visited|]
      invariant node == if |visited| < |InOrder(rb.shape)| then InOrder(rb.shape)[|visited|] else rb.nil
      decreases |InOrder(rb.shape)| - |visited|
    {
      visited := visited + [node];
      node := Next(rb, node, |visited| - 1);
    }
  }

  lemma NodesAreNotNil(rb: RbTree)
    requires Valid(rb)
    ensures forall k | 0 <= k < |InOrder(rb.shape)| :: InOrder(rb.shape)[k] != rb.nil
  {
    NilNotInTree(rb.shape, rb.root, rb.nil, rb.nil);
    RefsAreInOrder(rb.shape);
  }
}
