/** The read-only operations of oss/rbtree/red_black_tree.c on the order of the nodes. */
module ClrsQuery {
  import opened Zipper
  import opened ClrsLinks
  import opened ClrsModel
  import opened ClrsHeap
  import opened ClrsOrder
  import opened ClrsTree

  /** The maximum of a non-empty subtree. */
  method Maximum<D>(c: RedBlackTree<D>, y0: RNode<D>, ghost ctx0: seq<Frame<RNode<D>>>, ghost t0: Tree<RNode<D>>)
    returns (y: RNode<D>, ghost ctx: seq<Frame<RNode<D>>>, ghost t: Tree<RNode<D>>)
    requires c.Linked() && c.tree == Plug(ctx0, t0) && FromHeader(ctx0, c.root) && t0.Node? && t0.n == y0
    ensures c.tree == Plug(ctx, t) && FromHeader(ctx, c.root) && t.Node? && t.n == y && t.r.Nil?
    ensures Post(ctx) == Post(ctx0)
  {
    hide Plug, Nodes, InOrder, HoldsAt, Pre, Post, Sep;
    y, ctx, t := y0, ctx0, t0;
    c.LinksAt(ctx, t);
    c.NilKids(ctx, t);
    while y.right != c.nil
      invariant c.Linked() && c.tree == Plug(ctx, t) && FromHeader(ctx, c.root) && t.Node? && t.n == y
      invariant Post(ctx) == Post(ctx0)
      invariant y.right == Top(t.r, c.nil) && (y.right == c.nil <==> t.r.Nil?)
      decreases t
    {
      PushOrder(ctx, c.root, Passed(t, false), t.r);
      Sides(t, false);
      ctx, t := ctx + [Passed(t, false)], t.r;
      y := y.right;
      c.LinksAt(ctx, t);
      c.NilKids(ctx, t);
    }
  }

  /** TreePredecessor. */
  method Predecessor<D>(c: RedBlackTree<D>, x0: RNode<D>, ghost i: nat) returns (y: RNode<D>)
    requires c.Linked() && x0 == c.Nth(i) && i < |c.Order()|
    ensures y == c.Nth(i - 1)
  {
    ghost var ctx, t := LocateUser(c.tree, c.root, i);
    c.LinksAt(ctx, t);
    c.NilKids(ctx, t);
    hide Plug, Nodes, InOrder, HoldsAt, Sep, Index;
    y := x0.left;
    if c.nil != y {
      y := MaximumLeft(c, y, ctx, t);
    } else {
      y := ClimbLeft(c, x0, i, ctx, t);
    }
  }

  /** The maximum of the left subtree, which comes right before the node. */
  method MaximumLeft<D>(c: RedBlackTree<D>, y0: RNode<D>, ghost ctx: seq<Frame<RNode<D>>>, ghost t: Tree<RNode<D>>)
    returns (y: RNode<D>)
    requires c.Linked() && c.tree == Plug(ctx, t) && FromHeader(ctx, c.root) && t.Node? && t.l.Node? && y0 == t.l.n
    ensures y == c.Nth(Index(ctx, t) - 1)
  {
    PushOrder(ctx, c.root, Passed(t, true), t.l);
    Sides(t, true);
    hide Plug, Nodes, InOrder, HoldsAt, Pre, Post, Sep, Index;
    ghost var ctx', t';
    y, ctx', t' := Maximum(c, y0, ctx + [Passed(t, true)], t.l);
    LastOfLeft(c, ctx, t, ctx', t');
  }

  /** The node before `t`'s own is the maximum of its left subtree. */
  lemma LastOfLeft<D>(c: RedBlackTree<D>, ctx: seq<Frame<RNode<D>>>, t: Tree<RNode<D>>, ctx': seq<Frame<RNode<D>>>,
                      t': Tree<RNode<D>>)
    requires c.tree == Plug(ctx, t) && FromHeader(ctx, c.root) && t.Node?
    requires c.tree == Plug(ctx', t') && FromHeader(ctx', c.root) && t'.Node? && t'.r.Nil?
    requires Post(ctx') == [t.n] + InOrder(t.r) + Post(ctx)
    ensures t'.n == c.Nth(Index(ctx, t) - 1)
  {
    IndexAt(ctx, c.root, t);
    IndexAt(ctx', c.root, t');
    var s, i, j := c.Order(), Index(ctx, t), Index(ctx', t');
    assert |s[j + 1..]| == |Post(ctx')| && |s[i + 1..]| == |InOrder(t.r) + Post(ctx)|;
  }

  /** From a node without left child: up to the first ancestor on whose right it is. */
  method ClimbLeft<D>(c: RedBlackTree<D>, x0: RNode<D>, ghost i: nat, ghost ctx0: seq<Frame<RNode<D>>>,
                      ghost t0: Tree<RNode<D>>)
    returns (y: RNode<D>)
    requires c.Linked() && c.tree == Plug(ctx0, t0) && FromHeader(ctx0, c.root) && t0.Node? && t0.n == x0 && t0.l.Nil?
    requires Index(ctx0, t0) == i
    ensures y == c.Nth(i - 1)
  {
    ghost var ctx, t := ctx0, t0;
    c.LinksAt(ctx, t);
    c.RightOf(ctx, t);
    var x := x0;
    y := x.parent;
    while x == y.left
      invariant c.Linked() && c.tree == Plug(ctx, t) && FromHeader(ctx, c.root) && t.Node? && t.n == x
      invariant y == Up(ctx, c.nil)
      invariant (x == y.left <==> ctx[|ctx|-1].left) && (y == c.root <==> |ctx| == 1)
      invariant |Pre(ctx)| == i
      decreases |ctx|
    {
      if y == c.root {
        OnlyHeader(ctx);
        return c.nil;
      }
      PopOrder(ctx, c.root, t);
      ctx, t := ctx[..|ctx|-1], Join(ctx[|ctx|-1], t);
      x := y;
      y := y.parent;
      c.LinksAt(ctx, t);
      c.RightOf(ctx, t);
    }
    BelowRight(c, ctx, t);
  }

  lemma OnlyHeader<N>(ctx: seq<Frame<N>>)
    requires |ctx| == 1
    ensures Pre(ctx) == [] && Post(ctx) == []
  {
    assert ctx[1..] == [];
  }

  /** What comes right before a subtree that is on the right of the node above it. */
  lemma BelowRight<D>(c: RedBlackTree<D>, ctx: seq<Frame<RNode<D>>>, t: Tree<RNode<D>>)
    requires c.Linked() && c.tree == Plug(ctx, t) && FromHeader(ctx, c.root) && t.Node? && !ctx[|ctx|-1].left
    ensures Up(ctx, c.nil) == c.Nth(|Pre(ctx)| - 1)
  {
    UserOrder(ctx, c.root, t);
    PopOrder(ctx, c.root, t);
  }

  /** Stepping forth and back, or back and forth, returns to the node, wherever there is a node to step to. */
  method ForthAndBack<D>(c: RedBlackTree<D>, x: RNode<D>, ghost i: nat) returns (forth: RNode<D>, back: RNode<D>)
    requires c.Linked() && x == c.Nth(i) && i < |c.Order()|
    ensures forth == if i + 1 < |c.Order()| then x else c.nil
    ensures back == if i > 0 then x else c.nil
  {
    forth, back := c.nil, c.nil;
    NthNotNil(c, i);
    NodesAllocated(c.tree);
    hide Plug, Nodes, InOrder, HoldsAt, Sep;
    var next, _, _ := c.Successor(x, i);
    if next != c.nil { forth := Predecessor(c, next, i + 1); }
    var prev := Predecessor(c, x, i);
    if prev != c.nil {
      var again, _, _ := c.Successor(prev, i - 1);
      back := again;
    }
  }

  lemma NthNotNil<D>(c: RedBlackTree<D>, i: nat)
    requires c.Linked() && i < |c.Order()|
    ensures c.Nth(i) != c.nil && (i + 1 < |c.Order()| ==> c.Nth(i + 1) != c.nil) && (i > 0 ==> c.Nth(i - 1) != c.nil)
  {
    c.InOrderTree(i);
    if i + 1 < |c.Order()| { c.InOrderTree(i + 1); }
    if i > 0 { c.InOrderTree(i - 1); }
  }

  /** RBExactQuery: the highest node with the key, that is, one whose subtree holds all the others; null when
      there is none. */
  method ExactQuery<D>(c: RedBlackTree<D>, q: int)
    returns (r: RNode?<D>, ghost ctx: seq<Frame<RNode<D>>>, ghost t: Tree<RNode<D>>)
    requires c.Valid()
    ensures r == null ==> forall i :: 0 <= i < |c.Order()| ==> c.Order()[i].key != q
    ensures r != null ==> r.key == q && c.tree == Plug(ctx, t) && FromHeader(ctx, c.root) && t.Node? && t.n == r
    ensures r != null ==> forall i :: 0 <= i < |c.Order()| && c.Order()[i].key == q ==> c.Order()[i] in Nodes(t)
  {
    c.LinksTop();
    var x := c.root.left;
    t := User(c.tree);
    ctx := [Frame(c.root, false, true, Nil)];
    c.NilTop(ctx, t);
    while x != c.nil && x.key != q
      invariant c.Valid() && c.tree == Plug(ctx, t) && FromHeader(ctx, c.root) && x == Top(t, c.nil)
      invariant (x == c.nil <==> t.Nil?)
      invariant Upto(Pre(ctx), q - 1) && Over(Post(ctx), q)
      decreases t
    {
      hide Balanced, Sorted, Plug, Nodes, InOrder, HoldsAt;
      c.LinksAt(ctx, t);
      DescendExact(ctx, c.root, t, q);
      ctx := ctx + [Passed(t, x.key > q)];
      t := Near(x.key > q, t);
      if x.key > q {
        x := x.left;
      } else {
        x := x.right;
      }
      c.NilTop(ctx, t);
    }
    AllInside(ctx, c.root, t, q);
    r := if x == c.nil then null else x;
  }

  lemma AllInside<D>(ctx: seq<Frame<RNode<D>>>, root: RNode<D>, t: Tree<RNode<D>>, q: int)
    requires FromHeader(ctx, root) && Upto(Pre(ctx), q - 1) && Over(Post(ctx), q)
    ensures var s := InOrder(User(Plug(ctx, t)));
            forall i :: 0 <= i < |s| && s[i].key == q ==> s[i] in Nodes(t)
  {
    UserOrder(ctx, root, t);
    var s := InOrder(User(Plug(ctx, t)));
    forall i | 0 <= i < |s| && s[i].key == q ensures s[i] in Nodes(t) {
      assert |Pre(ctx)| <= i < |Pre(ctx)| + |InOrder(t)|;
      NodesInOrder(t, s[i]);
    }
  }

  /** The first loop of RBEnumerate: the last node whose key is not above `high`. */
  method LastUpto<D>(c: RedBlackTree<D>, high: int) returns (best: RNode<D>, ghost m: nat)
    requires c.Valid()
    ensures m <= |c.Order()| && best == c.Nth(m - 1) && Upto(c.Order()[..m], high) && Over(c.Order()[m..], high)
  {
    c.LinksTop();
    var x := c.root.left;
    best := c.nil;
    ghost var t, ctx := User(c.tree), [Frame(c.root, false, true, Nil)];
    c.NilTop(ctx, t);
    OnlyHeader(ctx);
    assert best == Last(Pre(ctx), c.nil);
    hide Balanced, Sorted, Plug, Nodes, InOrder, HoldsAt, Pre, Post, Up, Sep, Last;
    while c.nil != x
      invariant c.Valid() && c.tree == Plug(ctx, t) && FromHeader(ctx, c.root) && x == Top(t, c.nil)
      invariant (x == c.nil <==> t.Nil?)
      invariant Upto(Pre(ctx), high) && Over(Post(ctx), high)
      invariant best == Last(Pre(ctx), c.nil)
      decreases t
    {
      c.LinksAt(ctx, t);
      Descend(ctx, c.root, t, high);
      PushLast(ctx, c.root, t, x.key > high, c.nil);
      ctx := ctx + [Passed(t, x.key > high)];
      t := Near(x.key > high, t);
      if x.key > high {
        x := x.left;
      } else {
        best := x;
        x := x.right;
      }
      c.NilTop(ctx, t);
    }
    m := SplitAtHole(c, ctx);
  }

  ghost function Last<N>(s: seq<N>, nil: N): N {
    if s == [] then nil else s[|s|-1]
  }

  /** A turn to the right makes the node passed the last one before the position. */
  lemma PushLast<N>(ctx: seq<Frame<N>>, root: N, t: Tree<N>, left: bool, nil: N)
    requires FromHeader(ctx, root) && t.Node?
    ensures Last(Pre(ctx + [Passed(t, left)]), nil) == if left then Last(Pre(ctx), nil) else t.n
  {
    PushOrder(ctx, root, Passed(t, left), Near(left, t));
  }

  lemma SplitAtHole<D>(c: RedBlackTree<D>, ctx: seq<Frame<RNode<D>>>) returns (m: nat)
    requires c.tree == Plug(ctx, Nil) && FromHeader(ctx, c.root)
    ensures m <= |c.Order()| && c.Order()[..m] == Pre(ctx) && c.Order()[m..] == Post(ctx)
    ensures Last(Pre(ctx), c.nil) == c.Nth(m - 1)
  {
    m := |Pre(ctx)|;
    UserOrder(ctx, c.root, Nil);
    assert Pre(ctx) + [] + Post(ctx) == Pre(ctx) + Post(ctx);
  }

  /** RBEnumerate: the stack, from the top, holds exactly the nodes with keys from `low` to `high`, in order. */
  method Enumerate<D>(c: RedBlackTree<D>, low: int, high: int) returns (stack: seq<RNode<D>>)
    requires c.Valid()
    ensures stack == Between(c.Order(), low, high)
  {
    NodesAllocated(c.tree);
    var best; ghost var m;
    best, m := LastUpto(c, high);
    ghost var j: nat := m;
    stack := [];
    hide Balanced, Sorted, Plug, Nodes, InOrder, HoldsAt, Upto, Over;
    while best != c.nil && low <= best.key
      invariant c.Valid() && Upto(c.Order()[..m], high) && Over(c.Order()[m..], high)
      invariant j <= m <= |c.Order()| && best == c.Nth(j - 1) && stack == c.Order()[j..m]
      invariant forall k :: j <= k < m ==> low <= c.Order()[k].key
      decreases j
    {
      stack := [best] + stack;
      j := j - 1;
      best := Predecessor(c, best, j);
    }
    if j > 0 { NthNotNil(c, j - 1); }
    BetweenSlice(c.Order(), j, m, low, high);
  }
}
