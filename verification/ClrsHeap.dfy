/** The node links of oss/rbtree/red_black_tree.c and the operations that change them in place. */
module ClrsHeap {
  import opened Zipper
  import opened ClrsLinks

  class RNode<D> {
    const key: int
    const info: D
    var red: bool
    var left: RNode<D>
    var right: RNode<D>
    var parent: RNode<D>

    constructor (key: int, info: D)
      ensures this.key == key && this.info == info && !red && left == this && right == this && parent == this
    {
      this.key := key;
      this.info := info;
      red := false;
      left, right, parent := this, this, this;
    }
  }

  ghost function LinksOf<D>(n: RNode<D>): Links<RNode<D>>
    reads n
  {
    Links(n.red, n.left, n.right, n.parent)
  }

  /** The heap holds the tree `t`. */
  ghost predicate HoldsAt<D>(t: Tree<RNode<D>>, nil: RNode<D>)
    reads Nodes(t)
  {
    forall n :: n in Nodes(t) ==> LinksOf(n) == At(t, n, nil, nil)
  }

  lemma {:induction false} NodesAllocated<D>(t: Tree<RNode<D>>)
    ensures allocated(Nodes(t))
  {
    if t.Node? {
      NodesAllocated(t.l);
      NodesAllocated(t.r);
    }
  }

  lemma TurningLeft<D>(ctx: seq<Frame<RNode<D>>>, t: Tree<RNode<D>>, nil: RNode<D>)
    requires HoldsAt(Plug(ctx, t), nil) && Sep(Plug(ctx, t)) && nil !in Nodes(Plug(ctx, t)) && ctx != [] && t.Node?
    requires t.r.Node?
    ensures var x, y, b, p := t.n, t.r.n, Top(t.r.l, nil), Up(ctx, nil);
            && x.right == y && y.left == b && x.parent == p && (p.left == x <==> ctx[|ctx|-1].left)
            && x != y && x != p && y != p && b != x && b != y && b != p && nil != x
            && x in Nodes(Plug(ctx, t)) && y in Nodes(Plug(ctx, t)) && p in Nodes(Plug(ctx, t))
            && (b != nil ==> b in Nodes(Plug(ctx, t)))
  {
    Around(ctx, t, nil);
    PlugSep(ctx, t);
    Apart(t, Up(ctx, nil), nil);
  }

  method RotatingLeft<D>(x: RNode<D>, nil: RNode<D>, ghost ctx: seq<Frame<RNode<D>>>, ghost t: Tree<RNode<D>>)
    requires HoldsAt(Plug(ctx, t), nil) && Sep(Plug(ctx, t)) && nil !in Nodes(Plug(ctx, t))
    requires ctx != [] && t.Node? && t.n == x && t.r.Node?
    modifies Nodes(Plug(ctx, t))
    ensures HoldsAt(Plug(ctx, RotateLeft(t)), nil) && Sep(Plug(ctx, RotateLeft(t)))
    ensures Nodes(Plug(ctx, RotateLeft(t))) == Nodes(Plug(ctx, t))
  {
    ghost var tree, tree' := Plug(ctx, t), Plug(ctx, RotateLeft(t));
    TurningLeft(ctx, t, nil);
    NodesAllocated(tree);
    LeftRotatedAt(ctx, t, x, nil);
    hide Sep, Plug, At, Nodes;
    TurnLeft(x, t.r.n, Top(t.r.l, nil), Up(ctx, nil), nil, ctx[|ctx|-1].left);
    forall n | n in Nodes(tree) ensures LinksOf(n) == At(tree', n, nil, nil) {
      LeftRotatedAt(ctx, t, n, nil);
    }
  }

  lemma TurningRight<D>(ctx: seq<Frame<RNode<D>>>, t: Tree<RNode<D>>, nil: RNode<D>)
    requires HoldsAt(Plug(ctx, t), nil) && Sep(Plug(ctx, t)) && nil !in Nodes(Plug(ctx, t)) && ctx != [] && t.Node?
    requires t.l.Node?
    ensures var y, x, b, p := t.n, t.l.n, Top(t.l.r, nil), Up(ctx, nil);
            && y.left == x && x.right == b && y.parent == p && (p.left == y <==> ctx[|ctx|-1].left)
            && y != x && y != p && x != p && b != y && b != x && b != p && nil != y
            && y in Nodes(Plug(ctx, t)) && x in Nodes(Plug(ctx, t)) && p in Nodes(Plug(ctx, t))
            && (b != nil ==> b in Nodes(Plug(ctx, t)))
  {
    Around(ctx, t, nil);
    PlugSep(ctx, t);
    Apart(t, Up(ctx, nil), nil);
  }

  method RotatingRight<D>(y: RNode<D>, nil: RNode<D>, ghost ctx: seq<Frame<RNode<D>>>, ghost t: Tree<RNode<D>>)
    requires HoldsAt(Plug(ctx, t), nil) && Sep(Plug(ctx, t)) && nil !in Nodes(Plug(ctx, t))
    requires ctx != [] && t.Node? && t.n == y && t.l.Node?
    modifies Nodes(Plug(ctx, t))
    ensures HoldsAt(Plug(ctx, RotateRight(t)), nil) && Sep(Plug(ctx, RotateRight(t)))
    ensures Nodes(Plug(ctx, RotateRight(t))) == Nodes(Plug(ctx, t))
  {
    ghost var tree, tree' := Plug(ctx, t), Plug(ctx, RotateRight(t));
    TurningRight(ctx, t, nil);
    NodesAllocated(tree);
    RightRotatedAt(ctx, t, y, nil);
    hide Sep, Plug, At, Nodes;
    TurnRight(y, t.l.n, Top(t.l.r, nil), Up(ctx, nil), nil, ctx[|ctx|-1].left);
    forall n | n in Nodes(tree) ensures LinksOf(n) == At(tree', n, nil, nil) {
      RightRotatedAt(ctx, t, n, nil);
    }
  }

  /** The assignments of LeftRotate. */
  method TurnLeft<D>(x: RNode<D>, ghost y0: RNode<D>, ghost b: RNode<D>, ghost p: RNode<D>, nil: RNode<D>,
                     ghost left: bool)
    requires x.right == y0 && y0.left == b && x.parent == p && x != y0 && x != p && y0 != p && b != x && b != y0
    requires b != p && nil != x
    requires p.left == x <==> left
    modifies x, y0, p, if b == nil then {} else {b}
    ensures LinksOf(x) == old(LinksOf(x)).(right := b, parent := y0)
    ensures LinksOf(y0) == old(LinksOf(y0)).(left := x, parent := p)
    ensures LinksOf(p) == if left then old(LinksOf(p)).(left := y0) else old(LinksOf(p)).(right := y0)
    ensures b != nil ==> LinksOf(b) == old(LinksOf(b)).(parent := x)
  {
    var y := x.right;
    x.right := y.left;
    if y.left != nil { y.left.parent := x; }
    y.parent := x.parent;
    if x == x.parent.left {
      x.parent.left := y;
    } else {
      x.parent.right := y;
    }
    y.left := x;
    x.parent := y;
  }

  /** The assignments of RightRotate. */
  method TurnRight<D>(y: RNode<D>, ghost x0: RNode<D>, ghost b: RNode<D>, ghost p: RNode<D>, nil: RNode<D>,
                      ghost left: bool)
    requires y.left == x0 && x0.right == b && y.parent == p && y != x0 && y != p && x0 != p && b != y && b != x0
    requires b != p && nil != y
    requires p.left == y <==> left
    modifies y, x0, p, if b == nil then {} else {b}
    ensures LinksOf(y) == old(LinksOf(y)).(left := b, parent := x0)
    ensures LinksOf(x0) == old(LinksOf(x0)).(right := y, parent := p)
    ensures LinksOf(p) == if left then old(LinksOf(p)).(left := x0) else old(LinksOf(p)).(right := x0)
    ensures b != nil ==> LinksOf(b) == old(LinksOf(b)).(parent := y)
  {
    var x := y.left;
    y.left := x.right;
    if nil != x.right { x.right.parent := y; }
    x.parent := y.parent;
    if y == y.parent.left {
      y.parent.left := x;
    } else {
      y.parent.right := x;
    }
    x.right := y;
    y.parent := x;
  }

  /** The assignments that splice out `y`, whose child is `x` or is missing. */
  method Unhook<D>(y: RNode<D>, x: RNode<D>, ghost p: RNode<D>, ghost left: bool)
    requires y.parent == p && x != y && x != p && y != p && (p.left == y <==> left)
    modifies x`parent, p
    ensures x.parent == p && x.red == old(x.red) && x.left == old(x.left) && x.right == old(x.right)
    ensures LinksOf(p) == if left then old(LinksOf(p)).(left := x) else old(LinksOf(p)).(right := x)
  {
    x.parent := y.parent;
    if y == y.parent.left {
      y.parent.left := x;
    } else {
      y.parent.right := x;
    }
  }

  lemma Unhooking<D>(ctx: seq<Frame<RNode<D>>>, t: Tree<RNode<D>>, nil: RNode<D>)
    requires HoldsAt(Plug(ctx, t), nil) && Sep(Plug(ctx, t)) && nil !in Nodes(Plug(ctx, t)) && ctx != [] && t.Node?
    ensures var y, x, p := t.n, Top(Only(t), nil), Up(ctx, nil);
            && y.parent == p && x != y && x != p && y != p && (p.left == y <==> ctx[|ctx|-1].left)
            && p in Nodes(Plug(ctx, t)) && (x != nil ==> x in Nodes(Plug(ctx, t)))
  {
    Around(ctx, t, nil);
    PlugSep(ctx, t);
  }

  method Splicing<D>(y: RNode<D>, x: RNode<D>, nil: RNode<D>, ghost ctx: seq<Frame<RNode<D>>>, ghost t: Tree<RNode<D>>)
    requires HoldsAt(Plug(ctx, t), nil) && Sep(Plug(ctx, t)) && nil !in Nodes(Plug(ctx, t)) && ctx != []
    requires t.Node? && t.n == y && (t.l.Nil? || t.r.Nil?) && x == Top(Only(t), nil)
    modifies Nodes(Plug(ctx, t)) - {y}, nil`parent
    ensures HoldsAt(Plug(ctx, Only(t)), nil) && Sep(Plug(ctx, Only(t)))
    ensures Nodes(Plug(ctx, Only(t))) == Nodes(Plug(ctx, t)) - {y}
    ensures x.parent == Up(ctx, nil)
  {
    ghost var tree, tree' := Plug(ctx, t), Plug(ctx, Only(t));
    Unhooking(ctx, t, nil);
    NodesAllocated(tree);
    SplicedAt(ctx, t, Up(ctx, nil), nil);
    hide Sep, Plug, At, Nodes;
    Unhook(y, x, Up(ctx, nil), ctx[|ctx|-1].left);
    forall n | n in Nodes(tree') ensures LinksOf(n) == At(tree', n, nil, nil) {
      SplicedAt(ctx, t, n, nil);
    }
  }

  /** The assignments that put `y` in the place of `z`. */
  method Swap<D>(y: RNode<D>, z: RNode<D>, ghost l: RNode<D>, ghost r: RNode<D>, ghost p: RNode<D>, ghost nil: RNode<D>,
                 ghost left: bool)
    requires z.left == l && z.right == r && z.parent == p && (p.left == z <==> left)
    requires y != z && y != l && y != r && y != p && y != nil && z != l && z != r && z != p && l != p && r != p
    requires (l == r ==> l == nil) && p != nil
    modifies y, l`parent, r`parent, p
    ensures LinksOf(y) == old(LinksOf(z))
    ensures l.parent == y && l.red == old(l.red) && l.left == old(l.left) && l.right == old(l.right)
    ensures r.parent == y && r.red == old(r.red) && r.left == old(r.left) && r.right == old(r.right)
    ensures LinksOf(p) == if left then old(LinksOf(p)).(left := y) else old(LinksOf(p)).(right := y)
  {
    y.left := z.left;
    y.right := z.right;
    y.parent := z.parent;
    y.red := z.red;
    z.right.parent := y;
    z.left.parent := y;
    if z == z.parent.left {
      z.parent.left := y;
    } else {
      z.parent.right := y;
    }
  }

  lemma Swapping<D>(ctx: seq<Frame<RNode<D>>>, t: Tree<RNode<D>>, nil: RNode<D>)
    requires HoldsAt(Plug(ctx, t), nil) && Sep(Plug(ctx, t)) && nil !in Nodes(Plug(ctx, t)) && ctx != [] && t.Node?
    ensures var z, l, r, p := t.n, Top(t.l, nil), Top(t.r, nil), Up(ctx, nil);
            && z.left == l && z.right == r && z.parent == p && (p.left == z <==> ctx[|ctx|-1].left)
            && l != z && r != z && l != p && r != p && (l == r ==> l == nil) && p != nil && p != z
            && (l != nil ==> l in Nodes(Plug(ctx, t))) && (r != nil ==> r in Nodes(Plug(ctx, t)))
            && p in Nodes(Plug(ctx, t)) && z in Nodes(Plug(ctx, t))
  {
    Around(ctx, t, nil);
    PlugSep(ctx, t);
  }

  method Replacing<D>(y: RNode<D>, z: RNode<D>, nil: RNode<D>, ghost ctx: seq<Frame<RNode<D>>>, ghost t: Tree<RNode<D>>)
    requires HoldsAt(Plug(ctx, t), nil) && Sep(Plug(ctx, t)) && nil !in Nodes(Plug(ctx, t)) && ctx != []
    requires t.Node? && t.n == z && y !in Nodes(Plug(ctx, t)) && y != nil
    modifies Nodes(Plug(ctx, t)), y, nil`parent
    ensures HoldsAt(Plug(ctx, t.(n := y)), nil) && Sep(Plug(ctx, t.(n := y)))
    ensures Nodes(Plug(ctx, t.(n := y))) == Nodes(Plug(ctx, t)) - {z} + {y}
  {
    ghost var tree, tree' := Plug(ctx, t), Plug(ctx, t.(n := y));
    Swapping(ctx, t, nil);
    NodesAllocated(tree);
    ReplacedAt(ctx, t, y, y, nil);
    hide Sep, Plug, At, Nodes;
    Swap(y, z, Top(t.l, nil), Top(t.r, nil), Up(ctx, nil), nil, ctx[|ctx|-1].left);
    forall n | n in Nodes(tree') ensures LinksOf(n) == At(tree', n, nil, nil) {
      ReplacedAt(ctx, t, y, n, nil);
    }
  }
}
