/** The tree of oss/rbtree/red_black_tree.c: parent links, the two sentinels `root` and `nil`, duplicate keys. */
module ClrsTree {
  import opened Zipper
  import opened ClrsLinks
  import opened ClrsModel
  import opened ClrsHeap
  import opened ClrsOrder

  /** The tree with its two sentinels: the user's tree is on the left of `root`. */
  class RedBlackTree<D> {
    const root: RNode<D>
    const nil: RNode<D>
    ghost var tree: Tree<RNode<D>>

    ghost predicate Linked()
      reads this, nil, Nodes(tree)
    {
      && tree.Node? && tree.n == root && !tree.red && tree.r.Nil?
      && Sep(tree) && nil !in Nodes(tree) && !nil.red
      && HoldsAt(tree, nil)
    }

    /** The nodes of the user's tree, in order. */
    ghost function Order(): seq<RNode<D>>
      reads this
    {
      InOrder(User(tree))
    }

    ghost predicate Valid()
      reads this, nil, Nodes(tree)
    {
      Linked() && Balanced(User(tree)) && Sorted(Order())
    }

    /** RBTreeCreate; the sentinels carry no key and no info. */
    constructor (zero: D)
      ensures Valid() && Order() == [] && fresh(root) && fresh(nil)
    {
      nil := new RNode(0, zero);
      root := new RNode(0, zero);
      new;
      root.parent, root.left, root.right := nil, nil, nil;
      tree := Node(root, false, Nil, Nil);
    }

    method LeftRotate(x: RNode<D>, ghost ctx: seq<Frame<RNode<D>>>, ghost t: Tree<RNode<D>>)
      requires Linked() && tree == Plug(ctx, t) && FromHeader(ctx, root) && t.Node? && t.n == x && t.r.Node?
      modifies `tree, Nodes(tree)
      ensures Linked() && tree == Plug(ctx, RotateLeft(t)) && Nodes(tree) == old(Nodes(tree))
      ensures InOrder(tree) == old(InOrder(tree))
    {
      RotateLeftOrder(t);
      PlugSame(ctx, t, RotateLeft(t));
      HeaderTop(ctx, root, RotateLeft(t));
      hide Sep, Plug, Nodes, HoldsAt, InOrder;
      RotatingLeft(x, nil, ctx, t);
      tree := Plug(ctx, RotateLeft(t));
    }

    method RightRotate(y: RNode<D>, ghost ctx: seq<Frame<RNode<D>>>, ghost t: Tree<RNode<D>>)
      requires Linked() && tree == Plug(ctx, t) && FromHeader(ctx, root) && t.Node? && t.n == y && t.l.Node?
      modifies `tree, Nodes(tree)
      ensures Linked() && tree == Plug(ctx, RotateRight(t)) && Nodes(tree) == old(Nodes(tree))
      ensures InOrder(tree) == old(InOrder(tree))
    {
      RotateRightOrder(t);
      PlugSame(ctx, t, RotateRight(t));
      HeaderTop(ctx, root, RotateRight(t));
      hide Sep, Plug, Nodes, HoldsAt, InOrder;
      RotatingRight(y, nil, ctx, t);
      tree := Plug(ctx, RotateRight(t));
    }

    /** Gives a node of the tree another colour. */
    method Paint(n: RNode<D>, red: bool, ghost ctx: seq<Frame<RNode<D>>>, ghost t: Tree<RNode<D>>)
      requires Linked() && tree == Plug(ctx, t) && FromHeader(ctx, root) && t.Node? && t.n == n
      modifies `tree, n`red
      ensures Linked() && tree == Plug(ctx, t.(red := red)) && Nodes(tree) == old(Nodes(tree))
      ensures InOrder(tree) == old(InOrder(tree))
    {
      PlugSame(ctx, t, t.(red := red));
      HeaderTop(ctx, root, t.(red := red));
      PaintedAt(ctx, t, red, root, nil);
      NodesAllocated(tree);
      hide Sep, Plug, Nodes, At, InOrder;
      n.red := red;
      forall m | m in Nodes(tree) ensures LinksOf(m) == At(Plug(ctx, t.(red := red)), m, nil, nil) {
        PaintedAt(ctx, t, red, m, nil);
      }
      tree := Plug(ctx, t.(red := red));
    }

    /** LeftRotate for the left side, RightRotate for the right side. */
    method Rotate(s: bool, x: RNode<D>, ghost ctx: seq<Frame<RNode<D>>>, ghost t: Tree<RNode<D>>)
      requires Linked() && tree == Plug(ctx, t) && FromHeader(ctx, root) && t.Node? && t.n == x && Near(!s, t).Node?
      modifies `tree, Nodes(tree)
      ensures Linked() && tree == Plug(ctx, Turn(s, t)) && Nodes(tree) == old(Nodes(tree))
      ensures InOrder(tree) == old(InOrder(tree))
    {
      if s {
        LeftRotate(x, ctx, t);
      } else {
        RightRotate(x, ctx, t);
      }
    }

    // ----- insertion -----

    /** What the links around a node, its parent and its grandparent say. */
    lemma Family(ctx: seq<Frame<RNode<D>>>, t: Tree<RNode<D>>)
      requires Linked() && tree == Plug(ctx, t) && FromHeader(ctx, root) && |ctx| >= 2 && t.Node?
      ensures var fp, fg := ctx[|ctx|-1], ctx[|ctx|-2];
              var x, p, g := t.n, fp.n, fg.n;
              && x.parent == p && p.parent == g && p.red == fp.red
              && (g.left == p <==> fg.left) && (p.left == x <==> fp.left) && (p.right == x <==> !fp.left)
              && (if fg.left then g.right else g.left) == Top(fg.sib, nil) && Top(fg.sib, nil).red == Red(fg.sib)
    {
      var fp, fg := ctx[|ctx|-1], ctx[|ctx|-2];
      var rest1, rest2 := ctx[..|ctx|-1], ctx[..|ctx|-2];
      assert rest1 == rest2 + [fg] && ctx == rest1 + [fp];
      Push(rest1, fp, t);
      Push(rest2, fg, Join(fp, t));
      Around(ctx, t, nil);
      Around(rest1, Join(fp, t), nil);
      PlugNodes(rest1, Join(fp, t));
      PlugAt(rest1, Join(fp, t), fg.n, nil);
      PlugSep(ctx, t);
      if fg.sib.Node? {
        FlipJoin(fg, Join(fp, t));
        Push(rest2, Flip(fg, Join(fp, t)), fg.sib);
        Around(rest2 + [Flip(fg, Join(fp, t))], fg.sib, nil);
      }
    }

    /** Red uncle: the parent and the uncle become black, the grandparent red. */
    method PushBlack(p: RNode<D>, g: RNode<D>, y: RNode<D>,
                     ghost rest: seq<Frame<RNode<D>>>, ghost fg: Frame<RNode<D>>, ghost fp: Frame<RNode<D>>,
                         ghost t: Tree<RNode<D>>)
      requires Linked() && tree == Plug(rest + [fg, fp], t) && FromHeader(rest, root)
      requires p == fp.n && g == fg.n && fg.sib.Node? && y == fg.sib.n
      modifies `tree, Nodes(tree)
      ensures Linked() && tree == Plug(rest, Pushed(fg, fp, t)) && Nodes(tree) == old(Nodes(tree))
      ensures InOrder(tree) == old(InOrder(tree))
    {
      ghost var P, P' := Join(fp, t), Join(fp.(red := false), t);
      ghost var over := rest + [Flip(fg, P')];
      PlugTwo(rest, fg, fp, t);
      InTree(rest + [fg], P);
      Paint(p, false, rest + [fg], P);
      Push(rest, fg, P');
      Push(rest, Flip(fg, P'), fg.sib);
      InTree(over, fg.sib);
      Paint(y, false, over, fg.sib);
      Push(rest, Flip(fg, P'), fg.sib.(red := false));
      InTree(rest, Join(Flip(fg, P'), fg.sib.(red := false)));
      Paint(g, true, rest, Join(Flip(fg, P'), fg.sib.(red := false)));
    }

    /** Inner child: rotate it outwards. */
    method Straighten(s: bool, p: RNode<D>, ghost rest: seq<Frame<RNode<D>>>, ghost fg: Frame<RNode<D>>,
                      ghost fp: Frame<RNode<D>>, ghost t: Tree<RNode<D>>)
      requires Linked() && tree == Plug(rest + [fg, fp], t) && FromHeader(rest, root) && t.Node? && p == fp.n
      requires fp.left == !s
      modifies `tree, Nodes(tree)
      ensures Linked() && tree == Plug(rest + [fg, OuterFrame(fp, t)], OuterTree(fp, t))
      ensures Nodes(tree) == old(Nodes(tree)) && InOrder(tree) == old(InOrder(tree))
    {
      PlugTwo(rest, fg, fp, t);
      TurnOuter(fp, t);
      PlugTwo(rest, fg, OuterFrame(fp, t), OuterTree(fp, t));
      Rotate(s, p, rest + [fg], Join(fp, t));
    }

    /** Outer child: the parent becomes black, the grandparent red, and the parent is rotated up. */
    method Settle(s: bool, p: RNode<D>, g: RNode<D>,
                  ghost rest: seq<Frame<RNode<D>>>, ghost fg: Frame<RNode<D>>, ghost fp: Frame<RNode<D>>,
                      ghost t: Tree<RNode<D>>)
      requires Linked() && tree == Plug(rest + [fg, fp], t) && FromHeader(rest, root)
      requires p == fp.n && g == fg.n && fp.left == fg.left == s
      modifies `tree, Nodes(tree)
      ensures Linked() && tree == Plug(rest + [Settled(fg, fp)], t) && Nodes(tree) == old(Nodes(tree))
      ensures InOrder(tree) == old(InOrder(tree))
    {
      ghost var P, P' := Join(fp, t), Join(fp.(red := false), t);
      PlugTwo(rest, fg, fp, t);
      InTree(rest + [fg], P);
      Paint(p, false, rest + [fg], P);
      Push(rest, fg, P');
      InTree(rest, Join(fg, P'));
      Paint(g, true, rest, Join(fg, P'));
      TurnSettled(fg, fp, t);
      Push(rest, Settled(fg, fp), t);
      Rotate(!s, g, rest, Join(Frame(fg.n, true, fg.left, fg.sib), P'));
    }

    /** One iteration of the loop of RBTreeInsert. */
    method InsertStep(x0: RNode<D>, ghost ctx: seq<Frame<RNode<D>>>, ghost t: Tree<RNode<D>>, ghost h: int)
      returns (x: RNode<D>, ghost ctx': seq<Frame<RNode<D>>>, ghost t': Tree<RNode<D>>, ghost h': int)
      requires Linked() && tree == Plug(ctx, t) && Inserting(ctx, root, t, h) && LastRed(ctx) && t.n == x0
      modifies `tree, Nodes(tree)
      ensures Linked() && tree == Plug(ctx', t') && Inserting(ctx', root, t', h') && t'.n == x
      ensures |ctx'| < |ctx|
      ensures Nodes(tree) == old(Nodes(tree)) && InOrder(tree) == old(InOrder(tree))
    {
      x := x0;
      ghost var fp, fg, rest := ctx[|ctx|-1], ctx[|ctx|-2], ctx[..|ctx|-2];
      RedAbove(ctx, root, t, h);
      Family(ctx, t);
      var p := x.parent;
      var g := p.parent;
      var s := p == g.left;
      var y := if s then g.right else g.left;
      hide Plug, Rb, CtxRb, Linked, Nodes, InOrder;
      if y.red {
        PushBlack(p, g, y, rest, fg, fp, t);
        PushedInserting(rest, root, fg, fp, t, h);
        x, ctx', t', h' := g, rest, Pushed(fg, fp, t), h + 1;
      } else if x == (if s then p.right else p.left) {
        x := p;
        OuterRb(fp, t, h);
        ghost var f', s' := OuterFrame(fp, t), OuterTree(fp, t);
        Straighten(s, p, rest, fg, fp, t);
        Family(rest + [fg, f'], s');
        Settle(s, x.parent, x.parent.parent, rest, fg, f', s');
        SettledInserting(rest, root, fg, f', s', h);
        ctx', t', h' := rest + [Settled(fg, f')], s', h;
      } else {
        Settle(s, x.parent, x.parent.parent, rest, fg, fp, t);
        SettledInserting(rest, root, fg, fp, t, h);
        ctx', t', h' := rest + [Settled(fg, fp)], t, h;
      }
    }

    /** Links `z` below `y`, at the end of the path. */
    method Attach(z: RNode<D>, y: RNode<D>, left: bool, ghost ctx: seq<Frame<RNode<D>>>)
      requires Linked() && tree == Plug(ctx, Nil) && FromHeader(ctx, root) && y == Up(ctx, nil)
      requires left == ctx[|ctx|-1].left
      requires y in Nodes(tree) && z !in Nodes(tree) && z != nil && z.left == nil && z.right == nil && z.parent == y
      modifies `tree, y
      ensures Linked() && tree == Plug(ctx, Node(z, z.red, Nil, Nil)) && Nodes(tree) == old(Nodes(tree)) + {z}
    {
      ghost var tree' := Plug(ctx, Node(z, z.red, Nil, Nil));
      HeaderTop(ctx, root, Node(z, z.red, Nil, Nil));
      AttachedAt(ctx, z, z.red, z, nil);
      NodesAllocated(tree);
      hide Sep, Plug, At, Nodes;
      if left {
        y.left := z;
      } else {
        y.right := z;
      }
      forall n | n in Nodes(tree') ensures LinksOf(n) == At(tree', n, nil, nil) {
        AttachedAt(ctx, z, z.red, n, nil);
      }
      tree := tree';
    }

    /** The links of the node at a position. */
    lemma LinksAt(ctx: seq<Frame<RNode<D>>>, t: Tree<RNode<D>>)
      requires Linked() && tree == Plug(ctx, t) && FromHeader(ctx, root) && t.Node?
      ensures t.n in Nodes(tree) && t.n != nil && t.n != root
      ensures LinksOf(t.n) == Links(t.red, Top(t.l, nil), Top(t.r, nil), Up(ctx, nil))
    {
      Around(ctx, t, nil);
      PlugSep(ctx, t);
      EntryInside(ctx, 0);
    }

    lemma LinksTop()
      requires Linked()
      ensures root.left == Top(User(tree), nil) && root in Nodes(tree) && root != nil && root.right == nil
      ensures root.parent == nil
      ensures !root.red
      ensures FromHeader([Frame(root, false, true, Nil)], root)
      ensures tree == Plug([Frame(root, false, true, Nil)], User(tree))
    {
      Push([], Frame(root, false, true, Nil), User(tree));
      assert [] + [Frame(root, false, true, Nil)] == [Frame(root, false, true, Nil)];
    }

    /** The descent of TreeInsertHelp: to the last place where the key can go. */
    method FindPlace(key: int) returns (y: RNode<D>, ghost ctx: seq<Frame<RNode<D>>>)
      requires Valid()
      ensures tree == Plug(ctx, Nil) && FromHeader(ctx, root) && y == Up(ctx, nil) && y in Nodes(tree)
      ensures ctx[|ctx|-1].left == (y == root || y.key > key)
      ensures Upto(Pre(ctx), key) && Over(Post(ctx), key)
    {
      LinksTop();
      y := root;
      var x := root.left;
      ghost var t := User(tree);
      ctx := [Frame(root, false, true, Nil)];
      hide Balanced, Sorted, Plug, Nodes, InOrder, HoldsAt;
      while x != nil
        invariant Valid() && tree == Plug(ctx, t) && FromHeader(ctx, root) && x == Top(t, nil) && y == Up(ctx, nil)
        invariant y in Nodes(tree)
        invariant ctx[|ctx|-1].left == (y == root || y.key > key)
        invariant Upto(Pre(ctx), key) && Over(Post(ctx), key)
        decreases t
      {
        LinksAt(ctx, t);
        Descend(ctx, root, t, key);
        ctx := ctx + [Passed(t, x.key > key)];
        t := Near(x.key > key, t);
        y := x;
        if x.key > key {
          x := x.left;
        } else {
          x := x.right;
        }
        NilTop(ctx, t);
      }
      NilTop(ctx, t);
    }

    lemma NilTop(ctx: seq<Frame<RNode<D>>>, t: Tree<RNode<D>>)
      requires Linked() && tree == Plug(ctx, t)
      ensures Top(t, nil) == nil <==> t.Nil?
    {
      PlugNodes(ctx, t);
    }

    /** TreeInsertHelp. */
    method InsertHelp(z: RNode<D>) returns (ghost ctx: seq<Frame<RNode<D>>>)
      requires Valid() && z !in Nodes(tree) && z != nil
      modifies `tree, Nodes(tree), z
      ensures Linked() && old(tree) == Plug(ctx, Nil) && tree == Plug(ctx, Node(z, z.red, Nil, Nil))
      ensures FromHeader(ctx, root)
      ensures Nodes(tree) == old(Nodes(tree)) + {z} && z.red == old(z.red)
      ensures Order() == Inserted(old(Order()), z) && Sorted(Order())
    {
      NodesAllocated(tree);
      z.left, z.right := nil, nil;
      var y;
      y, ctx := FindPlace(z.key);
      z.parent := y;
      AttachedOrder(ctx, root, z, z.red);
      hide Balanced, Sorted, Plug, Nodes, InOrder, HoldsAt, Inserted;
      Attach(z, y, y == root || y.key > z.key, ctx);
    }

    /** The loop of RBTreeInsert, and the root made black after it. */
    method FixInsert(z: RNode<D>, ghost ctx0: seq<Frame<RNode<D>>>, ghost t0: Tree<RNode<D>>, ghost h0: int)
      requires Linked() && tree == Plug(ctx0, t0) && Inserting(ctx0, root, t0, h0) && t0.n == z
      modifies `tree, Nodes(tree)
      ensures Linked() && Balanced(User(tree)) && Order() == old(Order()) && Nodes(tree) == old(Nodes(tree))
    {
      hide Plug, Nodes, InOrder, Linked, Rb, CtxRb, LastRed, BlackHeight, Order;
      var x := z;
      ghost var ctx, t, h := ctx0, t0, h0;
      ghost var order := InOrder(tree);
      HeaderLast();
      RedParent(ctx, t);
      while x.parent.red
        invariant Linked() && tree == Plug(ctx, t) && Inserting(ctx, root, t, h) && t.n == x
        invariant x.parent.red == LastRed(ctx)
        invariant Nodes(tree) == old(Nodes(tree)) && InOrder(tree) == order
        decreases |ctx|
      {
        x, ctx, t, h := InsertStep(x, ctx, t, h);
        RedParent(ctx, t);
      }
      PlugRb(ctx, root, t, h);
      UserNode(ctx, t);
      BlackRoot(order);
      HeaderLast();
    }

    lemma UserNode(ctx: seq<Frame<RNode<D>>>, t: Tree<RNode<D>>)
      requires tree == Plug(ctx, t) && FromHeader(ctx, root) && t.Node?
      ensures User(tree).Node?
    {
      HeaderTop(ctx, root, t);
      PlugNodes(ctx[1..], t);
    }

    /** The header comes last. */
    lemma HeaderLast()
      requires Linked()
      ensures |InOrder(tree)| > 0 && Order() == InOrder(tree)[..|InOrder(tree)|-1]
    {
      assert InOrder(tree) == Order() + [root] + [];
    }

    lemma RedParent(ctx: seq<Frame<RNode<D>>>, t: Tree<RNode<D>>)
      requires Linked() && tree == Plug(ctx, t) && FromHeader(ctx, root) && t.Node?
      ensures t.n.parent.red == LastRed(ctx)
    {
      Around(ctx, t, nil);
    }

    method BlackRoot(ghost order: seq<RNode<D>>)
      requires Linked() && User(tree).Node? && Rb(User(tree), BlackHeight(User(tree))) && InOrder(tree) == order
      modifies `tree, Nodes(tree)
      ensures Linked() && Balanced(User(tree)) && InOrder(tree) == order && Nodes(tree) == old(Nodes(tree))
    {
      ghost var t, top := User(tree), [Frame(root, false, true, Nil)];
      LinksTop();
      InTree(top, t);
      Push([], Frame(root, false, true, Nil), t.(red := false));
      assert [] + [Frame(root, false, true, Nil)] == top;
      hide Nodes, InOrder, HoldsAt, Sep;
      Paint(root.left, false, top, t);
      HeaderTop(top, root, t.(red := false));
    }

    /** RBTreeInsert, with the new node allocated by the caller: it keeps its identity until it is deleted. */
    method Insert(z: RNode<D>)
      requires Valid() && z !in Nodes(tree) && z != nil
      modifies `tree, Nodes(tree), z
      ensures Valid() && Order() == Inserted(old(Order()), z) && Nodes(tree) == old(Nodes(tree)) + {z}
    {
      hide Plug, Nodes, InOrder, Linked, Rb, CtxRb, Order, Inserted, Sorted, Balanced, User;
      ghost var ctx := InsertHelp(z);
      HeaderLast();
      NewLeaf(ctx, z);
      Paint(z, true, ctx, Node(z, z.red, Nil, Nil));
      HeaderLast();
      FixInsert(z, ctx, Node(z, true, Nil, Nil), 0);
    }

    lemma NewLeaf(ctx: seq<Frame<RNode<D>>>, z: RNode<D>)
      requires FromHeader(ctx, root) && Balanced(User(Plug(ctx, Nil)))
      ensures Inserting(ctx, root, Node(z, true, Nil, Nil), 0)
    {
      SplitRb(ctx, root, Nil);
    }

    // ----- deletion -----

    /** What the links around a subtree, its parent and its sibling say; the subtree may be empty. */
    lemma Siblings(rest: seq<Frame<RNode<D>>>, fp: Frame<RNode<D>>, t: Tree<RNode<D>>)
      requires Linked() && tree == Plug(rest + [fp], t) && FromHeader(rest, root) && fp.sib.Node?
      ensures var p, w := fp.n, fp.sib.n;
              && (p.left == Top(t, nil) <==> fp.left) && (if fp.left then p.right else p.left) == w && p.red == fp.red
              && w.red == fp.sib.red && w.left == Top(fp.sib.l, nil) && w.right == Top(fp.sib.r, nil)
              && w.left.red == Red(fp.sib.l) && w.right.red == Red(fp.sib.r)
              && p in Nodes(tree) && w in Nodes(tree)
    {
      var over := rest + [Flip(fp, t)];
      FlipJoin(fp, t);
      Push(rest, fp, t);
      Push(rest, Flip(fp, t), fp.sib);
      PlugSep(rest + [fp], t);
      PlugNodes(rest + [fp], t);
      Around(rest, Join(fp, t), nil);
      Around(over, fp.sib, nil);
    }

    /** Red sibling. */
    method Lift(s: bool, p: RNode<D>, w: RNode<D>, ghost rest: seq<Frame<RNode<D>>>, ghost fp: Frame<RNode<D>>,
                ghost t: Tree<RNode<D>>)
      requires Linked() && tree == Plug(rest + [fp], t) && FromHeader(rest, root) && fp.sib.Node? && p == fp.n
      requires w == fp.sib.n
      requires s == fp.left
      modifies `tree, Nodes(tree)
      ensures Linked() && tree == Plug(rest + [LiftedFrame(fp), LoweredFrame(fp)], t)
      ensures Nodes(tree) == old(Nodes(tree)) && InOrder(tree) == old(InOrder(tree))
    {
      ghost var over, W := rest + [Flip(fp, t)], fp.sib.(red := false);
      ghost var P := Join(fp.(sib := W), t);
      Push(rest, fp, t);
      Push(rest, Flip(fp, t), fp.sib);
      InTree(over, fp.sib);
      Paint(w, false, over, fp.sib);
      Push(rest, Flip(fp, t), W);
      InTree(rest, P);
      Paint(p, true, rest, P);
      TurnLifted(fp, t);
      PlugTwo(rest, LiftedFrame(fp), LoweredFrame(fp), t);
      Rotate(s, p, rest, Join(Frame(fp.n, true, fp.left, W), t));
    }

    /** Black sibling with black children. */
    method Fade(w: RNode<D>, ghost rest: seq<Frame<RNode<D>>>, ghost fp: Frame<RNode<D>>, ghost t: Tree<RNode<D>>)
      requires Linked() && tree == Plug(rest + [fp], t) && FromHeader(rest, root) && fp.sib.Node? && w == fp.sib.n
      modifies `tree, Nodes(tree)
      ensures Linked() && tree == Plug(rest, Faded(fp, t)) && Nodes(tree) == old(Nodes(tree))
      ensures InOrder(tree) == old(InOrder(tree))
    {
      Push(rest, fp, t);
      Push(rest, Flip(fp, t), fp.sib);
      InTree(rest + [Flip(fp, t)], fp.sib);
      Paint(w, true, rest + [Flip(fp, t)], fp.sib);
      Push(rest, Flip(fp, t), fp.sib.(red := true));
    }

    /** Black sibling whose near child is red and whose far child is black. */
    method TurnOut(s: bool, w: RNode<D>, v: RNode<D>, ghost rest: seq<Frame<RNode<D>>>, ghost fp: Frame<RNode<D>>,
                   ghost t: Tree<RNode<D>>)
      requires Linked() && tree == Plug(rest + [fp], t) && FromHeader(rest, root) && s == fp.left
      requires fp.sib.Node? && w == fp.sib.n && Near(s, fp.sib).Node? && v == Near(s, fp.sib).n
      modifies `tree, Nodes(tree)
      ensures Linked() && tree == Plug(rest + [Outward(fp)], t) && Nodes(tree) == old(Nodes(tree))
      ensures InOrder(tree) == old(InOrder(tree))
    {
      ghost var over, W := rest + [Flip(fp, t)], fp.sib;
      ghost var V := Near(s, W);
      ghost var W1 := Join(Passed(W, s), V.(red := false));
      ghost var W2 := Join(Frame(W.n, true, s, Near(!s, W)), V.(red := false));
      Push(rest, fp, t);
      Push(rest, Flip(fp, t), W);
      Sides(W, s);
      Push(over, Passed(W, s), V);
      InTree(over + [Passed(W, s)], V);
      Paint(v, false, over + [Passed(W, s)], V);
      Push(over, Passed(W, s), V.(red := false));
      InTree(over, W1);
      Paint(w, true, over, W1);
      TurnOutward(fp);
      Rotate(!s, w, over, W2);
      Push(rest, Flip(fp, t), Outward(fp).sib);
      FlipJoin(Outward(fp), t);
      Push(rest, Outward(fp), t);
    }

    /** Black sibling whose far child is red. */
    method Restore(s: bool, p: RNode<D>, w: RNode<D>, v: RNode<D>, ghost rest: seq<Frame<RNode<D>>>,
                   ghost fp: Frame<RNode<D>>, ghost t: Tree<RNode<D>>)
      requires Linked() && tree == Plug(rest + [fp], t) && FromHeader(rest, root) && s == fp.left && p == fp.n
      requires fp.sib.Node? && w == fp.sib.n && Near(!s, fp.sib).Node? && v == Near(!s, fp.sib).n
      modifies `tree, Nodes(tree)
      ensures Linked() && tree == Plug(rest, Restored(fp, t)) && Nodes(tree) == old(Nodes(tree))
      ensures InOrder(tree) == old(InOrder(tree))
    {
      ghost var over, W := rest + [Flip(fp, t)], fp.sib;
      Siblings(rest, fp, t);
      Push(rest, fp, t);
      Push(rest, Flip(fp, t), W);
      Paint(w, p.red, over, W);
      ghost var W1 := W.(red := fp.red);
      Push(rest, Flip(fp, t), W1);
      Paint(p, false, rest, Join(fp.(sib := W1), t));
      ghost var f1 := Frame(fp.n, false, s, W1);
      ghost var over1, V := rest + [Flip(f1, t)], Near(!s, W1);
      FlipJoin(f1, t);
      Push(rest, Flip(f1, t), W1);
      Sides(W1, !s);
      Push(over1, Passed(W1, !s), V);
      InTree(over1 + [Passed(W1, !s)], V);
      Paint(v, false, over1 + [Passed(W1, !s)], V);
      Push(over1, Passed(W1, !s), V.(red := false));
      ghost var W2 := Join(Passed(W1, !s), V.(red := false));
      Push(rest, Flip(f1, t), W2);
      TurnRestored(fp, t);
      Rotate(s, p, rest, Join(f1.(sib := W2), t));
    }

    /** The colour of a node on the path. */
    lemma EntryRed(ctx: seq<Frame<RNode<D>>>, t: Tree<RNode<D>>, k: nat)
      requires Linked() && tree == Plug(ctx, t) && k < |ctx|
      ensures ctx[k].n in Nodes(tree) && ctx[k].n.red == ctx[k].red
    {
      var up, sub := ctx[..k + 1], Plug(ctx[k + 1..], t);
      assert ctx == up + ctx[k + 1..];
      PlugAppend(up, ctx[k + 1..], t);
      PlugNodes(up, sub);
      PlugAt(up, sub, ctx[k].n, nil);
    }

    /** One iteration of the loop of RBDeleteFixUp; `done` when it leaves the loop through the saved root. */
    method DeleteStep(x0: RNode<D>, r0: RNode<D>, ghost rest: seq<Frame<RNode<D>>>, ghost fp: Frame<RNode<D>>,
                      ghost t: Tree<RNode<D>>, ghost h: int)
      returns (x: RNode<D>, done: bool, ghost ctx': seq<Frame<RNode<D>>>, ghost t': Tree<RNode<D>>, ghost h': int)
      requires Linked() && tree == Plug(rest + [fp], t) && rest != [] && Deleting(rest + [fp], root, t, h) && !Red(t)
      requires x0 == Top(t, nil) && x0.parent == fp.n && (rest + [fp])[1].n == r0
      modifies `tree, Nodes(tree)
      ensures Linked() && Nodes(tree) == old(Nodes(tree)) && InOrder(tree) == old(InOrder(tree))
      ensures done ==> Balanced(User(tree)) && x == r0 && !r0.red
      ensures !done ==>
                tree == Plug(ctx', t') && Deleting(ctx', root, t', h') && x == Top(t', nil) && t'.Node? &&
                x.parent == Up(ctx', nil)
      ensures !done ==> Anchored(ctx', t', nil, r0) && |ctx'| + (if Red(t') then 0 else 1) < |rest| + 2
    {
      var p := x0.parent;
      Sibling(rest, root, fp, t, h);
      Siblings(rest, fp, t);
      var s := x0 == p.left;
      var w := if s then p.right else p.left;
      hide Plug, Nodes, InOrder, Linked, Rb, CtxRb, BlackHeight, Balanced;
      NilOutside();
      if w.red {
        Lift(s, p, w, rest, fp, t);
        LiftedDeleting(rest, root, fp, t, h);
        ghost var rest', fp' := rest + [LiftedFrame(fp)], LoweredFrame(fp);
        assert rest + [LiftedFrame(fp), LoweredFrame(fp)] == rest' + [fp'];
        if t.Node? { LinksAt(rest' + [fp'], t); }
        x, done, ctx', t', h' := BlackSibling(s, x0, r0, rest', fp', t, h);
      } else {
        x, done, ctx', t', h' := BlackSibling(s, x0, r0, rest, fp, t, h);
      }
    }

    /** The rest of the iteration, once the sibling is black; the parent is read again, also that of nil. */
    method BlackSibling(s: bool, x0: RNode<D>, r0: RNode<D>, ghost rest: seq<Frame<RNode<D>>>,
                        ghost fp: Frame<RNode<D>>,
                        ghost t: Tree<RNode<D>>, ghost h: int)
      returns (x: RNode<D>, done: bool, ghost ctx': seq<Frame<RNode<D>>>, ghost t': Tree<RNode<D>>, ghost h': int)
      requires Linked() && tree == Plug(rest + [fp], t) && rest != [] && Deleting(rest + [fp], root, t, h) && !Red(t)
      requires !Red(fp.sib)
      requires x0 == Top(t, nil) && x0.parent == fp.n && s == fp.left
      requires (rest + [fp])[1].n == r0 || (fp.red && fp.n == r0)
      modifies `tree, Nodes(tree)
      ensures Linked() && Nodes(tree) == old(Nodes(tree)) && InOrder(tree) == old(InOrder(tree))
      ensures done ==> Balanced(User(tree)) && x == r0 && !r0.red
      ensures !done ==>
                tree == Plug(ctx', t') && Deleting(ctx', root, t', h') && x == Top(t', nil) && t'.Node? &&
                x.parent == Up(ctx', nil)
      ensures !done ==> Anchored(ctx', t', nil, r0) && |ctx'| == |rest| && Red(t') == fp.red
    {
      Sibling(rest, root, fp, t, h);
      Siblings(rest, fp, t);
      var w := if s then x0.parent.right else x0.parent.left;
      hide Plug, Nodes, InOrder, Linked, Rb, CtxRb, BlackHeight, Balanced;
      done := w.right.red || w.left.red;
      if !done {
        NilOutside();
        Fade(w, rest, fp, t);
        FadedDeleting(rest, root, fp, t, h);
        Same(rest, fp, t, x0);
        x, ctx', t', h' := x0.parent, rest, Faded(fp, t), if fp.red then h else h + 1;
        LinksAt(ctx', t');
      } else {
        DeleteEnd(s, x0, w, r0, rest, fp, t, h);
        x, ctx', t', h' := r0, rest, t, h;
      }
    }

    /** The last two cases, after which the loop is left. */
    method DeleteEnd(s: bool, x0: RNode<D>, w0: RNode<D>, ghost r0: RNode<D>, ghost rest: seq<Frame<RNode<D>>>,
                     ghost fp0: Frame<RNode<D>>, ghost t: Tree<RNode<D>>, ghost h: int)
      requires Linked() && tree == Plug(rest + [fp0], t) && rest != [] && Deleting(rest + [fp0], root, t, h) && !Red(t)
      requires fp0.sib.Node? && !fp0.sib.red && (Red(fp0.sib.l) || Red(fp0.sib.r))
      requires s == fp0.left && x0 == Top(t, nil) && x0.parent == fp0.n && w0 == fp0.sib.n
      requires fp0.n == r0 || (|rest| > 1 && rest[1].n == r0)
      modifies `tree, Nodes(tree)
      ensures Linked() && Nodes(tree) == old(Nodes(tree)) && InOrder(tree) == old(InOrder(tree))
      ensures Balanced(User(tree)) && !r0.red
    {
      var w := w0;
      ghost var fp := fp0;
      Sibling(rest, root, fp, t, h);
      Siblings(rest, fp, t);
      hide Plug, Nodes, InOrder, Linked, Rb, CtxRb, BlackHeight, Balanced;
      NilOutside();
      if !(if s then w.right else w.left).red {
        OutwardDeleting(rest, root, fp, t, h);
        TurnOut(s, w, if s then w.left else w.right, rest, fp, t);
        fp := Outward(fp);
        Siblings(rest, fp, t);
        if t.Node? { LinksAt(rest + [fp], t); }
        w := if s then x0.parent.right else x0.parent.left;
      }
      RestoredBalanced(rest, root, fp, t, h);
      Restore(s, x0.parent, w, if s then w.right else w.left, rest, fp, t);
      ParentBlack(rest, fp, t, r0);
    }

    lemma NilOutside()
      requires Linked()
      ensures nil !in Nodes(tree)
    {
    }

    /** Giving the sibling another colour leaves the parent of a subtree, even an empty one. */
    lemma Same(rest: seq<Frame<RNode<D>>>, fp: Frame<RNode<D>>, t: Tree<RNode<D>>, x: RNode<D>)
      requires Linked() && fp.sib.Node? && tree == Plug(rest, Faded(fp, t)) && FromHeader(rest, root)
      requires x == Top(t, nil)
      ensures t.Node? ==> x.parent == fp.n
    {
      var f := fp.(sib := fp.sib.(red := true));
      Push(rest, f, t);
      assert Faded(fp, t) == Join(f, t);
      if t.Node? { LinksAt(rest + [f], t); }
    }

    lemma ParentBlack(rest: seq<Frame<RNode<D>>>, fp: Frame<RNode<D>>, t: Tree<RNode<D>>, r0: RNode<D>)
      requires fp.sib.Node? && Near(!fp.left, fp.sib).Node? && Linked() && tree == Plug(rest, Restored(fp, t))
      requires FromHeader(rest, root)
      requires fp.n == r0 || (|rest| > 1 && rest[1].n == r0)
      requires |rest| > 1 ==> !rest[1].red
      ensures !r0.red
    {
      var w, s := fp.sib, fp.left;
      if fp.n == r0 {
        var f := Frame(w.n, fp.red, s, Near(!s, w).(red := false));
        Push(rest, f, Join(Frame(fp.n, false, s, Near(s, w)), t));
        LinksAt(rest + [f], Join(Frame(fp.n, false, s, Near(s, w)), t));
      } else {
        EntryRed(rest, Restored(fp, t), 1);
      }
    }

    /** RBDeleteFixUp. The root is read once, before the loop; rotations may put another node above it. */
    method DeleteFixUp(x0: RNode<D>, ghost ctx0: seq<Frame<RNode<D>>>, ghost t0: Tree<RNode<D>>, ghost h0: int)
      requires Linked() && tree == Plug(ctx0, t0) && Deleting(ctx0, root, t0, h0) && x0 == Top(t0, nil)
      requires x0.parent == Up(ctx0, nil)
      modifies `tree, Nodes(tree), nil`red
      ensures Linked() && Balanced(User(tree)) && Nodes(tree) == old(Nodes(tree)) && InOrder(tree) == old(InOrder(tree))
    {
      var x, r0, done := x0, root.left, false;
      ghost var ctx, t, h, order := ctx0, t0, h0, InOrder(tree);
      AnchorTop(ctx, t);
      hide Plug, Nodes, InOrder, Linked, Rb, CtxRb, BlackHeight, Balanced, User;
      TopRed(ctx, t);
      while !x.red && r0 != x
        modifies `tree, Nodes(tree)
        invariant Linked() && Nodes(tree) == old(Nodes(tree)) && InOrder(tree) == order
        invariant done ==> Balanced(User(tree)) && x == r0 && !r0.red
        invariant !done ==>
                    tree == Plug(ctx, t) && Deleting(ctx, root, t, h) && x == Top(t, nil) && x.parent == Up(ctx, nil)
        invariant !done ==> Anchored(ctx, t, nil, r0) && x.red == Red(t)
        decreases !done, |ctx| + if Red(t) then 0 else 1
      {
        ghost var rest, fp := ctx[..|ctx|-1], ctx[|ctx|-1];
        assert ctx == rest + [fp];
        x, done, ctx, t, h := DeleteStep(x, r0, rest, fp, t, h);
        if !done { TopRed(ctx, t); }
      }
      if done {
        x.red := false;
      } else {
        DeleteFinish(x, r0, ctx, t, h);
      }
    }

    lemma AnchorTop(ctx: seq<Frame<RNode<D>>>, t: Tree<RNode<D>>)
      requires Linked() && tree == Plug(ctx, t) && FromHeader(ctx, root)
      ensures Anchored(ctx, t, nil, root.left)
    {
      LinksTop();
      HeaderTop(ctx, root, t);
      TopPlug(ctx[1..], t, nil);
    }

    lemma TopRed(ctx: seq<Frame<RNode<D>>>, t: Tree<RNode<D>>)
      requires Linked() && tree == Plug(ctx, t) && FromHeader(ctx, root)
      ensures Top(t, nil).red == Red(t)
    {
      if t.Node? { LinksAt(ctx, t); }
    }

    /** A black node where the loop stops is the root of the whole tree. */
    lemma AtRoot(ctx: seq<Frame<RNode<D>>>, t: Tree<RNode<D>>)
      requires Linked() && tree == Plug(ctx, t) && FromHeader(ctx, root) && !Red(t)
      requires Anchored(ctx, t, nil, Top(t, nil))
      ensures |ctx| == 1
    {
      if |ctx| > 1 {
        EntryInside(ctx, 1);
        PlugNodes(ctx, t);
        PlugSep(ctx, t);
      }
    }

    method DeleteFinish(x: RNode<D>, ghost r0: RNode<D>, ghost ctx: seq<Frame<RNode<D>>>, ghost t: Tree<RNode<D>>,
                        ghost h: int)
      requires Linked() && tree == Plug(ctx, t) && Deleting(ctx, root, t, h) && x == Top(t, nil)
      requires Anchored(ctx, t, nil, r0) && (Red(t) || x == r0)
      modifies `tree, Nodes(tree), nil`red
      ensures Linked() && Balanced(User(tree)) && Nodes(tree) == old(Nodes(tree)) && InOrder(tree) == old(InOrder(tree))
    {
      if !Red(t) { AtRoot(ctx, t); }
      FinishBalanced(ctx, root, t, h);
      NilTop(ctx, t);
      hide Plug, Nodes, InOrder, Rb, CtxRb, BlackHeight, Balanced, User, Sep, HoldsAt;
      if x == nil {
        x.red := false;
      } else {
        InTree(ctx, t);
        Paint(x, false, ctx, t);
      }
    }

    /** Takes a node with at most one child out of the tree; its child, or nil, gets its parent. */
    method Splice(y: RNode<D>, x: RNode<D>, ghost ctx: seq<Frame<RNode<D>>>, ghost t: Tree<RNode<D>>)
      requires Linked() && tree == Plug(ctx, t) && FromHeader(ctx, root) && t.Node? && t.n == y
      requires (t.l.Nil? || t.r.Nil?)
      requires x == Top(Only(t), nil)
      modifies `tree, Nodes(tree) - {y}, nil`parent
      ensures Linked() && tree == Plug(ctx, Only(t)) && Nodes(tree) == old(Nodes(tree)) - {y}
      ensures x.parent == Up(ctx, nil)
    {
      HeaderTop(ctx, root, Only(t));
      hide Sep, Plug, Nodes, HoldsAt, Only;
      Splicing(y, x, nil, ctx, t);
      tree := Plug(ctx, Only(t));
    }

    /** Puts `y` in the place of `z`. */
    method TakePlace(y: RNode<D>, z: RNode<D>, ghost ctx: seq<Frame<RNode<D>>>, ghost t: Tree<RNode<D>>)
      requires Linked() && tree == Plug(ctx, t) && FromHeader(ctx, root) && t.Node? && t.n == z && y !in Nodes(tree)
      requires y != nil
      modifies `tree, Nodes(tree), y, nil`parent
      ensures Linked() && tree == Plug(ctx, t.(n := y)) && Nodes(tree) == old(Nodes(tree)) - {z} + {y}
    {
      HeaderTop(ctx, root, t.(n := y));
      hide Sep, Plug, Nodes, HoldsAt;
      Replacing(y, z, nil, ctx, t);
      tree := Plug(ctx, t.(n := y));
    }

    // ----- walking in order -----

    /** The `i`-th node of the order, or nil past its ends. */
    ghost function Nth(i: int): RNode<D>
      reads this
    {
      if 0 <= i < |Order()| then Order()[i] else nil
    }

    /** The minimum of a non-empty subtree. */
    method Minimum(y0: RNode<D>, ghost ctx0: seq<Frame<RNode<D>>>, ghost t0: Tree<RNode<D>>)
      returns (y: RNode<D>, ghost ctx: seq<Frame<RNode<D>>>, ghost t: Tree<RNode<D>>)
      requires Linked() && tree == Plug(ctx0, t0) && FromHeader(ctx0, root) && t0.Node? && t0.n == y0
      ensures tree == Plug(ctx, t) && FromHeader(ctx, root) && t.Node? && t.n == y && t.l.Nil? && Pre(ctx) == Pre(ctx0)
    {
      hide Plug, Nodes, InOrder, HoldsAt, Pre, Post, Sep;
      y, ctx, t := y0, ctx0, t0;
      LinksAt(ctx, t);
      NilKids(ctx, t);
      while y.left != nil
        invariant Linked() && tree == Plug(ctx, t) && FromHeader(ctx, root) && t.Node? && t.n == y
        invariant Pre(ctx) == Pre(ctx0)
        invariant y.left == Top(t.l, nil) && (y.left == nil <==> t.l.Nil?)
        decreases t
      {
        PushOrder(ctx, root, Passed(t, true), t.l);
        Sides(t, true);
        ctx, t := ctx + [Passed(t, true)], t.l;
        y := y.left;
        LinksAt(ctx, t);
        NilKids(ctx, t);
      }
    }

    lemma NilKids(ctx: seq<Frame<RNode<D>>>, t: Tree<RNode<D>>)
      requires Linked() && tree == Plug(ctx, t) && t.Node?
      ensures (Top(t.l, nil) == nil <==> t.l.Nil?) && (Top(t.r, nil) == nil <==> t.r.Nil?)
    {
      PlugNodes(ctx, t);
    }

    /** TreeSuccessor. */
    method Successor(x0: RNode<D>, ghost i: nat)
      returns (y: RNode<D>, ghost ctx: seq<Frame<RNode<D>>>, ghost t: Tree<RNode<D>>)
      requires Linked() && x0 == Nth(i) && i < |Order()|
      ensures y == Nth(i + 1)
      ensures x0.right != nil ==>
                i + 1 < |Order()| && tree == Plug(ctx, t) && FromHeader(ctx, root) &&
                t.Node? && t.n == y && t.l.Nil? && Index(ctx, t) == i + 1
    {
      ctx, t := LocateUser(tree, root, i);
      LinksAt(ctx, t);
      NilKids(ctx, t);
      IndexAt(ctx, root, t);
      y := x0.right;
      if nil != y {
        PushOrder(ctx, root, Passed(t, false), t.r);
        Sides(t, false);
        ghost var sub, s := ctx + [Passed(t, false)], t.r;
        y, ctx, t := Minimum(y, sub, s);
        IndexAt(ctx, root, t);
      } else {
        y := Climb(x0, i, ctx, t);
      }
    }

    /** From a node without right child: up to the first ancestor on whose left it is. */
    method Climb(x0: RNode<D>, ghost i: nat, ghost ctx0: seq<Frame<RNode<D>>>, ghost t0: Tree<RNode<D>>)
      returns (y: RNode<D>)
      requires Linked() && tree == Plug(ctx0, t0) && FromHeader(ctx0, root) && t0.Node? && t0.n == x0 && t0.r.Nil?
      requires Index(ctx0, t0) == i
      ensures y == Nth(i + 1)
    {
      ghost var ctx, t := ctx0, t0;
      LinksAt(ctx, t);
      RightOf(ctx, t);
      var x := x0;
      y := x.parent;
      while x == y.right
        invariant Linked() && tree == Plug(ctx, t) && FromHeader(ctx, root) && t.Node? && t.n == x && y == Up(ctx, nil)
        invariant x == y.right <==> !ctx[|ctx|-1].left
        invariant |Pre(ctx)| + |InOrder(t)| == i + 1
        decreases |ctx|
      {
        PopOrder(ctx, root, t);
        ctx, t := ctx[..|ctx|-1], Join(ctx[|ctx|-1], t);
        x := y;
        y := y.parent;
        LinksAt(ctx, t);
        RightOf(ctx, t);
      }
      AboveLeft(ctx, t);
      if y == root { return nil; }
    }

    lemma RightOf(ctx: seq<Frame<RNode<D>>>, t: Tree<RNode<D>>)
      requires Linked() && tree == Plug(ctx, t) && FromHeader(ctx, root) && t.Node?
      ensures var p := Up(ctx, nil);
              && (p.right == t.n <==> !ctx[|ctx|-1].left) && (p.left == t.n <==> ctx[|ctx|-1].left)
              && (p == root <==> |ctx| == 1)
    {
      Around(ctx, t, nil);
      PlugSep(ctx, t);
      PlugNodes(ctx, t);
      PlugAt(ctx, t, Up(ctx, nil), nil);
      if |ctx| > 1 {
        var rest := ctx[..|ctx|-1];
        EntryInside(rest, 0);
      }
    }

    /** What comes right after a subtree that is on the left of the node above it. */
    lemma AboveLeft(ctx: seq<Frame<RNode<D>>>, t: Tree<RNode<D>>)
      requires Linked() && tree == Plug(ctx, t) && FromHeader(ctx, root) && t.Node? && ctx[|ctx|-1].left
      ensures (if |ctx| == 1 then nil else Up(ctx, nil)) == Nth(|Pre(ctx)| + |InOrder(t)|)
      ensures Up(ctx, nil) == root <==> |ctx| == 1
    {
      RightOf(ctx, t);
      UserOrder(ctx, root, t);
      if |ctx| > 1 { PopOrder(ctx, root, t); }
    }

    /** The first half of RBDelete: `y`, which has at most one child, leaves the tree, and the tree is repaired. */
    method Excise(y: RNode<D>, ghost ctx: seq<Frame<RNode<D>>>, ghost t: Tree<RNode<D>>)
      requires Linked() && Balanced(User(tree)) && tree == Plug(ctx, t) && FromHeader(ctx, root) && t.Node? && t.n == y
      requires (t.l.Nil? || t.r.Nil?)
      modifies `tree, Nodes(tree) - {y}, nil
      ensures Linked() && Balanced(User(tree)) && Nodes(tree) == old(Nodes(tree)) - {y}
      ensures Index(ctx, t) < |old(Order())| && Order() == Dropped(old(Order()), Index(ctx, t))
    {
      LinksAt(ctx, t);
      NilKids(ctx, t);
      SplicedOrder(ctx, root, t);
      SplicedRb(ctx, root, t);
      var x := if y.left == nil then y.right else y.left;
      hide Plug, Nodes, InOrder, HoldsAt, Balanced, Dropped, Sep, Index, Deleting;
      Splice(y, x, ctx, t);
      HeaderLast();
      if !y.red {
        DeleteFixUp(x, ctx, Only(t), BlackHeight(t) - 1);
        HeaderLast();
      }
    }

    /** RBDelete, of the `i`-th node. All other nodes keep their identity, key and info. */
    method Delete(z: RNode<D>, ghost i: nat)
      requires Valid() && z == Nth(i) && i < |Order()|
      modifies `tree, Nodes(tree), nil
      ensures Valid() && i < |old(Order())| && Order() == Dropped(old(Order()), i)
      ensures Nodes(tree) == old(Nodes(tree)) - {z}
    {
      ghost var ctx, t := LocateUser(tree, root, i);
      LinksAt(ctx, t);
      NilKids(ctx, t);
      DroppedSorted(Order(), i);
      hide Plug, Nodes, InOrder, Linked, Balanced, Dropped, Index, Sorted, Order, User;
      if z.left == nil || z.right == nil {
        Excise(z, ctx, t);
      } else {
        DeleteInner(z, i);
      }
    }

    method DeleteInner(z: RNode<D>, ghost i: nat)
      requires Linked() && Balanced(User(tree)) && z == Nth(i) && i < |Order()| && z.right != nil
      modifies `tree, Nodes(tree), nil
      ensures Linked() && Balanced(User(tree)) && Order() == Dropped(old(Order()), i)
      ensures Nodes(tree) == old(Nodes(tree)) - {z}
    {
      ghost var order := Order();
      NodesAllocated(tree);
      InOrderTree(i);
      hide Plug, Nodes, InOrder, Balanced, Dropped, Sep, HoldsAt;
      var y; ghost var ctx, t;
      y, ctx, t := Successor(z, i);
      LinksAt(ctx, t);
      Excise(y, ctx, t);
      DeleteMove(y, z, i, order);
    }

    lemma InOrderTree(i: nat)
      requires Linked() && i < |Order()|
      ensures Order()[i] in Nodes(tree)
      ensures i + 1 < |Order()| ==> Order()[i] != Order()[i + 1]
    {
      SepNoDup(User(tree));
      NodesInOrder(User(tree), Order()[i]);
    }

    /** The second half of RBDelete, when `z` had two children: its successor takes its place. */
    method DeleteMove(y: RNode<D>, z: RNode<D>, ghost i: nat, ghost order: seq<RNode<D>>)
      requires Linked() && Balanced(User(tree)) && y !in Nodes(tree) && y != nil
      requires i + 1 < |order| && order[i] == z && order[i + 1] == y && Order() == Dropped(order, i + 1)
      modifies `tree, Nodes(tree), y, nil
      ensures Linked() && Balanced(User(tree)) && Order() == Dropped(order, i)
      ensures Nodes(tree) == old(Nodes(tree)) - {z} + {y}
    {
      assert Order()[i] == z;
      ghost var ctx, t := LocateUser(tree, root, i);
      RenamedOrder(ctx, root, t, y, order);
      RenamedBalanced(ctx, root, t, y);
      hide Plug, Nodes, InOrder, HoldsAt, Balanced, Dropped, Index, Sep;
      TakePlace(y, z, ctx, t);
    }

    lemma InTree(ctx: seq<Frame<RNode<D>>>, t: Tree<RNode<D>>)
      requires tree == Plug(ctx, t) && t.Node?
      ensures t.n in Nodes(tree)
    {
      PlugNodes(ctx, t);
    }
  }

  lemma PlugTwo<N>(ctx: seq<Frame<N>>, f: Frame<N>, g: Frame<N>, t: Tree<N>)
    ensures Plug(ctx + [f, g], t) == Plug(ctx + [f], Join(g, t)) == Plug(ctx, Join(f, Join(g, t)))
  {
    assert ctx + [f, g] == (ctx + [f]) + [g];
    Push(ctx + [f], g, t);
    Push(ctx, f, Join(g, t));
  }

  lemma RenamedBalanced<N>(ctx: seq<Frame<N>>, root: N, t: Tree<N>, y: N)
    requires FromHeader(ctx, root) && t.Node? && Balanced(User(Plug(ctx, t)))
    ensures Balanced(User(Plug(ctx, t.(n := y))))
  {
    HeaderTop(ctx, root, t);
    HeaderTop(ctx, root, t.(n := y));
    SplitRb(ctx, root, t);
    PlugRb(ctx, root, t.(n := y), BlackHeight(t));
    if |ctx| == 1 {
      UserAll(ctx, root, t);
      UserAll(ctx, root, t.(n := y));
    }
  }

  lemma PlugSame<N>(ctx: seq<Frame<N>>, t: Tree<N>, t': Tree<N>)
    requires InOrder(t') == InOrder(t)
    ensures InOrder(Plug(ctx, t')) == InOrder(Plug(ctx, t))
  {
    PlugInOrder(ctx, t);
    PlugInOrder(ctx, t');
  }
}
