/** Red-black balance, for the tree of oss/rbtree/red_black_tree.c, and the cases of its two repair loops on
    positions in a tree. `s` is the side a path takes: the code for the left side and its mirror image are one
    case here. */
module ClrsModel {
  import opened Zipper
  import opened ClrsLinks

  /** No two reds in a row, and `h` black nodes on every way down. */
  ghost predicate Rb<N>(t: Tree<N>, h: int) {
    match t
    case Nil => h == 0
    case Node(_, red, l, r) =>
      var h' := if red then h else h - 1;
      (red ==> !Red(l) && !Red(r)) && Rb(l, h') && Rb(r, h')
  }

  ghost function BlackHeight<N>(t: Tree<N>): nat {
    if t.Nil? then 0 else BlackHeight(t.l) + if t.red then 0 else 1
  }

  ghost predicate Balanced<N>(t: Tree<N>) {
    !Red(t) && Rb(t, BlackHeight(t))
  }

  ghost predicate LastRed<N>(ctx: seq<Frame<N>>) {
    ctx != [] && ctx[|ctx|-1].red
  }

  /** What is beside a path fits a subtree of black height `h` at its end; the header is not part of it. */
  ghost predicate CtxRb<N>(ctx: seq<Frame<N>>, h: int) {
    |ctx| <= 1 ||
    var f, rest := ctx[|ctx|-1], ctx[..|ctx|-1];
    && Rb(f.sib, h) && (f.red ==> !Red(f.sib) && !LastRed(rest))
    && CtxRb(rest, if f.red then h else h + 1)
  }

  lemma {:induction false} RbHeight<N>(t: Tree<N>, h: int)
    requires Rb(t, h)
    ensures h == BlackHeight(t)
  {
    if t.Node? {
      RbHeight(t.l, if t.red then h else h - 1);
    }
  }

  /** The user's tree below the header. */
  ghost function User<N>(tree: Tree<N>): Tree<N> {
    if tree.Node? then tree.l else Nil
  }

  /** A subtree that fits its path makes a red-black tree, whose root is red only if the subtree is all of it. */
  lemma {:induction false} PlugRb<N>(ctx: seq<Frame<N>>, root: N, t: Tree<N>, h: int)
    requires FromHeader(ctx, root) && CtxRb(ctx, h) && Rb(t, h) && (Red(t) ==> !LastRed(ctx))
    requires |ctx| > 1 ==> !ctx[1].red
    ensures Rb(User(Plug(ctx, t)), BlackHeight(User(Plug(ctx, t)))) && (Red(User(Plug(ctx, t))) ==> |ctx| == 1)
    decreases |ctx|
  {
    HeaderTop(ctx, root, t);
    if |ctx| == 1 {
      RbHeight(t, h);
    } else {
      var f, rest := ctx[|ctx|-1], ctx[..|ctx|-1];
      PlugRb(rest, root, Join(f, t), if f.red then h else h + 1);
      if |ctx| == 2 {
        assert Plug(ctx[1..], t) == Plug(ctx[1..][..0], Join(f, t)) == Join(f, t);
      }
    }
  }

  /** Conversely, every position in a balanced tree fits. */
  lemma {:induction false} SplitRb<N>(ctx: seq<Frame<N>>, root: N, t: Tree<N>)
    requires FromHeader(ctx, root) && Balanced(User(Plug(ctx, t)))
    ensures Rb(t, BlackHeight(t)) && CtxRb(ctx, BlackHeight(t)) && (Red(t) ==> !LastRed(ctx))
    ensures |ctx| > 1 ==> !ctx[1].red
    decreases |ctx|
  {
    HeaderTop(ctx, root, t);
    if |ctx| > 1 {
      var f, rest := ctx[|ctx|-1], ctx[..|ctx|-1];
      SplitRb(rest, root, Join(f, t));
      var h := BlackHeight(Join(f, t));
      RbHeight(t, if f.red then h else h - 1);
      if |ctx| == 2 {
        assert Plug(ctx[1..], t) == Plug(ctx[1..][..0], Join(f, t)) == Join(f, t);
      }
    }
  }

  lemma CtxRbPush<N>(ctx: seq<Frame<N>>, f: Frame<N>, h: int)
    requires ctx != []
    ensures CtxRb(ctx + [f], h) <==>
            Rb(f.sib, h) && (f.red ==> !Red(f.sib) && !LastRed(ctx)) && CtxRb(ctx, if f.red then h else h + 1)
  {
    assert (ctx + [f])[..|ctx|] == ctx;
  }

  // ----- sides -----

  ghost function Near<N>(s: bool, t: Tree<N>): Tree<N>
    requires t.Node?
  {
    if s then t.l else t.r
  }

  ghost function Turn<N>(s: bool, t: Tree<N>): Tree<N>
    requires t.Node? && Near(!s, t).Node?
  {
    if s then RotateLeft(t) else RotateRight(t)
  }

  /** A subtree seen from its other child. */
  ghost function Flip<N>(f: Frame<N>, t: Tree<N>): Frame<N> {
    Frame(f.n, f.red, !f.left, t)
  }

  lemma FlipJoin<N>(f: Frame<N>, t: Tree<N>)
    ensures Join(Flip(f, t), f.sib) == Join(f, t)
  {
  }

  lemma Sides<N>(t: Tree<N>, s: bool)
    requires t.Node?
    ensures t == Join(Frame(t.n, t.red, s, Near(!s, t)), Near(s, t))
  {
  }

  // ----- the cases of insertion -----

  /** Where the loop of RBTreeInsert stands: `t` is red and everything is in order, except that the node above
      it may be red as well. */
  ghost predicate Inserting<N>(ctx: seq<Frame<N>>, root: N, t: Tree<N>, h: int) {
    && FromHeader(ctx, root) && t.Node? && t.red
    && CtxRb(ctx, h) && Rb(t, h) && (|ctx| > 1 ==> !ctx[1].red)
  }

  /** A red node above has a black one above it. */
  lemma RedAbove<N>(ctx: seq<Frame<N>>, root: N, t: Tree<N>, h: int)
    requires Inserting(ctx, root, t, h) && LastRed(ctx)
    ensures |ctx| >= 3 && !ctx[|ctx|-2].red
    ensures var fp, fg, rest := ctx[|ctx|-1], ctx[|ctx|-2], ctx[..|ctx|-2];
            && FromHeader(rest, root) && ctx == rest + [fg, fp] && ctx[..|ctx|-1] == rest + [fg]
            && Rb(fp.sib, h) && !Red(fp.sib) && Rb(fg.sib, h) && CtxRb(rest, h + 1) && (|rest| > 1 ==> !rest[1].red)
  {
    assert |ctx| >= 3;
    var fp, fg, rest := ctx[|ctx|-1], ctx[|ctx|-2], ctx[..|ctx|-2];
    assert ctx == (rest + [fg]) + [fp] == rest + [fg, fp];
    CtxRbPush(rest + [fg], fp, h);
    CtxRbPush(rest, fg, h);
  }

  /** Red uncle: push the black of the grandparent down. */
  ghost function Pushed<N>(fg: Frame<N>, fp: Frame<N>, t: Tree<N>): Tree<N>
    requires fg.sib.Node?
  {
    Join(Frame(fg.n, true, fg.left, fg.sib.(red := false)), Join(fp.(red := false), t))
  }

  lemma PushedInserting<N>(rest: seq<Frame<N>>, root: N, fg: Frame<N>, fp: Frame<N>, t: Tree<N>, h: int)
    requires FromHeader(rest, root) && t.Node? && t.red && Rb(t, h) && CtxRb(rest, h + 1)
    requires (|rest| > 1 ==> !rest[1].red)
    requires Rb(fp.sib, h) && Rb(fg.sib, h) && Red(fg.sib)
    ensures Inserting(rest, root, Pushed(fg, fp, t), h + 1)
  {
  }

  /** Black uncle, inner child: one rotation makes it an outer child. */
  ghost function OuterFrame<N>(fp: Frame<N>, t: Tree<N>): Frame<N>
    requires t.Node?
  {
    Frame(t.n, t.red, !fp.left, Near(fp.left, t))
  }

  ghost function OuterTree<N>(fp: Frame<N>, t: Tree<N>): Tree<N>
    requires t.Node?
  {
    Join(Frame(fp.n, fp.red, !fp.left, Near(!fp.left, t)), fp.sib)
  }

  lemma TurnOuter<N>(fp: Frame<N>, t: Tree<N>)
    requires t.Node?
    ensures Turn(!fp.left, Join(fp, t)) == Join(OuterFrame(fp, t), OuterTree(fp, t))
  {
  }

  lemma OuterRb<N>(fp: Frame<N>, t: Tree<N>, h: int)
    requires t.Node? && t.red && fp.red && Rb(t, h) && Rb(fp.sib, h) && !Red(fp.sib)
    ensures var f', t' := OuterFrame(fp, t), OuterTree(fp, t);
            f'.red && Rb(f'.sib, h) && !Red(f'.sib) && t'.Node? && t'.red && Rb(t', h)
  {
  }

  /** Black uncle, outer child: the parent takes the grandparent's place. */
  ghost function Settled<N>(fg: Frame<N>, fp: Frame<N>): Frame<N> {
    Frame(fp.n, false, fg.left, Join(Frame(fg.n, true, fg.left, fg.sib), fp.sib))
  }

  lemma TurnSettled<N>(fg: Frame<N>, fp: Frame<N>, t: Tree<N>)
    requires fp.left == fg.left
    ensures Turn(!fg.left, Join(Frame(fg.n, true, fg.left, fg.sib), Join(fp.(red := false), t))) ==
            Join(Settled(fg, fp), t)
  {
  }

  lemma SettledInserting<N>(rest: seq<Frame<N>>, root: N, fg: Frame<N>, fp: Frame<N>, t: Tree<N>, h: int)
    requires FromHeader(rest, root) && t.Node? && t.red && Rb(t, h) && CtxRb(rest, h + 1)
    requires (|rest| > 1 ==> !rest[1].red)
    requires Rb(fp.sib, h) && !Red(fp.sib) && Rb(fg.sib, h) && !Red(fg.sib)
    ensures Inserting(rest + [Settled(fg, fp)], root, t, h) && !LastRed(rest + [Settled(fg, fp)])
  {
    CtxRbPush(rest, Settled(fg, fp), h);
  }

  // ----- the cases of deletion -----

  /** Red-black below the top, whose own colour may clash. */
  ghost predicate Lax<N>(t: Tree<N>, h: int) {
    if Red(t) then Rb(t.l, h) && Rb(t.r, h) else Rb(t, h)
  }

  /** Where the loop of RBDeleteFixUp stands: `t` is one black node short. */
  ghost predicate Deleting<N>(ctx: seq<Frame<N>>, root: N, t: Tree<N>, h: int) {
    FromHeader(ctx, root) && CtxRb(ctx, h + 1) && Lax(t, h) && (|ctx| > 1 ==> !ctx[1].red)
  }

  /** A black subtree that is one short has a sibling to take from. */
  lemma Sibling<N>(rest: seq<Frame<N>>, root: N, fp: Frame<N>, t: Tree<N>, h: int)
    requires Deleting(rest + [fp], root, t, h) && rest != [] && !Red(t)
    ensures FromHeader(rest, root) && fp.sib.Node? && Rb(fp.sib, h + 1) && Rb(t, h)
    ensures fp.red ==> !Red(fp.sib) && !LastRed(rest)
    ensures CtxRb(rest, if fp.red then h + 1 else h + 2) && (|rest| > 1 ==> !rest[1].red)
  {
    CtxRbPush(rest, fp, h + 1);
    RbHeight(t, h);
  }

  /** Red sibling: it takes the parent's place, and the parent becomes red. */
  ghost function LiftedFrame<N>(fp: Frame<N>): Frame<N>
    requires fp.sib.Node?
  {
    Frame(fp.sib.n, false, fp.left, Near(!fp.left, fp.sib))
  }

  ghost function LoweredFrame<N>(fp: Frame<N>): Frame<N>
    requires fp.sib.Node?
  {
    Frame(fp.n, true, fp.left, Near(fp.left, fp.sib))
  }

  lemma TurnLifted<N>(fp: Frame<N>, t: Tree<N>)
    requires fp.sib.Node?
    ensures Turn(fp.left, Join(Frame(fp.n, true, fp.left, fp.sib.(red := false)), t)) ==
            Join(LiftedFrame(fp), Join(LoweredFrame(fp), t))
  {
  }

  lemma LiftedDeleting<N>(rest: seq<Frame<N>>, root: N, fp: Frame<N>, t: Tree<N>, h: int)
    requires Deleting(rest + [fp], root, t, h) && rest != [] && !Red(t) && Red(fp.sib)
    ensures Deleting(rest + [LiftedFrame(fp), LoweredFrame(fp)], root, t, h)
    ensures !Red(LoweredFrame(fp).sib)
  {
    Sibling(rest, root, fp, t, h);
    CtxRbPush(rest, LiftedFrame(fp), h + 1);
    CtxRbPush(rest + [LiftedFrame(fp)], LoweredFrame(fp), h + 1);
    assert rest + [LiftedFrame(fp), LoweredFrame(fp)] == (rest + [LiftedFrame(fp)]) + [LoweredFrame(fp)];
  }

  /** Black sibling with black children: it becomes red, and the parent is one short. */
  ghost function Faded<N>(fp: Frame<N>, t: Tree<N>): Tree<N>
    requires fp.sib.Node?
  {
    Join(fp.(sib := fp.sib.(red := true)), t)
  }

  lemma FadedDeleting<N>(rest: seq<Frame<N>>, root: N, fp: Frame<N>, t: Tree<N>, h: int)
    requires Deleting(rest + [fp], root, t, h) && rest != [] && !Red(t) && fp.sib.Node? && !fp.sib.red && !Red(fp.sib.l)
    requires !Red(fp.sib.r)
    ensures Deleting(rest, root, Faded(fp, t), if fp.red then h else h + 1)
  {
    Sibling(rest, root, fp, t, h);
  }

  /** Black sibling whose only red child is the near one: rotate that one outwards. */
  ghost function Outward<N>(fp: Frame<N>): Frame<N>
    requires fp.sib.Node? && Near(fp.left, fp.sib).Node?
  {
    var w, v := fp.sib, Near(fp.left, fp.sib);
    var s := fp.left;
    fp.(sib := Join(Frame(v.n, false, s, Join(Frame(w.n, true, s, Near(!s, w)), Near(!s, v))), Near(s, v)))
  }

  lemma TurnOutward<N>(fp: Frame<N>)
    requires fp.sib.Node? && Near(fp.left, fp.sib).Node?
    ensures var w, s := fp.sib, fp.left;
            Turn(!s, Join(Frame(w.n, true, s, Near(!s, w)), Near(s, w).(red := false))) == Outward(fp).sib
  {
  }

  lemma OutwardDeleting<N>(rest: seq<Frame<N>>, root: N, fp: Frame<N>, t: Tree<N>, h: int)
    requires Deleting(rest + [fp], root, t, h) && rest != [] && !Red(t)
    requires fp.sib.Node? && !fp.sib.red && Red(Near(fp.left, fp.sib)) && !Red(Near(!fp.left, fp.sib))
    ensures Deleting(rest + [Outward(fp)], root, t, h) && !Outward(fp).sib.red && Red(Near(!fp.left, Outward(fp).sib))
  {
    Sibling(rest, root, fp, t, h);
    CtxRbPush(rest, Outward(fp), h + 1);
    OutwardRb(fp, h + 1);
    assert (rest + [Outward(fp)])[1].red == (rest + [fp])[1].red;
    hide Rb, CtxRb, Outward;
  }

  lemma OutwardRb<N>(fp: Frame<N>, h: int)
    requires fp.sib.Node? && Rb(fp.sib, h) && !fp.sib.red && Red(Near(fp.left, fp.sib)) && !Red(Near(!fp.left, fp.sib))
    ensures Rb(Outward(fp).sib, h) && !Outward(fp).sib.red && Red(Near(!fp.left, Outward(fp).sib))
  {
  }

  /** Black sibling with a red far child: one rotation makes up for the missing black. */
  ghost function Restored<N>(fp: Frame<N>, t: Tree<N>): Tree<N>
    requires fp.sib.Node? && Near(!fp.left, fp.sib).Node?
  {
    var w, s := fp.sib, fp.left;
    Join(Frame(w.n, fp.red, s, Near(!s, w).(red := false)), Join(Frame(fp.n, false, s, Near(s, w)), t))
  }

  lemma TurnRestored<N>(fp: Frame<N>, t: Tree<N>)
    requires fp.sib.Node? && Near(!fp.left, fp.sib).Node?
    ensures var w, s := fp.sib, fp.left;
            Turn(s, Join(Frame(fp.n, false, s, Join(Frame(w.n, fp.red, s, Near(!s, w).(red := false)), Near(s, w))),
                t)) == Restored(fp, t)
  {
  }

  lemma RestoredRb<N>(fp: Frame<N>, t: Tree<N>, h: int)
    requires fp.sib.Node? && Rb(fp.sib, h + 1) && Rb(t, h) && !Red(t) && !fp.sib.red && Red(Near(!fp.left, fp.sib))
    ensures Rb(Restored(fp, t), if fp.red then h + 1 else h + 2) && Red(Restored(fp, t)) == fp.red
  {
  }

  lemma RestoredBalanced<N>(rest: seq<Frame<N>>, root: N, fp: Frame<N>, t: Tree<N>, h: int)
    requires Deleting(rest + [fp], root, t, h) && rest != [] && !Red(t) && fp.sib.Node? && !fp.sib.red
    requires Red(Near(!fp.left, fp.sib))
    ensures Balanced(User(Plug(rest, Restored(fp, t))))
  {
    Sibling(rest, root, fp, t, h);
    RestoredRb(fp, t, h);
    assert |rest| == 1 ==> (rest + [fp])[1] == fp;
    var r := Restored(fp, t);
    hide Rb, CtxRb, Restored;
    PlugRb(rest, root, r, if fp.red then h + 1 else h + 2);
    if |rest| == 1 {
      HeaderTop(rest, root, r);
      assert Plug(rest[1..], r) == r;
    }
  }

  /** The loop ends at a red node, which becomes black, or at the root. */
  lemma FinishBalanced<N>(ctx: seq<Frame<N>>, root: N, t: Tree<N>, h: int)
    requires Deleting(ctx, root, t, h) && (Red(t) || |ctx| == 1)
    ensures t.Node? ==> Balanced(User(Plug(ctx, t.(red := false))))
    ensures t.Nil? ==> Balanced(User(Plug(ctx, t)))
  {
    if t.Nil? {
      PlugRb(ctx, root, t, h);
    } else if t.red {
      PlugRb(ctx, root, t.(red := false), h + 1);
      if |ctx| == 1 { UserAll(ctx, root, t.(red := false)); }
    } else {
      PlugRb(ctx, root, t, h);
      UserAll(ctx, root, t);
      assert t.(red := false) == t;
    }
  }

  lemma UserAll<N>(ctx: seq<Frame<N>>, root: N, t: Tree<N>)
    requires FromHeader(ctx, root) && |ctx| == 1
    ensures User(Plug(ctx, t)) == t
  {
    HeaderTop(ctx, root, t);
    assert Plug(ctx[1..], t) == t;
  }

  /** The node that was the root when the loop began: it is still the first on the path, or the loop is at it. */
  ghost predicate Anchored<N>(ctx: seq<Frame<N>>, t: Tree<N>, nil: N, r0: N) {
    if |ctx| <= 1 then Top(t, nil) == r0 else ctx[1].n == r0 || (Red(t) && t.n == r0)
  }
}
