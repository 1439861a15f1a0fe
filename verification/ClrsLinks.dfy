/** Trees in a heap of nodes with child links, parent links and colours, as in oss/rbtree/red_black_tree.c. The
    header node `root` is the top of the whole tree: the user's tree hangs off its left side. */
module ClrsLinks {
  import opened Zipper

  datatype Links<N> = Links(red: bool, left: N, right: N, parent: N)

  /** The fields node `n` of `t` must have when `up` is above `t`. */
  ghost function At<N>(t: Tree<N>, n: N, up: N, nil: N): Links<N>
    requires n in Nodes(t)
  {
    if n == t.n then Links(t.red, Top(t.l, nil), Top(t.r, nil), up)
    else if n in Nodes(t.l) then At(t.l, n, t.n, nil)
    else At(t.r, n, t.n, nil)
  }

  /** The node above the end of the path. */
  ghost function Up<N>(ctx: seq<Frame<N>>, nil: N): N {
    if ctx == [] then nil else ctx[|ctx|-1].n
  }

  /** The fields node `n` on or beside the path must have when `child` is linked at its end. */
  ghost function CtxAt<N>(ctx: seq<Frame<N>>, child: N, n: N, nil: N): Links<N>
    requires n in CtxNodes(ctx)
  {
    var f := ctx[|ctx|-1];
    var rest := ctx[..|ctx|-1];
    if n == f.n then
      if f.left then Links(f.red, child, Top(f.sib, nil), Up(rest, nil)) else Links(f.red, Top(f.sib, nil), child,
          Up(rest, nil))
    else if n in Nodes(f.sib) then At(f.sib, n, f.n, nil)
    else CtxAt(rest, f.n, n, nil)
  }

  lemma {:induction false} PlugAt<N>(ctx: seq<Frame<N>>, t: Tree<N>, n: N, nil: N)
    requires Sep(Plug(ctx, t)) && n in Nodes(Plug(ctx, t))
    ensures n in CtxNodes(ctx) || n in Nodes(t)
    ensures n in CtxNodes(ctx) ==> n !in Nodes(t) && At(Plug(ctx, t), n, nil, nil) == CtxAt(ctx, Top(t, nil), n, nil)
    ensures n in Nodes(t) ==> At(Plug(ctx, t), n, nil, nil) == At(t, n, Up(ctx, nil), nil)
  {
    PlugNodes(ctx, t);
    PlugSep(ctx, t);
    if ctx != [] {
      var f := ctx[|ctx|-1];
      PlugAt(ctx[..|ctx|-1], Join(f, t), n, nil);
    }
  }

  /** Hanging a tree under another node changes the parent of its top only. */
  lemma AtUp<N>(t: Tree<N>, n: N, up: N, up': N, nil: N)
    requires n in Nodes(t)
    ensures At(t, n, up', nil) == if n == t.n then At(t, n, up, nil).(parent := up') else At(t, n, up, nil)
  {
  }

  /** Linking another child at the end of the path changes the last entry only. */
  lemma CtxAtChild<N>(ctx: seq<Frame<N>>, c1: N, c2: N, n: N, nil: N)
    requires CtxSep(ctx) && n in CtxNodes(ctx)
    ensures var f := ctx[|ctx|-1];
            CtxAt(ctx, c2, n, nil) ==
              if n != f.n then CtxAt(ctx, c1, n, nil)
              else if f.left then CtxAt(ctx, c1, n, nil).(left := c2) else CtxAt(ctx, c1, n, nil).(right := c2)
  {
  }

  // ----- rotations and colours -----

  ghost function RotateLeft<N>(t: Tree<N>): Tree<N>
    requires t.Node? && t.r.Node?
  {
    Node(t.r.n, t.r.red, Node(t.n, t.red, t.l, t.r.l), t.r.r)
  }

  ghost function RotateRight<N>(t: Tree<N>): Tree<N>
    requires t.Node? && t.l.Node?
  {
    Node(t.l.n, t.l.red, t.l.l, Node(t.n, t.red, t.l.r, t.r))
  }

  lemma RotateLeftOrder<N>(t: Tree<N>)
    requires t.Node? && t.r.Node?
    ensures InOrder(RotateLeft(t)) == InOrder(t)
  {
    Regroup(InOrder(t.l), t.n, InOrder(t.r.l), t.r.n, InOrder(t.r.r));
  }

  lemma RotateRightOrder<N>(t: Tree<N>)
    requires t.Node? && t.l.Node?
    ensures InOrder(RotateRight(t)) == InOrder(t)
  {
    Regroup(InOrder(t.l.l), t.l.n, InOrder(t.l.r), t.n, InOrder(t.r));
  }

  lemma Regroup<N>(a: seq<N>, x: N, b: seq<N>, y: N, c: seq<N>)
    ensures a + [x] + (b + [y] + c) == (a + [x] + b) + [y] + c
  {
  }

  /** The fields of a node beside a path once `child` is linked at the end of the path. */
  ghost function Relinked<N>(ctx: seq<Frame<N>>, links: Links<N>, child: N, n: N): Links<N> {
    if ctx == [] || n != ctx[|ctx|-1].n then links
    else if ctx[|ctx|-1].left then links.(left := child) else links.(right := child)
  }

  lemma RotateLeftAt<N>(t: Tree<N>, n: N, up: N, nil: N)
    requires t.Node? && t.r.Node? && Sep(t) && n in Nodes(t)
    ensures n in Nodes(RotateLeft(t))
    ensures var x, y, b := t.n, t.r.n, t.r.l;
            At(RotateLeft(t), n, up, nil) ==
              if n == x then Links(t.red, Top(t.l, nil), Top(b, nil), y)
              else if n == y then Links(t.r.red, x, Top(t.r.r, nil), up)
              else if b.Node? && n == b.n then At(t, n, up, nil).(parent := x)
              else At(t, n, up, nil)
  {
    if n in Nodes(t.r.l) { AtUp(t.r.l, n, t.r.n, t.n, nil); }
  }

  lemma RotateRightAt<N>(t: Tree<N>, n: N, up: N, nil: N)
    requires t.Node? && t.l.Node? && Sep(t) && n in Nodes(t)
    ensures n in Nodes(RotateRight(t))
    ensures var y, x, b := t.n, t.l.n, t.l.r;
            At(RotateRight(t), n, up, nil) ==
              if n == y then Links(t.red, Top(b, nil), Top(t.r, nil), x)
              else if n == x then Links(t.l.red, Top(t.l.l, nil), y, up)
              else if b.Node? && n == b.n then At(t, n, up, nil).(parent := y)
              else At(t, n, up, nil)
  {
    if n in Nodes(t.l.r) { AtUp(t.l.r, n, t.l.n, t.n, nil); }
  }

  /** Replacing the subtree at the end of a path by one over the same nodes. */
  lemma ReplaceAt<N>(ctx: seq<Frame<N>>, t: Tree<N>, t': Tree<N>, n: N, nil: N)
    requires Sep(Plug(ctx, t)) && Nodes(t') == Nodes(t) && Sep(t') && n in Nodes(Plug(ctx, t))
    ensures Sep(Plug(ctx, t')) && Nodes(Plug(ctx, t')) == Nodes(Plug(ctx, t))
    ensures n in Nodes(t) ==> At(Plug(ctx, t'), n, nil, nil) == At(t', n, Up(ctx, nil), nil)
    ensures n in Nodes(t) ==> At(Plug(ctx, t), n, nil, nil) == At(t, n, Up(ctx, nil), nil)
    ensures n !in Nodes(t) ==> At(Plug(ctx, t'), n, nil, nil) == Relinked(ctx, At(Plug(ctx, t), n, nil, nil),
            Top(t', nil), n)
    ensures ctx != [] ==> Up(ctx, nil) !in Nodes(t)
  {
    PlugSep(ctx, t);
    PlugSep(ctx, t');
    PlugNodes(ctx, t);
    PlugNodes(ctx, t');
    PlugAt(ctx, t, n, nil);
    PlugAt(ctx, t', n, nil);
    if n !in Nodes(t) { CtxAtChild(ctx, Top(t, nil), Top(t', nil), n, nil); }
  }

  /** Every node's fields after a rotation, in terms of its fields before. */
  lemma LeftRotatedAt<N>(ctx: seq<Frame<N>>, t: Tree<N>, n: N, nil: N)
    requires ctx != [] && t.Node? && t.r.Node? && Sep(Plug(ctx, t)) && n in Nodes(Plug(ctx, t))
    ensures var tree', links := Plug(ctx, RotateLeft(t)), At(Plug(ctx, t), n, nil, nil);
            var x, y, b := t.n, t.r.n, t.r.l;
            && Sep(tree') && Nodes(tree') == Nodes(Plug(ctx, t))
            && At(tree', n, nil, nil) ==
                 if n == x then links.(right := Top(b, nil), parent := y)
                 else if n == y then links.(left := x, parent := Up(ctx, nil))
                 else if b.Node? && n == b.n then links.(parent := x)
                 else Relinked(ctx, links, y, n)
  {
    PlugSep(ctx, t);
    RotateLeftOrder(t);
    SameOrder(RotateLeft(t), t);
    ReplaceAt(ctx, t, RotateLeft(t), n, nil);
    if n in Nodes(t) { RotateLeftAt(t, n, Up(ctx, nil), nil); }
  }

  lemma RightRotatedAt<N>(ctx: seq<Frame<N>>, t: Tree<N>, n: N, nil: N)
    requires ctx != [] && t.Node? && t.l.Node? && Sep(Plug(ctx, t)) && n in Nodes(Plug(ctx, t))
    ensures var tree', links := Plug(ctx, RotateRight(t)), At(Plug(ctx, t), n, nil, nil);
            var y, x, b := t.n, t.l.n, t.l.r;
            && Sep(tree') && Nodes(tree') == Nodes(Plug(ctx, t))
            && At(tree', n, nil, nil) ==
                 if n == y then links.(left := Top(b, nil), parent := x)
                 else if n == x then links.(right := y, parent := Up(ctx, nil))
                 else if b.Node? && n == b.n then links.(parent := y)
                 else Relinked(ctx, links, x, n)
  {
    PlugSep(ctx, t);
    RotateRightOrder(t);
    SameOrder(RotateRight(t), t);
    ReplaceAt(ctx, t, RotateRight(t), n, nil);
    if n in Nodes(t) { RotateRightAt(t, n, Up(ctx, nil), nil); }
  }

  /** The fields of the node at the end of a path, of the node above it and of its children. */
  lemma Around<N>(ctx: seq<Frame<N>>, t: Tree<N>, nil: N)
    requires ctx != [] && t.Node? && Sep(Plug(ctx, t)) && nil !in Nodes(Plug(ctx, t))
    ensures var tree, p := Plug(ctx, t), Up(ctx, nil);
            && t.n in Nodes(tree) && p in Nodes(tree) && p !in Nodes(t)
            && At(tree, t.n, nil, nil) == Links(t.red, Top(t.l, nil), Top(t.r, nil), p)
            && (At(tree, p, nil, nil).left == t.n <==> ctx[|ctx|-1].left)
            && (!ctx[|ctx|-1].left ==> At(tree, p, nil, nil).right == t.n)
            && At(tree, p, nil, nil).red == ctx[|ctx|-1].red
            && Nodes(t) <= Nodes(tree) && nil !in Nodes(t)
            && (t.l.Node? ==>
                  t.l.n in Nodes(tree) &&
                  At(tree, t.l.n, nil, nil) == Links(t.l.red, Top(t.l.l, nil), Top(t.l.r, nil), t.n))
            && (t.r.Node? ==>
                  t.r.n in Nodes(tree) &&
                  At(tree, t.r.n, nil, nil) == Links(t.r.red, Top(t.r.l, nil), Top(t.r.r, nil), t.n))
  {
    PlugNodes(ctx, t);
    PlugSep(ctx, t);
    PlugAt(ctx, t, t.n, nil);
    PlugAt(ctx, t, Up(ctx, nil), nil);
    if t.l.Node? { PlugAt(ctx, t, t.l.n, nil); }
    if t.r.Node? { PlugAt(ctx, t, t.r.n, nil); }
  }

  /** The four nodes a rotation touches are different. */
  lemma Apart<N>(t: Tree<N>, p: N, nil: N)
    requires t.Node? && Sep(t) && nil !in Nodes(t) && p !in Nodes(t) && p != nil
    ensures t.r.Node? ==> var y, b := t.r.n, Top(t.r.l, nil);
              t.n != y && b != t.n && b != y && b != p && p != y && p != t.n && y in Nodes(t) &&
                  (b != nil ==> b in Nodes(t))
    ensures t.l.Node? ==> var x, b := t.l.n, Top(t.l.r, nil);
              t.n != x && b != t.n && b != x && b != p && p != x && p != t.n && x in Nodes(t) &&
                  (b != nil ==> b in Nodes(t))
  {
  }

  /** Paths start at the header node and go left there. */
  ghost predicate FromHeader<N>(ctx: seq<Frame<N>>, root: N) {
    ctx != [] && ctx[0] == Frame(root, false, true, Nil)
  }

  lemma HeaderTop<N>(ctx: seq<Frame<N>>, root: N, t: Tree<N>)
    requires FromHeader(ctx, root)
    ensures Plug(ctx, t) == Node(root, false, Plug(ctx[1..], t), Nil)
  {
    assert ctx == ctx[..1] + ctx[1..];
    PlugAppend(ctx[..1], ctx[1..], t);
    Push([], ctx[0], Plug(ctx[1..], t));
    assert [] + [ctx[0]] == ctx[..1];
  }

  /** Every node's fields after one node has been given another colour. */
  lemma PaintedAt<N>(ctx: seq<Frame<N>>, t: Tree<N>, red: bool, n: N, nil: N)
    requires t.Node? && Sep(Plug(ctx, t)) && n in Nodes(Plug(ctx, t))
    ensures var tree', links := Plug(ctx, t.(red := red)), At(Plug(ctx, t), n, nil, nil);
            && Sep(tree') && Nodes(tree') == Nodes(Plug(ctx, t)) && t.n in Nodes(tree')
            && At(tree', n, nil, nil) == if n == t.n then links.(red := red) else links
  {
    PlugSep(ctx, t);
    PlugNodes(ctx, t);
    ReplaceAt(ctx, t, t.(red := red), n, nil);
    if n !in Nodes(t) {
      PlugAt(ctx, t, n, nil);
    }
  }

  /** The nodes on and beside a path when another subtree is hung at its end. */
  lemma SwapAt<N>(ctx: seq<Frame<N>>, t: Tree<N>, t': Tree<N>, n: N, nil: N)
    requires Sep(Plug(ctx, t)) && Sep(Plug(ctx, t')) && n in CtxNodes(ctx)
    ensures n in Nodes(Plug(ctx, t)) && n in Nodes(Plug(ctx, t'))
    ensures At(Plug(ctx, t'), n, nil, nil) == Relinked(ctx, At(Plug(ctx, t), n, nil, nil), Top(t', nil), n)
  {
    PlugNodes(ctx, t);
    PlugNodes(ctx, t');
    PlugSep(ctx, t);
    PlugAt(ctx, t, n, nil);
    PlugAt(ctx, t', n, nil);
    CtxAtChild(ctx, Top(t, nil), Top(t', nil), n, nil);
  }

  /** Every node's fields after a new node has been linked at the end of the path. */
  lemma AttachedAt<N>(ctx: seq<Frame<N>>, z: N, red: bool, n: N, nil: N)
    requires ctx != [] && Sep(Plug(ctx, Nil)) && z !in Nodes(Plug(ctx, Nil)) && n in Nodes(Plug(ctx, Nil)) + {z}
    ensures var tree' := Plug(ctx, Node(z, red, Nil, Nil));
            && Sep(tree') && Nodes(tree') == Nodes(Plug(ctx, Nil)) + {z}
            && At(tree', n, nil, nil) ==
                 if n == z then Links(red, nil, nil, Up(ctx, nil)) else Relinked(ctx, At(Plug(ctx, Nil), n, nil, nil),
                     z, n)
  {
    var t := Node(z, red, Nil, Nil);
    PlugNodes(ctx, Nil);
    PlugNodes(ctx, t);
    PlugSep(ctx, Nil);
    PlugSep(ctx, t);
    PlugAt(ctx, t, n, nil);
    if n != z { SwapAt(ctx, Nil, t, n, nil); }
  }

  /** The child that a node with at most one child leaves behind. */
  ghost function Only<N>(t: Tree<N>): Tree<N>
    requires t.Node?
  {
    if t.l.Nil? then t.r else t.l
  }

  /** Every other node's fields after a node with at most one child has been spliced out. */
  lemma SplicedAt<N>(ctx: seq<Frame<N>>, t: Tree<N>, n: N, nil: N)
    requires ctx != [] && t.Node? && (t.l.Nil? || t.r.Nil?) && Sep(Plug(ctx, t)) && n in Nodes(Plug(ctx, t)) && n != t.n
    requires nil !in Nodes(Plug(ctx, t))
    ensures var tree', c := Plug(ctx, Only(t)), Top(Only(t), nil);
            && Sep(tree') && Nodes(tree') == Nodes(Plug(ctx, t)) - {t.n}
            && c != t.n && c != Up(ctx, nil) && Up(ctx, nil) in Nodes(tree')
            && At(tree', n, nil, nil) ==
                 if n == c then At(Plug(ctx, t), n, nil, nil).(parent := Up(ctx, nil))
                 else Relinked(ctx, At(Plug(ctx, t), n, nil, nil), c, n)
  {
    var s := Only(t);
    PlugNodes(ctx, t);
    PlugNodes(ctx, s);
    PlugSep(ctx, t);
    PlugSep(ctx, s);
    PlugAt(ctx, t, n, nil);
    PlugAt(ctx, s, n, nil);
    assert Nodes(t) == Nodes(s) + {t.n};
    if n in Nodes(s) {
      AtUp(s, n, t.n, Up(ctx, nil), nil);
    } else {
      SwapAt(ctx, t, s, n, nil);
    }
  }

  /** Every node's fields after `y`, which was not in the tree, has taken the place of a node that was. */
  lemma ReplacedAt<N>(ctx: seq<Frame<N>>, t: Tree<N>, y: N, n: N, nil: N)
    requires ctx != [] && t.Node? && Sep(Plug(ctx, t)) && nil !in Nodes(Plug(ctx, t)) && y !in Nodes(Plug(ctx, t))
    requires y != nil
    requires n in Nodes(Plug(ctx, t)) - {t.n} + {y}
    ensures var tree' := Plug(ctx, t.(n := y));
            && Sep(tree') && Nodes(tree') == Nodes(Plug(ctx, t)) - {t.n} + {y} && t.n in Nodes(Plug(ctx, t))
            && At(tree', n, nil, nil) ==
                 if n == y then At(Plug(ctx, t), t.n, nil, nil)
                 else if n == Top(t.l, nil) || n == Top(t.r, nil) then At(Plug(ctx, t), n, nil, nil).(parent := y)
                 else Relinked(ctx, At(Plug(ctx, t), n, nil, nil), y, n)
  {
    var t' := t.(n := y);
    PlugNodes(ctx, t);
    PlugNodes(ctx, t');
    PlugSep(ctx, t);
    PlugSep(ctx, t');
    PlugAt(ctx, t, t.n, nil);
    PlugAt(ctx, t', n, nil);
    if n != y {
      PlugAt(ctx, t, n, nil);
      if n in Nodes(t.l) {
        AtUp(t.l, n, t.n, y, nil);
      } else if n in Nodes(t.r) {
        AtUp(t.r, n, t.n, y, nil);
      } else {
        SwapAt(ctx, t, t', n, nil);
      }
    }
  }

  // ----- finding a position -----

  lemma {:induction false} Appended<N>(a: seq<Frame<N>>, b: seq<Frame<N>>)
    ensures Before(a + b) == Before(a) + Before(b) && After(a + b) == After(b) + After(a)
    decreases |b|
  {
    if b == [] {
      assert a + b == a;
    } else {
      assert (a + b)[..|a + b|-1] == a + b[..|b|-1];
      Appended(a, b[..|b|-1]);
    }
  }

  /** Every index of the order is a position. */
  lemma {:induction false} Locate<N>(t: Tree<N>, i: nat) returns (ctx: seq<Frame<N>>, s: Tree<N>)
    requires i < |InOrder(t)|
    ensures t == Plug(ctx, s) && s.Node? && |Before(ctx)| + |InOrder(s.l)| == i
  {
    var a := |InOrder(t.l)|;
    if i == a {
      ctx, s := [], t;
    } else {
      var f := if i < a then Frame(t.n, t.red, true, t.r) else Frame(t.n, t.red, false, t.l);
      var sub;
      sub, s := Locate(if i < a then t.l else t.r, if i < a then i else i - a - 1);
      ctx := [f] + sub;
      PlugAppend([f], sub, s);
      Appended([f], sub);
      Push([], f, Plug(sub, s));
      assert [] + [f] == [f];
    }
  }
}
