/** Coloured binary trees over node identities, and the path from the root down to a
    position in such a tree. Both red-black trees of the system are described with these. */
module Zipper {
  import opened Sequences

  /** A tree whose inner nodes carry the identity of the node object stored there. */
  datatype Tree<N> = Nil | Node(n: N, red: bool, l: Tree<N>, r: Tree<N>)

  /** One entry of a root-to-leaf path: the node passed, whether the path continues to its
      left, and the subtree on the other side. */
  datatype Frame<N> = Frame(n: N, red: bool, left: bool, sib: Tree<N>)

  ghost predicate Red<N>(t: Tree<N>) {
    t.Node? && t.red
  }

  ghost function InOrder<N>(t: Tree<N>): seq<N> {
    if t.Nil? then [] else InOrder(t.l) + [t.n] + InOrder(t.r)
  }

  ghost function Nodes<N>(t: Tree<N>): set<N> {
    if t.Nil? then {} else Nodes(t.l) + {t.n} + Nodes(t.r)
  }

  ghost function Height<N>(t: Tree<N>): nat {
    if t.Nil? then 0 else 1 + if Height(t.l) > Height(t.r) then Height(t.l) else Height(t.r)
  }

  /** The subtree rooted at a path entry once the tree below it is known. */
  ghost function Join<N>(f: Frame<N>, t: Tree<N>): Tree<N> {
    if f.left then Node(f.n, f.red, t, f.sib) else Node(f.n, f.red, f.sib, t)
  }

  /** The whole tree: the path with `t` hanging off its end. */
  ghost function Plug<N>(ctx: seq<Frame<N>>, t: Tree<N>): Tree<N> {
    if ctx == [] then t else Plug(ctx[..|ctx|-1], Join(ctx[|ctx|-1], t))
  }

  /** Nodes that precede (follow) the position at the end of the path, in order. */
  ghost function Before<N>(ctx: seq<Frame<N>>): seq<N> {
    if ctx == [] then []
    else
      var f := ctx[|ctx|-1];
      Before(ctx[..|ctx|-1]) + if f.left then [] else InOrder(f.sib) + [f.n]
  }

  ghost function After<N>(ctx: seq<Frame<N>>): seq<N> {
    if ctx == [] then []
    else
      var f := ctx[|ctx|-1];
      (if f.left then [f.n] + InOrder(f.sib) else []) + After(ctx[..|ctx|-1])
  }

  ghost function CtxNodes<N>(ctx: seq<Frame<N>>): set<N> {
    if ctx == [] then {}
    else var f := ctx[|ctx|-1]; CtxNodes(ctx[..|ctx|-1]) + {f.n} + Nodes(f.sib)
  }

  lemma Push<N>(ctx: seq<Frame<N>>, f: Frame<N>, t: Tree<N>)
    ensures Before(ctx + [f]) == Before(ctx) + if f.left then [] else InOrder(f.sib) + [f.n]
    ensures After(ctx + [f]) == (if f.left then [f.n] + InOrder(f.sib) else []) + After(ctx)
    ensures Plug(ctx + [f], t) == Plug(ctx, Join(f, t))
  {
    assert (ctx + [f])[..|ctx + [f]|-1] == ctx;
  }

  /** Taking the last path entry into the subtree leaves the overall order alone. */
  lemma AroundJoin<N>(ctx: seq<Frame<N>>, t: Tree<N>)
    requires ctx != []
    ensures Before(ctx) + InOrder(t) + After(ctx)
         == Before(ctx[..|ctx|-1]) + InOrder(Join(ctx[|ctx|-1], t)) + After(ctx[..|ctx|-1])
  {
    var f, rest := ctx[|ctx|-1], ctx[..|ctx|-1];
    Flanks(Before(rest), InOrder(t), [f.n], InOrder(f.sib), After(rest));
    assert Before(ctx) == if f.left then Before(rest) else Before(rest) + (InOrder(f.sib) + [f.n]);
    assert After(ctx) == if f.left then [f.n] + InOrder(f.sib) + After(rest) else After(rest);
    assert InOrder(Join(f, t)) ==
           if f.left then InOrder(t) + [f.n] + InOrder(f.sib) else InOrder(f.sib) + [f.n] + InOrder(t);
  }

  lemma Flanks<N>(a: seq<N>, s: seq<N>, x: seq<N>, b: seq<N>, c: seq<N>)
    ensures a + s + (x + b + c) == a + (s + x + b) + c
    ensures a + (b + x) + s + c == a + (b + x + s) + c
  {
  }

  lemma {:induction false} PlugInOrder<N>(ctx: seq<Frame<N>>, t: Tree<N>)
    ensures InOrder(Plug(ctx, t)) == Before(ctx) + InOrder(t) + After(ctx)
  {
    if ctx != [] {
      PlugInOrder(ctx[..|ctx|-1], Join(ctx[|ctx|-1], t));
    }
  }

  lemma {:induction false} PlugNodes<N>(ctx: seq<Frame<N>>, t: Tree<N>)
    ensures Nodes(Plug(ctx, t)) == CtxNodes(ctx) + Nodes(t)
  {
    if ctx != [] {
      PlugNodes(ctx[..|ctx|-1], Join(ctx[|ctx|-1], t));
    }
  }

  lemma {:induction false} NodesInOrder<N>(t: Tree<N>, n: N)
    ensures n in Nodes(t) <==> n in InOrder(t)
  {
    if t.Node? {
      NodesInOrder(t.l, n);
      NodesInOrder(t.r, n);
    }
  }

  /** Appending to a path composes. */
  lemma {:induction false} PlugAppend<N>(a: seq<Frame<N>>, b: seq<Frame<N>>, t: Tree<N>)
    ensures Plug(a + b, t) == Plug(a, Plug(b, t))
    decreases |b|
  {
    if b == [] {
      assert a + b == a;
    } else {
      assert (a + b)[..|a + b|-1] == a + b[..|b|-1];
      PlugAppend(a, b[..|b|-1], Join(b[|b|-1], t));
    }
  }

  /** No node object occurs twice. */
  ghost predicate Sep<N>(t: Tree<N>) {
    t.Node? ==>
      && t.n !in Nodes(t.l) && t.n !in Nodes(t.r) && Nodes(t.l) !! Nodes(t.r)
      && Sep(t.l) && Sep(t.r)
  }

  ghost predicate CtxSep<N>(ctx: seq<Frame<N>>) {
    ctx != [] ==>
      var f := ctx[|ctx|-1];
      var rest := ctx[..|ctx|-1];
      && f.n !in Nodes(f.sib) && Sep(f.sib)
      && f.n !in CtxNodes(rest) && Nodes(f.sib) !! CtxNodes(rest)
      && CtxSep(rest)
  }

  lemma {:induction false} PlugSep<N>(ctx: seq<Frame<N>>, t: Tree<N>)
    ensures Sep(Plug(ctx, t)) <==> CtxSep(ctx) && Sep(t) && Nodes(t) !! CtxNodes(ctx)
  {
    if ctx != [] {
      PlugSep(ctx[..|ctx|-1], Join(ctx[|ctx|-1], t));
    }
  }

  lemma NoDupSplit<N>(a: seq<N>, x: N, b: seq<N>)
    ensures NoDup(a + [x] + b) <==>
            NoDup(a) && NoDup(b) && x !in a && x !in b && forall i, j :: 0 <= i < |a| && 0 <= j < |b| ==> a[i] != b[j]
  {
    var s := a + [x] + b;
    assert s[|a|] == x;
    if NoDup(s) {
      assert forall i :: 0 <= i < |a| ==> s[i] == a[i];
      assert forall i :: 0 <= i < |b| ==> s[|a| + 1 + i] == b[i];
    }
  }

  lemma {:induction false} SepNoDup<N>(t: Tree<N>)
    ensures Sep(t) <==> NoDup(InOrder(t))
  {
    if t.Node? {
      SepNoDup(t.l);
      SepNoDup(t.r);
      NoDupSplit(InOrder(t.l), t.n, InOrder(t.r));
      NodesInOrder(t.l, t.n);
      NodesInOrder(t.r, t.n);
      if Sep(t) {
        var a, b := InOrder(t.l), InOrder(t.r);
        forall i, j | 0 <= i < |a| && 0 <= j < |b| ensures a[i] != b[j] {
          NodesInOrder(t.l, a[i]);
          NodesInOrder(t.r, b[j]);
        }
      }
      if NoDup(InOrder(t)) {
        forall y | y in Nodes(t.l) ensures y !in Nodes(t.r) {
          NodesInOrder(t.l, y);
          NodesInOrder(t.r, y);
        }
      }
    }
  }

  /** Trees with the same order of nodes share nodes the same way. */
  lemma SameOrder<N>(s: Tree<N>, t: Tree<N>)
    requires InOrder(s) == InOrder(t)
    ensures Nodes(s) == Nodes(t) && (Sep(s) <==> Sep(t))
  {
    SepNoDup(s);
    SepNoDup(t);
    forall n | n in Nodes(s) ensures n in Nodes(t) { NodesInOrder(s, n); NodesInOrder(t, n); }
    forall n | n in Nodes(t) ensures n in Nodes(s) { NodesInOrder(s, n); NodesInOrder(t, n); }
  }

  /** Reordering nothing below a path entry keeps the whole tree free of sharing. */
  lemma StepSep<N>(ctx: seq<Frame<N>>, t: Tree<N>, r: Tree<N>)
    requires ctx != [] && Sep(Plug(ctx, t)) && InOrder(r) == InOrder(Join(ctx[|ctx|-1], t))
    ensures Sep(Plug(ctx[..|ctx|-1], r)) && Nodes(r) == Nodes(Join(ctx[|ctx|-1], t))
  {
    var rest := ctx[..|ctx|-1];
    PlugInOrder(rest, r);
    PlugInOrder(rest, Join(ctx[|ctx|-1], t));
    SameOrder(Plug(rest, r), Plug(ctx, t));
    SameOrder(r, Join(ctx[|ctx|-1], t));
  }

  // ----- trees in a heap of nodes -----

  /** The link and colour fields of one node. */
  datatype Cell<N> = Cell(red: bool, left: N, right: N)

  /** Where a link to `t` points. */
  ghost function Top<N>(t: Tree<N>, nil: N): N {
    if t.Nil? then nil else t.n
  }

  /** The fields node `n` of `t` must have. */
  ghost function Look<N>(t: Tree<N>, n: N, nil: N): Cell<N>
    requires n in Nodes(t)
  {
    if n == t.n then Cell(t.red, Top(t.l, nil), Top(t.r, nil))
    else if n in Nodes(t.l) then Look(t.l, n, nil)
    else Look(t.r, n, nil)
  }

  /** The fields node `n` on or beside the path must have when `child` is linked at its end. */
  ghost function CtxLook<N>(ctx: seq<Frame<N>>, child: N, n: N, nil: N): Cell<N>
    requires n in CtxNodes(ctx)
  {
    var f := ctx[|ctx|-1];
    if n == f.n then
      if f.left then Cell(f.red, child, Top(f.sib, nil)) else Cell(f.red, Top(f.sib, nil), child)
    else if n in Nodes(f.sib) then Look(f.sib, n, nil)
    else CtxLook(ctx[..|ctx|-1], f.n, n, nil)
  }

  lemma {:induction false} LookPlug<N>(ctx: seq<Frame<N>>, t: Tree<N>, n: N, nil: N)
    requires Sep(Plug(ctx, t)) && n in Nodes(Plug(ctx, t))
    ensures n in CtxNodes(ctx) || n in Nodes(t)
    ensures n in CtxNodes(ctx) ==> Look(Plug(ctx, t), n, nil) == CtxLook(ctx, Top(t, nil), n, nil)
    ensures n in Nodes(t) ==> Look(Plug(ctx, t), n, nil) == Look(t, n, nil)
  {
    PlugNodes(ctx, t);
    PlugSep(ctx, t);
    if ctx != [] {
      var f := ctx[|ctx|-1];
      LookPlug(ctx[..|ctx|-1], Join(f, t), n, nil);
    }
  }

  /** The root of the whole tree when the subtree at the end of the path starts at `child`. */
  ghost function Root<N>(ctx: seq<Frame<N>>, child: N): N {
    if ctx == [] then child else ctx[0].n
  }

  lemma {:induction false} TopPlug<N>(ctx: seq<Frame<N>>, t: Tree<N>, nil: N)
    ensures Top(Plug(ctx, t), nil) == Root(ctx, Top(t, nil))
  {
    if ctx != [] {
      TopPlug(ctx[..|ctx|-1], Join(ctx[|ctx|-1], t), nil);
    }
  }

  // ----- putting another node at a path entry -----

  ghost function Rename<N>(ctx: seq<Frame<N>>, k: nat, s: N): seq<Frame<N>>
    requires k < |ctx|
  {
    ctx[k := ctx[k].(n := s)]
  }

  lemma RenamePop<N>(ctx: seq<Frame<N>>, k: nat, s: N)
    requires k < |ctx| - 1
    ensures Rename(ctx, k, s)[..|ctx|-1] == Rename(ctx[..|ctx|-1], k, s)
  {
  }

  /** Below a right turn that is followed by left turns only, nothing but the entry itself changes
      place in the order. */
  lemma {:induction false} RenameOrder<N>(ctx: seq<Frame<N>>, k: nat, s: N)
    requires k < |ctx| && !ctx[k].left && forall j :: k < j < |ctx| ==> ctx[j].left
    ensures After(Rename(ctx, k, s)) == After(ctx)
    ensures Before(ctx) == Before(ctx[..k]) + InOrder(ctx[k].sib) + [ctx[k].n]
    ensures Before(Rename(ctx, k, s)) == Before(ctx[..k]) + InOrder(ctx[k].sib) + [s]
    decreases |ctx|
  {
    if k == |ctx| - 1 {
      assert Rename(ctx, k, s)[..k] == ctx[..k];
    } else {
      RenamePop(ctx, k, s);
      RenameOrder(ctx[..|ctx|-1], k, s);
      assert ctx[..|ctx|-1][..k] == ctx[..k];
    }
  }

  lemma {:induction false} RenameNodes<N>(ctx: seq<Frame<N>>, k: nat, s: N)
    requires k < |ctx| && CtxSep(ctx)
    ensures CtxNodes(Rename(ctx, k, s)) == CtxNodes(ctx) - {ctx[k].n} + {s}
    decreases |ctx|
  {
    if k == |ctx| - 1 {
      assert Rename(ctx, k, s)[..k] == ctx[..k];
    } else {
      RenamePop(ctx, k, s);
      RenameNodes(ctx[..|ctx|-1], k, s);
      EntryInside(ctx[..|ctx|-1], k);
    }
  }

  lemma {:induction false} EntryInside<N>(ctx: seq<Frame<N>>, k: nat)
    requires k < |ctx|
    ensures ctx[k].n in CtxNodes(ctx)
    decreases |ctx|
  {
    if k < |ctx| - 1 { EntryInside(ctx[..|ctx|-1], k); }
  }

  /** The fields of the entry itself, of the entry above it, and of all other nodes. */
  lemma {:induction false} RenameLook<N>(ctx: seq<Frame<N>>, k: nat, s: N, child: N, n: N, nil: N)
    requires k < |ctx| && CtxSep(ctx) && s !in CtxNodes(ctx) && n in CtxNodes(Rename(ctx, k, s))
    ensures n == s || (n in CtxNodes(ctx) && n != ctx[k].n)
    ensures var look := CtxLook(Rename(ctx, k, s), child, n, nil);
            var next := if k == |ctx| - 1 then child else ctx[k + 1].n;
            if n == s then look == Cell(ctx[k].red, if ctx[k].left then next else Top(ctx[k].sib, nil),
                                        if ctx[k].left then Top(ctx[k].sib, nil) else next)
            else if k > 0 && n == ctx[k - 1].n then
              look == if ctx[k - 1].left then CtxLook(ctx, child, n, nil).(left := s)
                  else CtxLook(ctx, child, n, nil).(right := s)
            else look == CtxLook(ctx, child, n, nil)
    decreases |ctx|
  {
    RenameNodes(ctx, k, s);
    var ctx' := Rename(ctx, k, s);
    var rest := ctx[..|ctx|-1];
    if k == |ctx| - 1 {
      assert ctx'[..k] == rest;
      if k > 0 {
        var f := rest[k - 1];
        EntryInside(rest, k - 1);
        if n in CtxNodes(rest) {
          EntryLook(rest, ctx[k].n, s, n, nil);
        }
      }
    } else {
      RenamePop(ctx, k, s);
      EntryInside(rest, k);
      if k > 0 { EntryInside(rest, k - 1); }
      if n in CtxNodes(Rename(rest, k, s)) {
        RenameLook(rest, k, s, ctx[|ctx|-1].n, n, nil);
      }
      RenameNodes(rest, k, s);
    }
  }

  /** Linking another child at the end of the path changes the last entry only. */
  lemma EntryLook<N>(ctx: seq<Frame<N>>, c1: N, c2: N, n: N, nil: N)
    requires ctx != [] && CtxSep(ctx) && n in CtxNodes(ctx)
    ensures var f := ctx[|ctx|-1];
            CtxLook(ctx, c2, n, nil) ==
              if n != f.n then CtxLook(ctx, c1, n, nil)
              else if f.left then CtxLook(ctx, c1, n, nil).(left := c2) else CtxLook(ctx, c1, n, nil).(right := c2)
  {
  }
}
