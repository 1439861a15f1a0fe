/** The path array of oss/rb.h: how the wind loops fill it, what each loop keeps, and what is left of
    the order and the balance when a node is taken out. */
module LlrbPath {
  import opened Zipper
  import opened LlrbModel
  import opened LlrbHeap

  /** The first entries of the path array follow the path `ctx`. */
  ghost predicate OnPath<D>(path: array<RbNode<D>>, cmps: array<int>, ctx: seq<Frame<RbNode<D>>>)
    reads path, cmps
  {
    && path.Length == cmps.Length == PATH_MAX && |ctx| < PATH_MAX
    && forall j :: 0 <= j < |ctx| ==> path[j] == ctx[j].n && (cmps[j] < 0 <==> ctx[j].left) && cmps[j] != 0
  }

  /** Every node before the end of the path is below `key`, every node after it is above. */
  ghost predicate Splits<D>(ctx: seq<Frame<RbNode<D>>>, key: int) {
    AllBelow(Before(ctx), key) && AllAbove(After(ctx), key)
  }

  function Compare(a: int, b: int): int {
    if a < b then -1 else if a > b then 1 else 0
  }

  lemma PathEntry<D>(path: array<RbNode<D>>, cmps: array<int>, ctx: seq<Frame<RbNode<D>>>, k: nat)
    requires OnPath(path, cmps, ctx) && k < |ctx|
    ensures path.Length == PATH_MAX && |ctx| < PATH_MAX && path[k] == ctx[k].n
  {
  }

  lemma PathLength<D>(path: array<RbNode<D>>, cmps: array<int>, ctx: seq<Frame<RbNode<D>>>)
    requires OnPath(path, cmps, ctx)
    ensures path.Length == cmps.Length == PATH_MAX && |ctx| < PATH_MAX
  {
  }

  lemma TopOfNil<N>(nil: N)
    ensures Top<N>(Nil, nil) == nil
  {
  }

  lemma SortedParts<D>(a: seq<RbNode<D>>, b: seq<RbNode<D>>, c: seq<RbNode<D>>)
    requires Sorted(a + b + c)
    ensures Sorted(b)
  {
    var s := a + b + c;
    assert forall i :: 0 <= i < |b| ==> s[|a| + i] == b[i];
  }

  lemma AboveConcat<D>(a: seq<RbNode<D>>, b: seq<RbNode<D>>, k: int)
    requires AllAbove(a, k) && AllAbove(b, k)
    ensures AllAbove(a + b, k)
  {
  }

  lemma BelowConcat<D>(a: seq<RbNode<D>>, b: seq<RbNode<D>>, k: int)
    requires AllBelow(a, k) && AllBelow(b, k)
    ensures AllBelow(a + b, k)
  {
  }

  /** The path entry a search goes through at `sub`. */
  ghost function Turn<D>(sub: Tree<RbNode<D>>, left: bool): Frame<RbNode<D>>
    requires sub.Node?
  {
    Frame(sub.n, sub.red, left, if left then sub.r else sub.l)
  }

  lemma SubOrder<D>(ctx: seq<Frame<RbNode<D>>>, sub: Tree<RbNode<D>>)
    requires sub.Node? && Sorted(InOrder(Plug(ctx, sub)))
    ensures AllBelow(InOrder(sub.l), sub.n.key) && AllAbove(InOrder(sub.r), sub.n.key)
  {
    PlugInOrder(ctx, sub);
    SortedParts(Before(ctx), InOrder(sub), After(ctx));
    SortedSplit(InOrder(sub.l), sub.n, InOrder(sub.r));
  }

  /** Going down one level towards `key` keeps the path a split at `key`. */
  lemma Descend<D>(ctx: seq<Frame<RbNode<D>>>, sub: Tree<RbNode<D>>, key: int, left: bool)
    requires sub.Node? && Sorted(InOrder(Plug(ctx, sub))) && Splits(ctx, key)
    requires if left then key < sub.n.key else key > sub.n.key
    ensures Splits(ctx + [Turn(sub, left)], key)
    ensures Plug(ctx + [Turn(sub, left)], if left then sub.l else sub.r) == Plug(ctx, sub)
  {
    var f := Turn(sub, left);
    SubOrder(ctx, sub);
    Push(ctx, f, if left then sub.l else sub.r);
    if left {
      AboveConcat([f.n] + InOrder(f.sib), After(ctx), key);
    } else {
      BelowConcat(Before(ctx), InOrder(f.sib) + [f.n], key);
    }
  }

  /** The fields at the end of a path in a tree in the heap. */
  lemma SubCell<D>(t: Tree<RbNode<D>>, ctx: seq<Frame<RbNode<D>>>, sub: Tree<RbNode<D>>, nil: RbNode<D>)
    requires Holds(t, nil) && Sorted(InOrder(t)) && Plug(ctx, sub) == t && sub.Node?
    ensures IsCell(sub, nil) && sub.n in Nodes(t)
  {
    SortedSep(t);
    PlugSep(ctx, sub);
    HoldsPlug(ctx, sub, nil);
    HoldsCell(sub, nil);
    PlugNodes(ctx, sub);
  }

  /** A search path for the key of a node in the tree leads to that node. */
  lemma Present<D>(t: Tree<RbNode<D>>, ctx: seq<Frame<RbNode<D>>>, sub: Tree<RbNode<D>>, node: RbNode<D>,
                   nil: RbNode<D>)
    requires Plug(ctx, sub) == t && Sorted(InOrder(t)) && Splits(ctx, node.key) && node in Nodes(t)
    ensures sub.Node? && Top(sub, nil) == sub.n && (sub.n.key == node.key ==> sub.n == node)
  {
    assert node in InOrder(sub) by {
      PlugInOrder(ctx, sub);
      NodesInOrder(t, node);
    }
    assert node == sub.n || node in InOrder(sub.l) || node in InOrder(sub.r);
    SubOrder(ctx, sub);
  }

  ghost predicate AllLeft<D>(mid: seq<Frame<RbNode<D>>>) {
    forall j :: 0 <= j < |mid| ==> mid[j].left
  }

  lemma AllLeftPush<D>(mid: seq<Frame<RbNode<D>>>, f: Frame<RbNode<D>>)
    requires AllLeft(mid) && f.left
    ensures AllLeft(mid + [f])
  {
  }

  lemma Down<D>(ctx: seq<Frame<RbNode<D>>>, sub: Tree<RbNode<D>>)
    requires sub.Node?
    ensures Height(sub.l) < Height(sub) && Height(sub.r) < Height(sub)
    ensures Plug(ctx + [Turn(sub, true)], sub.l) == Plug(ctx, sub)
    ensures Plug(ctx + [Turn(sub, false)], sub.r) == Plug(ctx, sub)
  {
    Push(ctx, Turn(sub, true), sub.l);
    Push(ctx, Turn(sub, false), sub.r);
  }

  /** One step of a wind loop: the next entry, and what the heap links to there. */
  lemma WindDown<D>(t: Tree<RbNode<D>>, ctx: seq<Frame<RbNode<D>>>, sub: Tree<RbNode<D>>, left: bool, nil: RbNode<D>)
    requires Holds(t, nil) && Sorted(InOrder(t)) && Plug(ctx, sub) == t && sub.Node?
    ensures var down := if left then sub.l else sub.r;
            && Plug(ctx + [Turn(sub, left)], down) == t && Height(down) < Height(sub)
            && Top(down, nil) == (if left then sub.n.left else sub.n.right)
            && Turn(sub, left).n == sub.n && Turn(sub, left).left == left
  {
    SubCell(t, ctx, sub, nil);
    Down(ctx, sub);
  }

  lemma KeyDiffers<D>(t: Tree<RbNode<D>>, ctx: seq<Frame<RbNode<D>>>, sub: Tree<RbNode<D>>, key: int)
    requires Plug(ctx, sub) == t && sub.Node? && forall n :: n in Nodes(t) ==> n.key != key
    ensures sub.n.key != key
  {
    PlugNodes(ctx, sub);
    assert sub.n in Nodes(sub);
  }

  lemma CompareSign(a: int, b: int)
    ensures (Compare(a, b) < 0 <==> a < b) && (Compare(a, b) > 0 <==> a > b) && (Compare(a, b) == 0 <==> a == b)
  {
  }

  /** A link to nil at the end of a path means there is no subtree. */
  lemma AtNil<D>(ctx: seq<Frame<RbNode<D>>>, sub: Tree<RbNode<D>>, nil: RbNode<D>)
    requires nil !in Nodes(Plug(ctx, sub)) && Top(sub, nil) == nil
    ensures sub == Nil
  {
    PlugNodes(ctx, sub);
  }

  /** Replaces the node of the path entry below the path `ctx`. */
  method SetEntry<D>(path: array<RbNode<D>>, cmps: array<int>, i: nat, node: RbNode<D>,
                     ghost ctx: seq<Frame<RbNode<D>>>)
    requires OnPath(path, cmps, ctx) && i == |ctx|
    modifies path
    ensures OnPath(path, cmps, ctx) && path[i] == node
  {
    path[i] := node;
  }

  /** Fills in the comparison of path entry `i` and the node of the next one. */
  method Record<D>(path: array<RbNode<D>>, cmps: array<int>, i: nat, cmp: int, next: RbNode<D>,
                   ghost ctx: seq<Frame<RbNode<D>>>, ghost f: Frame<RbNode<D>>)
    requires OnPath(path, cmps, ctx) && i == |ctx| && i + 1 < PATH_MAX && path[i] == f.n && (cmp < 0 <==> f.left)
    requires cmp != 0
    modifies path, cmps
    ensures OnPath(path, cmps, ctx + [f]) && path[i + 1] == next
  {
    cmps[i] := cmp;
    path[i + 1] := next;
  }

  /** A finished path and subtree make up a balanced tree in the heap. */
  lemma FinishPlug<D>(ctx: seq<Frame<RbNode<D>>>, t: Tree<RbNode<D>>, h: nat, nil: RbNode<D>)
    requires Fits(ctx, t, h) && Sep(Plug(ctx, t)) && HoldsCtx(ctx, Top(t, nil), nil) && Holds(t, nil)
    ensures Balanced(Plug(ctx, t)) && Holds(Plug(ctx, t), nil)
    ensures Top(Plug(ctx, t), nil) == Root(ctx, Top(t, nil))
    ensures InOrder(Plug(ctx, t)) == Before(ctx) + InOrder(t) + After(ctx)
  {
    PlugBalanced(ctx, t, h);
    HoldsPlug(ctx, t, nil);
    TopPlug(ctx, t, nil);
    PlugInOrder(ctx, t);
  }

  /** A step that keeps the order below the last path entry keeps the whole order and node set. */
  lemma StepOrder<D>(ctx: seq<Frame<RbNode<D>>>, t: Tree<RbNode<D>>, r: Tree<RbNode<D>>)
    requires ctx != [] && InOrder(r) == InOrder(Join(ctx[|ctx|-1], t))
    ensures Before(ctx[..|ctx|-1]) + InOrder(r) + After(ctx[..|ctx|-1]) == Before(ctx) + InOrder(t) + After(ctx)
    ensures CtxNodes(ctx[..|ctx|-1]) + Nodes(r) == CtxNodes(ctx) + Nodes(t)
  {
    AroundJoin(ctx, t);
    SameOrder(r, Join(ctx[|ctx|-1], t));
  }

  /** What the unwind loop of insert keeps: the balance condition, the order and the node set. */
  ghost predicate InsertState<D>(ctx: seq<Frame<RbNode<D>>>, t: Tree<RbNode<D>>, h: nat, order: seq<RbNode<D>>,
                                 all: set<RbNode<D>>) {
    && t.Node? && InsertInv(ctx, t, h)
    && Before(ctx) + InOrder(t) + After(ctx) == order && CtxNodes(ctx) + Nodes(t) == all
  }

  lemma InsertAdvance<D>(ctx: seq<Frame<RbNode<D>>>, t: Tree<RbNode<D>>, h: nat, order: seq<RbNode<D>>,
                         all: set<RbNode<D>>)
    requires ctx != [] && InsertState(ctx, t, h, order, all)
    ensures var f := ctx[|ctx|-1];
            var s := InsertStep(f, t);
            var rest := ctx[..|ctx|-1];
            var h' := if f.red then h else h + 1;
            && Nodes(Join(f, t)) <= all && s.t.Node? && (s.done ==> s.t.n == f.n && Fits(rest, s.t, h'))
            && Before(rest) + InOrder(s.t) + After(rest) == order
            && (!s.done ==> InsertState(rest, s.t, h', order, all))
  {
    var f := ctx[|ctx|-1];
    InsertStepKeeps(ctx, t, h);
    InsertStepInOrder(f, t);
    StepOrder(ctx, t, InsertStep(f, t).t);
  }

  lemma InsertEnd<D>(t: Tree<RbNode<D>>, h: nat, order: seq<RbNode<D>>, all: set<RbNode<D>>)
    requires InsertState([], t, h, order, all)
    ensures t.Node? && t.n in all && InOrder(t) == order && InsertInv([], t, h)
  {
  }

  lemma InsertTop<D>(t: Tree<RbNode<D>>, h: nat)
    requires InsertInv([], t, h)
    ensures Balanced(Blacken(t)) && InOrder(Blacken(t)) == InOrder(t)
  {
    InsertUnwindBalanced([], t, h);
  }

  method SetBlack<D>(p: RbNode<D>, ghost t: Tree<RbNode<D>>, ghost nil: RbNode<D>)
    requires t.Node? && p == t.n && Holds(t, nil) && Sep(t)
    modifies p`red
    ensures Holds(Blacken(t), nil)
  {
    HoldsCell(t, nil);
    p.red := false;
    forall n | n in Nodes(Blacken(t)) ensures CellOf(n) == Look(Blacken(t), n, nil) {
      assert n in Nodes(t);
    }
  }

  /** One iteration of the unwind loop of insert on the path array. */
  method InsertIteration<D>(path: array<RbNode<D>>, cmps: array<int>, i: nat, nil: RbNode<D>,
                            ghost ctx: seq<Frame<RbNode<D>>>, ghost t: Tree<RbNode<D>>, ghost stale: RbNode<D>)
    returns (done: bool)
    requires OnPath(path, cmps, ctx) && |ctx| == i + 1 && t.Node? && path[i + 1] == t.n && Unwinding(ctx, t, stale, nil)
    modifies Nodes(Join(ctx[i], t)), path
    ensures var s := InsertStep(ctx[i], t);
            && done == s.done && Unwinding(ctx[..i], s.t, ctx[i].n, nil)
            && OnPath(path, cmps, ctx[..i]) && (!done ==> path[i] == Top(s.t, nil))
  {
    NodesAllocated(InsertStep(ctx[i], t).t);
    CtxAllocated(ctx[..i]);
    var top;
    top, done := InsertUnwindStep(path[i], path[i + 1], cmps[i] < 0, nil, ctx, t, stale);
    assert OnPath(path, cmps, ctx[..i]);
    if !done {
      SetEntry(path, cmps, i, top, ctx[..i]);
    }
  }

  /** A sorted sequence with `node` put in its place. */
  ghost function Place<D>(s: seq<RbNode<D>>, node: RbNode<D>): seq<RbNode<D>> {
    if s == [] || node.key < s[0].key then [node] + s else [s[0]] + Place(s[1..], node)
  }

  lemma {:induction false} PlaceSplit<D>(a: seq<RbNode<D>>, node: RbNode<D>, b: seq<RbNode<D>>)
    requires AllBelow(a, node.key) && AllAbove(b, node.key)
    ensures Place(a + b, node) == a + [node] + b
  {
    if a == [] {
      assert a + b == b;
    } else {
      assert (a + b)[1..] == a[1..] + b;
      PlaceSplit(a[1..], node, b);
    }
  }

  lemma SortedInsert<D>(a: seq<RbNode<D>>, node: RbNode<D>, b: seq<RbNode<D>>)
    requires Sorted(a + b) && AllBelow(a, node.key) && AllAbove(b, node.key)
    ensures Sorted(a + [node] + b)
  {
    assert Sorted(a) by { assert [] + a + b == a + b; SortedParts([], a, b); }
    assert Sorted(b) by { assert a + b + [] == a + b; SortedParts(a, b, []); }
    SortedSplit(a, node, b);
  }

  lemma LeafFacts<D>(node: RbNode<D>, red: bool)
    ensures InOrder(Node(node, red, Nil, Nil)) == [node] && Nodes(Node(node, red, Nil, Nil)) == {node}
  {
    assert InOrder<RbNode<D>>(Nil) == [] && Nodes<RbNode<D>>(Nil) == {};
  }

  /** The state in which the unwind loop of insert starts. */
  lemma InsertStart<D>(t: Tree<RbNode<D>>, ctx: seq<Frame<RbNode<D>>>, node: RbNode<D>, nil: RbNode<D>)
    requires Holds(t, nil) && Sorted(InOrder(t)) && nil !in Nodes(t) && !nil.red
    requires Plug(ctx, Nil) == t && node !in Nodes(t) && node != nil && CellOf(node) == Cell(true, nil, nil)
    ensures Unwinding(ctx, Node(node, true, Nil, Nil), nil, nil)
  {
    var t0 := Node(node, true, Nil, Nil);
    LeafFacts(node, true);
    SortedSep(t);
    PlugSep(ctx, Nil);
    PlugNodes(ctx, Nil);
    PlugSep(ctx, t0);
    HoldsPlug(ctx, Nil, nil);
  }

  lemma InsertStartState<D>(t: Tree<RbNode<D>>, ctx: seq<Frame<RbNode<D>>>, node: RbNode<D>, nil: RbNode<D>)
    requires Sorted(InOrder(t)) && Balanced(t) && Plug(ctx, Nil) == t && Splits(ctx, node.key)
    ensures InsertState(ctx, Node(node, true, Nil, Nil), 0, Place(InOrder(t), node), Nodes(t) + {node})
    ensures Top(t, nil) == Root(ctx, nil) && Sorted(Place(InOrder(t), node))
  {
    var t0 := Node(node, true, Nil, Nil);
    LeafFacts(node, true);
    PlugNodes(ctx, Nil);
    var h := BalancedFits(ctx, Nil);
    TopPlug(ctx, Nil, nil);
    PlugInOrder(ctx, Nil);
    assert InOrder(t) == Before(ctx) + After(ctx);
    PlaceSplit(Before(ctx), node, After(ctx));
    SortedInsert(Before(ctx), node, After(ctx));
  }

  /** Trees with the nodes of a sequence have those nodes. */
  lemma NodesOf<D>(r: Tree<RbNode<D>>, ctx: seq<Frame<RbNode<D>>>, t0: Tree<RbNode<D>>, h: nat, all: set<RbNode<D>>)
    requires InsertState(ctx, t0, h, InOrder(r), all)
    ensures Nodes(r) == all
  {
    PlugInOrder(ctx, t0);
    PlugNodes(ctx, t0);
    SameOrder(r, Plug(ctx, t0));
  }

  /** `s` without `node`. */
  ghost function Drop<D>(s: seq<RbNode<D>>, node: RbNode<D>): seq<RbNode<D>> {
    if s == [] then [] else if s[0] == node then s[1..] else [s[0]] + Drop(s[1..], node)
  }

  lemma {:induction false} DropSplit<D>(a: seq<RbNode<D>>, node: RbNode<D>, b: seq<RbNode<D>>)
    requires Sorted(a + [node] + b)
    ensures Drop(a + [node] + b, node) == a + b && Sorted(a + b)
  {
    SortedSplit(a, node, b);
    DropUpTo(a, node, b);
  }

  lemma {:induction false} DropUpTo<D>(a: seq<RbNode<D>>, node: RbNode<D>, b: seq<RbNode<D>>)
    requires node !in a
    ensures Drop(a + [node] + b, node) == a + b
  {
    var s := a + [node] + b;
    if a == [] {
      assert s[1..] == b;
    } else {
      assert s[0] == a[0] && s[1..] == a[1..] + [node] + b;
      DropUpTo(a[1..], node, b);
      assert [a[0]] + (a[1..] + b) == a + b;
    }
  }

  /** Popping the last entry of a path in the heap. */
  lemma HoldsPop<D>(ctx: seq<Frame<RbNode<D>>>, child: RbNode<D>, nil: RbNode<D>)
    requires ctx != [] && CtxSep(ctx) && HoldsCtx(ctx, child, nil)
    ensures var f := ctx[|ctx|-1];
            && HoldsCtx(ctx[..|ctx|-1], f.n, nil) && Holds(f.sib, nil)
            && CellOf(f.n) == if f.left then Cell(f.red, child, Top(f.sib, nil))
                else Cell(f.red, Top(f.sib, nil), child)
  {
    assert ctx[|ctx|-1].n in CtxNodes(ctx);
  }

  /** The order and the node set without `node`, when it has no right child. */
  lemma OuterOrder<D>(t: Tree<RbNode<D>>, ctx: seq<Frame<RbNode<D>>>, node: RbNode<D>, red: bool, l: Tree<RbNode<D>>)
    requires Sorted(InOrder(t)) && t == Plug(ctx, Node(node, red, l, Nil))
    ensures Drop(InOrder(t), node) == Before(ctx) + InOrder(l) + After(ctx)
    ensures Sorted(Drop(InOrder(t), node)) && Sep(Plug(ctx, l))
  {
    var n := Node(node, red, l, Nil);
    assert InOrder(n) == InOrder(l) + [node];
    hide InOrder, Before, After, Drop, Sorted, Plug;
    var a, b := Before(ctx) + InOrder(l), After(ctx);
    assert InOrder(t) == a + [node] + b by {
      PlugInOrder(ctx, n);
      assert Before(ctx) + (InOrder(l) + [node]) + After(ctx) == a + [node] + b;
    }
    DropSplit(a, node, b);
    PlugInOrder(ctx, l);
    SortedSep(Plug(ctx, l));
  }

  lemma OuterNodes<D>(t: Tree<RbNode<D>>, ctx: seq<Frame<RbNode<D>>>, node: RbNode<D>, red: bool, l: Tree<RbNode<D>>)
    requires Sorted(InOrder(t)) && t == Plug(ctx, Node(node, red, l, Nil))
    ensures CtxNodes(ctx) + Nodes(l) == Nodes(t) - {node} && Sep(t)
  {
    var n := Node(node, red, l, Nil);
    SortedSep(t);
    PlugSep(ctx, n);
    PlugNodes(ctx, n);
    assert Nodes(n) == Nodes(l) + {node};
  }

  /** What is in the heap around `node`, when it has no right child. */
  lemma OuterHeap<D>(t: Tree<RbNode<D>>, ctx: seq<Frame<RbNode<D>>>, node: RbNode<D>, red: bool, l: Tree<RbNode<D>>,
                     nil: RbNode<D>)
    requires Sorted(InOrder(t)) && t == Plug(ctx, Node(node, red, l, Nil)) && Holds(t, nil) && nil !in Nodes(t)
    requires !nil.red
    ensures Unwinding(ctx, l, node, nil) && CellOf(node) == Cell(red, Top(l, nil), nil)
    ensures Top(t, nil) == Root(ctx, node)
    ensures node !in CtxNodes(ctx) && node !in Nodes(l)
  {
    OuterOrder(t, ctx, node, red, l);
    OuterNodes(t, ctx, node, red, l);
    var n := Node(node, red, l, Nil);
    PlugSep(ctx, n);
    PlugNodes(ctx, n);
    HoldsPlug(ctx, n, nil);
    HoldsCell(n, nil);
    TopPlug(ctx, n, nil);
  }

  /** The order and the node set without the entry `k`, when the last entry takes its place. */
  lemma InnerOrder<D>(t: Tree<RbNode<D>>, full: seq<Frame<RbNode<D>>>, k: nat)
    requires Sorted(InOrder(t)) && Balanced(t) && t == Plug(full, Nil) && k < |full| - 1
    requires !full[k].left && forall j :: k < j < |full| ==> full[j].left
    ensures var rest, s := full[..|full|-1], full[|full|-1].n;
            var ren := Rename(rest, k, s);
            && Drop(InOrder(t), full[k].n) == Before(ren) + After(ren)
            && Sorted(Drop(InOrder(t), full[k].n)) && Sep(Plug(ren, Nil))
  {
    LastEntry(full);
    hide *;
    var f, rest := full[|full|-1], full[..|full|-1];
    var ren := Rename(rest, k, f.n);
    InnerAround(full, k);
    var a, b := Before(full[..k]) + InOrder(full[k].sib), After(rest);
    PlugNil(full);
    DropSplit(a, full[k].n, [f.n] + b);
    Assoc(a, [f.n], b);
    PlugNil(ren);
    SortedSep(Plug(ren, Nil));
  }

  lemma InnerAround<D>(full: seq<Frame<RbNode<D>>>, k: nat)
    requires k < |full| - 1 && full[|full|-1].sib == Nil
    requires !full[k].left && forall j :: k < j < |full| ==> full[j].left
    ensures var rest, s := full[..|full|-1], full[|full|-1].n;
            var a := Before(full[..k]) + InOrder(full[k].sib);
            && Before(full) == a + [full[k].n] && After(full) == [s] + After(rest)
            && Before(Rename(rest, k, s)) == a + [s] && After(Rename(rest, k, s)) == After(rest)
  {
    var rest, s := full[..|full|-1], full[|full|-1].n;
    RenameOrder(rest, k, s);
    assert rest[..k] == full[..k];
  }

  lemma Assoc<T>(a: seq<T>, b: seq<T>, c: seq<T>)
    ensures a + (b + c) == (a + b) + c
  {
  }

  lemma PlugNil<D>(ctx: seq<Frame<RbNode<D>>>)
    ensures InOrder(Plug(ctx, Nil)) == Before(ctx) + After(ctx)
  {
    PlugInOrder(ctx, Nil);
  }

  lemma InnerNodes<D>(t: Tree<RbNode<D>>, full: seq<Frame<RbNode<D>>>, k: nat)
    requires Sorted(InOrder(t)) && Balanced(t) && t == Plug(full, Nil) && k < |full| - 1 && full[|full|-1].left
    ensures var rest, s := full[..|full|-1], full[|full|-1].n;
            && CtxSep(full) && CtxSep(rest) && s !in CtxNodes(rest) && full[k].n in CtxNodes(rest)
            && CtxNodes(rest) + {s} == Nodes(t) && CtxNodes(Rename(rest, k, s)) == Nodes(t) - {full[k].n}
  {
    var f, rest := full[|full|-1], full[..|full|-1];
    LastEntry(full);
    SortedSep(t);
    PlugSep(full, Nil);
    PlugNodes(full, Nil);
    RenameNodes(rest, k, f.n);
    EntryInside(rest, k);
  }

  /** The fields of the two nodes that are about to be swapped. */
  lemma InnerHeap<D>(t: Tree<RbNode<D>>, full: seq<Frame<RbNode<D>>>, k: nat, nil: RbNode<D>)
    requires Sorted(InOrder(t)) && Balanced(t) && t == Plug(full, Nil) && k < |full| - 1 && Holds(t, nil)
    requires !full[k].left && forall j :: k < j < |full| ==> full[j].left
    ensures var rest, f := full[..|full|-1], full[|full|-1];
            && HoldsCtx(rest, f.n, nil) && CellOf(f.n) == Cell(f.red, nil, nil)
            && CellOf(full[k].n) == Cell(full[k].red, Top(full[k].sib, nil), full[k + 1].n)
            && Top(t, nil) == full[0].n
  {
    InnerNodes(t, full, k);
    LastEntry(full);
    SortedSep(t);
    HoldsPlug(full, Nil, nil);
    HoldsPop(full, nil, nil);
    TopPlug(full, Nil, nil);
    EntryFields(full[..|full|-1], k, full[|full|-1].n, nil);
  }

  /** The fields of an entry inside a path. */
  lemma {:induction false} EntryFields<D>(ctx: seq<Frame<RbNode<D>>>, k: nat, child: RbNode<D>, nil: RbNode<D>)
    requires k < |ctx| && CtxSep(ctx) && HoldsCtx(ctx, child, nil)
    ensures var f := ctx[k];
            var next: RbNode<D> := if k == |ctx| - 1 then child else ctx[k + 1].n;
            CellOf(f.n) == if f.left then Cell(f.red, next, Top(f.sib, nil)) else Cell(f.red, Top(f.sib, nil), next)
    decreases |ctx|
  {
    HoldsPop(ctx, child, nil);
    if k < |ctx| - 1 {
      EntryFields(ctx[..|ctx|-1], k, ctx[|ctx|-1].n, nil);
    }
  }

  lemma InnerBalance<D>(t: Tree<RbNode<D>>, full: seq<Frame<RbNode<D>>>, k: nat)
    requires Balanced(t) && t == Plug(full, Nil) && k < |full| - 1 && full[|full|-1].left
    ensures var rest, f := full[..|full|-1], full[|full|-1];
            var ren := Rename(rest, k, f.n);
            if f.red then RedOk(ren) && CtxOk(ren, 0) else Short(ren, Nil, 0)
  {
    var rest, f := full[..|full|-1], full[|full|-1];
    LastEntry(full);
    RenameOk(rest, k, f.n, if f.red then 0 else 1);
  }

  lemma OuterBalance<D>(ctx: seq<Frame<RbNode<D>>>, node: RbNode<D>, red: bool, l: Tree<RbNode<D>>)
    requires Balanced(Plug(ctx, Node(node, red, l, Nil)))
    ensures l.Node? ==> Red(l) && !red && Fits(ctx, Blacken(l), 1)
    ensures l == Nil ==> if red then RedOk(ctx) && CtxOk(ctx, 0) else Short(ctx, Nil, 0)
  {
    var f := Frame(node, red, false, l);
    Push(ctx, f, Nil);
    LastEntry(ctx + [f]);
    assert (ctx + [f])[..|ctx|] == ctx;
  }

  lemma LeafOrder<D>(ctx: seq<Frame<RbNode<D>>>, order: seq<RbNode<D>>)
    requires order == Before(ctx) + InOrder(Nil) + After(ctx)
    ensures order == Before(ctx) + After(ctx)
  {
  }

  lemma LoneNode<D>(ctx: seq<Frame<RbNode<D>>>, order: seq<RbNode<D>>)
    requires order == Before(ctx) + InOrder(Nil) + After(ctx) && ctx == []
    ensures order == InOrder(Nil)
  {
  }

  lemma LoneBalanced<N>()
    ensures Balanced<N>(Nil)
  {
  }

  lemma InOrderBlacken<D>(l: Tree<RbNode<D>>)
    ensures InOrder(Blacken(l)) == InOrder(l)
  {
  }

  lemma {:induction false} EntriesDiffer<D>(ctx: seq<Frame<RbNode<D>>>, k: nat)
    requires k < |ctx| && CtxSep(ctx)
    ensures k > 0 ==> ctx[k - 1].n != ctx[k].n
    decreases |ctx|
  {
    if k == |ctx| - 1 {
      if k > 0 { EntryInside(ctx[..k], k - 1); }
    } else {
      EntriesDiffer(ctx[..|ctx|-1], k);
    }
  }

  /** Copies the links and the colour of `node` to `s`; `node` gets the colour of `s`. */
  method TakePlace<D>(node: RbNode<D>, s: RbNode<D>) returns (tred: bool)
    requires node != s
    modifies node`red, s
    ensures CellOf(s) == old(CellOf(node)) && node.red == old(s.red) == tred
  {
    tred := s.red;
    s.red := node.red;
    s.left := node.left;
    s.right := node.right;
    node.red := tred;
  }

  method SetChild<D>(p: RbNode<D>, child: RbNode<D>, less: bool)
    modifies p
    ensures CellOf(p) == if less then old(CellOf(p)).(left := child) else old(CellOf(p)).(right := child)
  {
    if less {
      p.left := child;
    } else {
      p.right := child;
    }
  }

  method RenameEntry<D>(path: array<RbNode<D>>, cmps: array<int>, k: nat, s: RbNode<D>,
                        ghost ctx: seq<Frame<RbNode<D>>>)
    requires OnPath(path, cmps, ctx) && k < |ctx|
    modifies path
    ensures OnPath(path, cmps, Rename(ctx, k, s)) && (k > 0 ==> path[k - 1] == ctx[k - 1].n)
    ensures k > 0 ==> (cmps[k - 1] < 0 <==> ctx[k - 1].left)
  {
    path[k] := s;
  }

  lemma UnwindingNil<D>(ctx: seq<Frame<RbNode<D>>>, stale: RbNode<D>, nil: RbNode<D>)
    requires HoldsCtx(ctx, stale, nil) && Sep(Plug(ctx, Nil)) && nil !in CtxNodes(ctx) && !nil.red
    ensures Unwinding(ctx, Nil, stale, nil)
  {
  }

  lemma RootOfPath<D>(ctx: seq<Frame<RbNode<D>>>, child: RbNode<D>)
    requires ctx != []
    ensures Root(ctx, child) == ctx[0].n
  {
  }

  /** The path from a node through its successor: it ends at the node itself only when there is no
      right subtree. */
  lemma SuccessorPath<D>(t: Tree<RbNode<D>>, ctx: seq<Frame<RbNode<D>>>, sub: Tree<RbNode<D>>,
                         mid: seq<Frame<RbNode<D>>>)
    requires sub.Node? && AllLeft(mid) && t == Plug(ctx + [Turn(sub, false)] + mid, Nil) && Sorted(InOrder(t))
    ensures var full, k := ctx + [Turn(sub, false)] + mid, |ctx|;
            && full[k] == Turn(sub, false) && (forall j :: k < j < |full| ==> full[j].left)
            && (full[|full|-1].n == sub.n ==> mid == [] && t == Plug(ctx, Node(sub.n, sub.red, sub.l, Nil)))
  {
    var full, k := ctx + [Turn(sub, false)] + mid, |ctx|;
    if mid == [] {
      assert full == ctx + [Turn(sub, false)];
      Push(ctx, Turn(sub, false), Nil);
    } else {
      SortedSep(t);
      PlugSep(full, Nil);
      EntryInside(full[..|full|-1], k);
    }
  }

  lemma {:induction false} DropMember<D>(s: seq<RbNode<D>>, node: RbNode<D>, n: RbNode<D>)
    requires Sorted(s)
    ensures n in Drop(s, node) <==> n in s && n != node
  {
    if s != [] {
      assert s == [s[0]] + s[1..];
      DropMember(s[1..], node, n);
    }
  }

  lemma DropNodes<D>(t: Tree<RbNode<D>>, r: Tree<RbNode<D>>, node: RbNode<D>)
    requires Sorted(InOrder(t)) && InOrder(r) == Drop(InOrder(t), node)
    ensures Nodes(r) == Nodes(t) - {node}
  {
    hide *;
    forall n | n in Nodes(r) ensures n in Nodes(t) - {node} {
      NodesInOrder(r, n);
      NodesInOrder(t, n);
      DropMember(InOrder(t), node, n);
    }
    forall n | n in Nodes(t) - {node} ensures n in Nodes(r) {
      NodesInOrder(r, n);
      NodesInOrder(t, n);
      DropMember(InOrder(t), node, n);
    }
  }

  // ----- the unwind loop of remove -----

  /** What the unwind loop of remove keeps: one black node is missing below the path; the order and
      the node set are those of the result. */
  ghost predicate RemoveState<D>(ctx: seq<Frame<RbNode<D>>>, t: Tree<RbNode<D>>, h: nat, order: seq<RbNode<D>>,
                                 all: set<RbNode<D>>) {
    && Short(ctx, t, h)
    && Before(ctx) + InOrder(t) + After(ctx) == order && CtxNodes(ctx) + Nodes(t) == all
  }

  lemma RemoveAdvance<D>(ctx: seq<Frame<RbNode<D>>>, t: Tree<RbNode<D>>, h: nat, order: seq<RbNode<D>>,
                         all: set<RbNode<D>>)
    requires ctx != [] && RemoveState(ctx, t, h, order, all)
    ensures var f := ctx[|ctx|-1];
            var rest := ctx[..|ctx|-1];
            && Steppable(f) && Nodes(Join(f, t)) <= all && CtxNodes(ctx) <= all
            && !Red(t) && (f.red ==> rest != [])  // asserted by the loop
            && var s := RemoveStep(f, t);
               && (s.done ==> Fits(rest, s.t, if f.red then h + 1 else h + 2))
               && Before(rest) + InOrder(s.t) + After(rest) == order && CtxNodes(rest) <= all
               && (!s.done ==> RemoveState(rest, s.t, h + 1, order, all))
  {
    var f := ctx[|ctx|-1];
    RemoveStepKeeps(ctx, t, h);
    RemoveStepInOrder(f, t);
    StepOrder(ctx, t, RemoveStep(f, t).t);
  }

  lemma StateUnwound<D>(ctx: seq<Frame<RbNode<D>>>, t: Tree<RbNode<D>>, h: nat, order: seq<RbNode<D>>,
                        all: set<RbNode<D>>)
    requires RemoveState(ctx, t, h, order, all)
    ensures AllSteppable(ctx) && (ctx == [] ==> RemoveUnwind(ctx, t) == t)
    ensures ctx != [] ==>
              var s, rest := RemoveStep(ctx[|ctx|-1], t), ctx[..|ctx|-1];
              AllSteppable(rest) && RemoveUnwind(ctx, t) == if s.done then Plug(rest, s.t) else RemoveUnwind(rest, s.t)
  {
    RemoveUnwound(ctx, t, h);
  }

  lemma UnwindingTop<D>(t: Tree<RbNode<D>>, stale: RbNode<D>, nil: RbNode<D>)
    requires Unwinding([], t, stale, nil)
    ensures Holds(t, nil)
  {
  }

  lemma RemoveEnd<D>(t: Tree<RbNode<D>>, h: nat, order: seq<RbNode<D>>, all: set<RbNode<D>>)
    requires RemoveState([], t, h, order, all)
    ensures InOrder(t) == order && Balanced(t)
  {
    SubHeight(t, h);
  }

  /** One iteration of the unwind loop of remove on the path array. */
  method RemoveIteration<D>(path: array<RbNode<D>>, cmps: array<int>, i: nat, nil: RbNode<D>,
                            ghost ctx: seq<Frame<RbNode<D>>>, ghost t: Tree<RbNode<D>>, ghost stale: RbNode<D>)
    returns (top: RbNode<D>, next: Next)
    requires OnPath(path, cmps, ctx) && |ctx| == i + 1 && path[i + 1] == Top(t, nil) && Unwinding(ctx, t, stale, nil)
    requires Steppable(ctx[i])
    modifies Nodes(Join(ctx[i], t)), path
    ensures var s := RemoveStep(ctx[i], t);
            && (next.Climb? <==> !s.done) && top == Top(s.t, nil) && Unwinding(ctx[..i], s.t, ctx[i].n, nil)
            && OnPath(path, cmps, ctx[..i]) && (next.Climb? ==> path[i] == top)
    ensures next.Return? ==> top == ctx[i].n
  {
    NodesAllocated(RemoveStep(ctx[i], t).t);
    CtxAllocated(ctx[..i]);
    assert cmps[i] != 0;
    top, next := RemoveUnwindStep(path[i], path[i + 1], cmps[i] < 0, nil, ctx, t, stale);
    assert OnPath(path, cmps, ctx[..i]);
    if next.Climb? {
      SetEntry(path, cmps, i, top, ctx[..i]);
    }
  }

  lemma TurnLeft<D>(sub: Tree<RbNode<D>>)
    requires sub.Node?
    ensures Turn(sub, true).left
  {
  }

  /** The state of a wind loop at path entry `i`: the path `ctx` so far, and the subtree `sub` below it. */
  ghost predicate Winding<D>(t: Tree<RbNode<D>>, ctx: seq<Frame<RbNode<D>>>, sub: Tree<RbNode<D>>,
                             i: nat, path: array<RbNode<D>>, cmps: array<int>, nil: RbNode<D>)
    reads Nodes(t), path, cmps
  {
    && Holds(t, nil) && Sorted(InOrder(t)) && nil !in Nodes(t) && Plug(ctx, sub) == t
    && OnPath(path, cmps, ctx) && i == |ctx| && i + Height(sub) < PATH_MAX - 1 && path[i] == Top(sub, nil)
  }

  /** One iteration of a wind loop. */
  method WindStep<D>(i: nat, path: array<RbNode<D>>, cmps: array<int>, cmp: int, nil: RbNode<D>,
                     ghost t: Tree<RbNode<D>>, ghost ctx: seq<Frame<RbNode<D>>>, ghost sub: Tree<RbNode<D>>)
    requires Winding(t, ctx, sub, i, path, cmps, nil) && path[i] != nil && cmp != 0
    modifies path, cmps
    ensures sub.Node?
    ensures Winding(t, ctx + [Turn(sub, cmp < 0)], if cmp < 0 then sub.l else sub.r, i + 1, path, cmps, nil)
  {
    var cnode := path[i];
    hide Holds, Sorted, InOrder, Nodes, Plug, OnPath, Height, Turn;
    WindDown(t, ctx, sub, cmp < 0, nil);
    NodesAllocated(t);
    Record(path, cmps, i, cmp, if cmp < 0 then cnode.left else cnode.right, ctx, Turn(sub, cmp < 0));
  }

  lemma WindingAt<D>(t: Tree<RbNode<D>>, ctx: seq<Frame<RbNode<D>>>, sub: Tree<RbNode<D>>,
                     i: nat, path: array<RbNode<D>>, cmps: array<int>, nil: RbNode<D>)
    requires Winding(t, ctx, sub, i, path, cmps, nil)
    ensures i == |ctx| && i < PATH_MAX - 1 && path.Length == PATH_MAX && path[i] == Top(sub, nil) && Plug(ctx, sub) == t
    ensures Sorted(InOrder(t)) && OnPath(path, cmps, ctx)
    ensures if path[i] == nil then sub == Nil else sub.Node? && sub.n == path[i]
  {
    if path[i] == nil { AtNil(ctx, sub, nil); }
  }

  method NewPath<D>(nil: RbNode<D>) returns (path: array<RbNode<D>>, cmps: array<int>)
    ensures fresh(path) && fresh(cmps) && path.Length == cmps.Length == PATH_MAX
  {
    path := new RbNode<D>[PATH_MAX](_ => nil);
    cmps := new int[PATH_MAX];
  }
}
