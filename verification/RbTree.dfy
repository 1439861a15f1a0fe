/** The operations generated by rb_gen in oss/rb.h, on nodes in the heap. */
module RbTree {
  import opened Zipper
  import opened LlrbModel
  import opened LlrbHeap
  import opened LlrbPath

  class RbTree<D> {
    var root: RbNode<D>
    const nil: RbNode<D>
    ghost var t: Tree<RbNode<D>>

    /** The links hold a sorted left-leaning red-black tree. */
    ghost predicate Valid()
      reads this, nil, Nodes(t)
    {
      && root == Top(t, nil) && Holds(t, nil) && nil !in Nodes(t)
      && nil.left == nil && nil.right == nil && !nil.red
      && Balanced(t) && Sorted(InOrder(t))
    }

    constructor (filler: D)
      ensures Valid() && t == Nil && fresh(nil)
    {
      var n := new RbNode<D>(0, filler);
      nil := n;
      root := n;
      t := Nil;
    }

    method Search(key: int) returns (ret: RbNode?<D>)
      requires Valid()
      ensures ret != null ==> ret in Nodes(t) && ret.key == key
      ensures ret == null ==> forall n :: n in Nodes(t) ==> n.key != key
    {
      var cur := root;
      ghost var ctx: seq<Frame<RbNode<D>>>, sub := [], t;
      while cur != nil && cur.key != key
        invariant Valid() && Plug(ctx, sub) == t && cur == Top(sub, nil) && Splits(ctx, key)
        decreases sub
      {
        SubCell(t, ctx, sub, nil);
        Descend(ctx, sub, key, key < cur.key);
        ctx := ctx + [Turn(sub, key < cur.key)];
        if key < cur.key {
          sub := sub.l;
          cur := cur.left;
        } else {
          sub := sub.r;
          cur := cur.right;
        }
      }
      PlugNodes(ctx, sub);
      if cur == nil {
        ret := null;
        forall n | n in Nodes(t) ensures n.key != key {
          PlugInOrder(ctx, Nil);
          NodesInOrder(t, n);
        }
      } else {
        ret := cur;
      }
    }

    /** The wind loop of insert: follows the links towards `key` down to a nil link. */
    method Wind(key: int, path: array<RbNode<D>>, cmps: array<int>) returns (i: nat, ghost ctx: seq<Frame<RbNode<D>>>)
      requires Valid() && |InOrder(t)| < NODES_MAX && path.Length == cmps.Length == PATH_MAX
      requires forall n :: n in Nodes(t) ==> n.key != key
      modifies path, cmps
      ensures OnPath(path, cmps, ctx) && i == |ctx| && Plug(ctx, Nil) == t && Splits(ctx, key)
    {
      ghost var sub := t;
      ctx, i := [], 0;
      path[0] := root;
      PathFits(t);
      assert Splits(ctx, key) && Winding(t, ctx, sub, i, path, cmps, nil);
      hide *;
      WindingAt(t, ctx, sub, i, path, cmps, nil);
      while path[i] != nil
        modifies path, cmps
        invariant i < PATH_MAX - 1 && Winding(t, ctx, sub, i, path, cmps, nil) && Splits(ctx, key)
        decreases sub
      {
        WindingAt(t, ctx, sub, i, path, cmps, nil);
        var cmp := Compare(key, path[i].key);
        KeyDiffers(t, ctx, sub, key);
        CompareSign(key, path[i].key);
        Descend(ctx, sub, key, cmp < 0);
        WindStep(i, path, cmps, cmp, nil, t, ctx, sub);
        ctx, sub, i := ctx + [Turn(sub, cmp < 0)], if cmp < 0 then sub.l else sub.r, i + 1;
        WindingAt(t, ctx, sub, i, path, cmps, nil);
      }
      WindingAt(t, ctx, sub, i, path, cmps, nil);
    }

    /** The unwind loop of insert, from path entry `depth - 1` upwards. `done` tells that it returned
        early; otherwise the root is still to be set. */
    method UnwindInsert(path: array<RbNode<D>>, cmps: array<int>, depth: nat,
                        ghost ctx0: seq<Frame<RbNode<D>>>, ghost t0: Tree<RbNode<D>>,
                        ghost order: seq<RbNode<D>>, ghost all: set<RbNode<D>>)
      returns (done: bool, ghost r: Tree<RbNode<D>>, ghost h: nat)
      requires OnPath(path, cmps, ctx0) && depth == |ctx0| && path[depth] == Top(t0, nil)
      requires Unwinding(ctx0, t0, nil, nil) && InsertState(ctx0, t0, 0, order, all)
      requires ctx0 != [] ==> root == ctx0[0].n
      modifies all, path
      ensures Holds(r, nil) && InOrder(r) == order && InsertUnwind(ctx0, t0) == if done then r else Blacken(r)
      ensures done ==> root == Top(r, nil) && Balanced(r)
      ensures !done ==> r.Node? && r.n in all && path[0] == r.n && InsertInv([], r, h) && Sep(r)
    {
      hide InsertInv, Before, After, CtxNodes, Nodes, InOrder, HoldsCtx, Holds, Sep, InsertStep, InsertUnwind;
      ghost var ctx, stale := ctx0, nil;
      r, h, done := t0, 0, false;
      var i: int := depth - 1;
      while i >= 0
        invariant -1 <= i && |ctx| == i + 1 && OnPath(path, cmps, ctx) && path[i + 1] == Top(r, nil)
        invariant Unwinding(ctx, r, stale, nil) && InsertState(ctx, r, h, order, all)
        invariant InsertUnwind(ctx, r) == InsertUnwind(ctx0, t0) && (ctx != [] ==> root == ctx[0].n)
      {
        InsertAdvance(ctx, r, h, order, all);
        InsertUnwound(ctx, r);
        ghost var f, rest := ctx[|ctx|-1], ctx[..|ctx|-1];
        done := InsertIteration(path, cmps, i, nil, ctx, r, stale);
        ctx, r, stale, h := rest, InsertStep(f, r).t, f.n, if f.red then h else h + 1;
        if done {
          FinishPlug(ctx, r, h, nil);
          r := Plug(ctx, r);
          return;
        }
        i := i - 1;
      }
      InsertEnd(r, h, order, all);
      InsertUnwound(ctx, r);
    }

    /** Initialises `node` and winds down to where it belongs. */
    method BeginInsert(node: RbNode<D>, path: array<RbNode<D>>, cmps: array<int>)
      returns (i: nat, ghost ctx: seq<Frame<RbNode<D>>>)
      requires Valid() && node != nil && node !in Nodes(t) && |InOrder(t)| < NODES_MAX
      requires path.Length == cmps.Length == PATH_MAX
      requires forall n :: n in Nodes(t) ==> n.key != node.key
      modifies node, path, cmps
      ensures OnPath(path, cmps, ctx) && i == |ctx| && path[i] == node
      ensures Unwinding(ctx, Node(node, true, Nil, Nil), nil, nil)
      ensures InsertState(ctx, Node(node, true, Nil, Nil), 0, Place(InOrder(t), node), Nodes(t) + {node})
      ensures root == Root(ctx, nil) && Sorted(Place(InOrder(t), node))
    {
      hide InsertState, Place, Balanced, Sorted, InOrder, Splits, Height, Unwinding, OnPath, Plug, Sep;
      node.left := nil;
      node.right := nil;
      node.red := true;
      NodesAllocated(t);
      i, ctx := Wind(node.key, path, cmps);
      InsertStart(t, ctx, node, nil);
      InsertStartState(t, ctx, node, nil);
      CtxAllocated(ctx);
      SetEntry(path, cmps, i, node, ctx);
    }

    /** Unwinds, then sets the root and makes it black unless the loop returned early. */
    method EndInsert(path: array<RbNode<D>>, cmps: array<int>, depth: nat,
                     ghost ctx: seq<Frame<RbNode<D>>>, ghost t0: Tree<RbNode<D>>, ghost order: seq<RbNode<D>>,
                         ghost all: set<RbNode<D>>)
      returns (ghost r: Tree<RbNode<D>>)
      requires OnPath(path, cmps, ctx) && depth == |ctx| && path[depth] == Top(t0, nil)
      requires Unwinding(ctx, t0, nil, nil) && InsertState(ctx, t0, 0, order, all)
      requires root == Root(ctx, nil)
      modifies this`root, all, path
      ensures r == InsertUnwind(ctx, t0) && root == Top(r, nil) && Holds(r, nil) && Balanced(r) && InOrder(r) == order
      ensures Nodes(r) == all
    {
      hide InsertState, InsertInv, Before, After, CtxNodes, HoldsCtx, Plug;
      var done;
      ghost var h;
      done, r, h := UnwindInsert(path, cmps, depth, ctx, t0, order, all);
      if !done {
        InsertTop(r, h);
        root := path[0];
        SetBlack(root, r, nil);
        r := Blacken(r);
      }
      NodesOf(r, ctx, t0, 0, all);
    }

    /** Adds `node`, whose key no node of the tree has. */
    method Insert(node: RbNode<D>)
      requires Valid() && node != nil && node !in Nodes(t) && |InOrder(t)| < NODES_MAX
      requires forall n :: n in Nodes(t) ==> n.key != node.key
      modifies this, node, Nodes(t)
      ensures Valid() && Nodes(t) == old(Nodes(t)) + {node}
      ensures InOrder(t) == Place(old(InOrder(t)), node)
    {
      hide InsertState, Place, Unwinding, OnPath, Balanced, Sorted, InOrder;
      NodesAllocated(t);
      var path, cmps := NewPath(nil);
      ghost var ctx;
      var i;
      i, ctx := BeginInsert(node, path, cmps);
      ghost var r := EndInsert(path, cmps, i, ctx, Node(node, true, Nil, Nil), Place(InOrder(t), node), Nodes(t) +
          {node});
      t := r;
    }

    /** Links the new top of a subtree into the path entry above it, or into the root. */
    method SetLink(path: array<RbNode<D>>, cmps: array<int>, i: nat, top: RbNode<D>,
                   ghost ctx: seq<Frame<RbNode<D>>>, ghost r: Tree<RbNode<D>>, ghost stale: RbNode<D>)
      requires OnPath(path, cmps, ctx) && |ctx| == i && top == Top(r, nil) && Unwinding(ctx, r, stale, nil)
      requires root == Root(ctx, stale)
      modifies this`root, CtxNodes(ctx)
      ensures root == Root(ctx, top) && HoldsCtx(ctx, top, nil) && Holds(r, nil)
    {
      if i == 0 {
        root := top;
      } else {
        NodesAllocated(r);
        PlugSep(ctx, r);
        EntryInside(ctx, i - 1);
        Link(path[i - 1], top, cmps[i - 1] < 0, ctx, r, stale, nil);
      }
    }

    /** One iteration of the unwind loop of remove, and the relinking when it returns. */
    method RemoveIterate(path: array<RbNode<D>>, cmps: array<int>, i: nat,
                         ghost ctx: seq<Frame<RbNode<D>>>, ghost t: Tree<RbNode<D>>, ghost stale: RbNode<D>)
      returns (climb: bool)
      requires OnPath(path, cmps, ctx) && |ctx| == i + 1 && path[i + 1] == Top(t, nil) && Unwinding(ctx, t, stale, nil)
      requires Steppable(ctx[i]) && root == Root(ctx, stale)
      modifies this`root, CtxNodes(ctx), Nodes(Join(ctx[i], t)), path
      ensures climb <==> !RemoveStep(ctx[i], t).done
      ensures climb ==> Unwinding(ctx[..i], RemoveStep(ctx[i], t).t, ctx[i].n, nil) && root == Root(ctx[..i], ctx[i].n)
      ensures climb ==> OnPath(path, cmps, ctx[..i]) && path[i] == Top(RemoveStep(ctx[i], t).t, nil)
      ensures !climb ==> Sep(Plug(ctx[..i], RemoveStep(ctx[i], t).t)) && Holds(RemoveStep(ctx[i], t).t, nil)
      ensures !climb ==> HoldsCtx(ctx[..i], Top(RemoveStep(ctx[i], t).t, nil), nil)
      ensures !climb ==> root == Root(ctx[..i], Top(RemoveStep(ctx[i], t).t, nil))
    {
      ghost var rest, r := ctx[..i], RemoveStep(ctx[i], t).t;
      assert CtxNodes(rest) <= CtxNodes(ctx) && root == Root(rest, ctx[i].n);
      hide CtxNodes, Nodes, HoldsCtx, Holds, Sep, Plug, RemoveStep, Join, OnPath, Steppable;
      var top, next := RemoveIteration(path, cmps, i, nil, ctx, t, stale);
      climb := next.Climb?;
      if next.Relink? {
        SetLink(path, cmps, i, top, rest, r, ctx[i].n);
      }
    }

    /** The unwind loop of remove, from path entry `depth - 1` upwards. */
    method UnwindRemove(path: array<RbNode<D>>, cmps: array<int>, depth: nat,
                        ghost ctx0: seq<Frame<RbNode<D>>>, ghost stale0: RbNode<D>, ghost order: seq<RbNode<D>>,
                            ghost all: set<RbNode<D>>)
      returns (ghost r: Tree<RbNode<D>>)
      requires OnPath(path, cmps, ctx0) && depth == |ctx0| && path[depth] == nil
      requires Unwinding(ctx0, Nil, stale0, nil) && RemoveState(ctx0, Nil, 0, order, all)
      requires root == Root(ctx0, stale0)
      modifies this`root, all, path
      ensures AllSteppable(ctx0) && r == RemoveUnwind(ctx0, Nil)
      ensures Holds(r, nil) && InOrder(r) == order && root == Top(r, nil) && Balanced(r)
    {
      hide *;
      ghost var ctx, stale, h := ctx0, stale0, 0;
      StateUnwound(ctx0, Nil, 0, order, all);
      r := Nil;
      var i: int := depth - 1;
      TopOfNil(nil);
      PathLength(path, cmps, ctx0);
      while i >= 0
        invariant -1 <= i && |ctx| == i + 1 < PATH_MAX && OnPath(path, cmps, ctx) && path[i + 1] == Top(r, nil)
        invariant Unwinding(ctx, r, stale, nil) && RemoveState(ctx, r, h, order, all)
        invariant root == Root(ctx, stale) && AllSteppable(ctx) && RemoveUnwind(ctx, r) == RemoveUnwind(ctx0, Nil)
      {
        RemoveAdvance(ctx, r, h, order, all);
        StateUnwound(ctx, r, h, order, all);
        ghost var f, rest := ctx[|ctx|-1], ctx[..|ctx|-1];
        var climb := RemoveIterate(path, cmps, i, ctx, r, stale);
        r := RemoveStep(f, r).t;
        if !climb {
          FinishPlug(rest, r, if f.red then h + 1 else h + 2, nil);
          r := Plug(rest, r);
          return;
        }
        ctx, stale, h := rest, f.n, h + 1;
        i := i - 1;
      }
      assert ctx == [];
      UnwindingTop(r, stale, nil);
      StateUnwound(ctx, r, h, order, all);
      RemoveEnd(r, h, order, all);
      NodesAllocated(r);
      root := path[0];
    }

    /** The outer wind loop of remove: follows the links to `node`. */
    method WindTo(node: RbNode<D>, path: array<RbNode<D>>, cmps: array<int>)
      returns (i: nat, ghost ctx: seq<Frame<RbNode<D>>>, ghost sub: Tree<RbNode<D>>)
      requires Valid() && |InOrder(t)| < NODES_MAX && path.Length == cmps.Length == PATH_MAX && node in Nodes(t)
      modifies path, cmps
      ensures Winding(t, ctx, sub, i, path, cmps, nil) && sub.Node? && sub.n == node
    {
      sub, ctx, i := t, [], 0;
      path[0] := root;
      PathFits(t);
      assert Splits(ctx, node.key) && Winding(t, ctx, sub, i, path, cmps, nil);
      hide *;
      while true
        modifies path, cmps
        invariant Winding(t, ctx, sub, i, path, cmps, nil) && Splits(ctx, node.key)
        decreases sub
      {
        WindingAt(t, ctx, sub, i, path, cmps, nil);
        Present(t, ctx, sub, node, nil);
        var cmp := Compare(node.key, path[i].key);
        CompareSign(node.key, path[i].key);
        if cmp == 0 {
          break;
        }
        Descend(ctx, sub, node.key, cmp < 0);
        WindStep(i, path, cmps, cmp, nil, t, ctx, sub);
        ctx, sub, i := ctx + [Turn(sub, cmp < 0)], if cmp < 0 then sub.l else sub.r, i + 1;
      }
      WindingAt(t, ctx, sub, i, path, cmps, nil);
    }

    /** The inner wind loop of remove: left down to nil. */
    method WindLeft(k: nat, path: array<RbNode<D>>, cmps: array<int>, ghost ctx0: seq<Frame<RbNode<D>>>,
                    ghost sub0: Tree<RbNode<D>>)
      returns (i: nat, ghost mid: seq<Frame<RbNode<D>>>)
      requires Winding(t, ctx0, sub0, k, path, cmps, nil)
      modifies path, cmps
      ensures Winding(t, ctx0 + mid, Nil, i, path, cmps, nil) && AllLeft(mid)
    {
      ghost var sub := sub0;
      mid, i := [], k;
      assert ctx0 + mid == ctx0 && AllLeft(mid);
      hide *;
      WindingAt(t, ctx0, sub, i, path, cmps, nil);
      while path[i] != nil
        modifies path, cmps
        invariant i < PATH_MAX - 1 && Winding(t, ctx0 + mid, sub, i, path, cmps, nil) && AllLeft(mid)
        decreases sub
      {
        WindStep(i, path, cmps, -1, nil, t, ctx0 + mid, sub);
        TurnLeft(sub);
        AllLeftPush(mid, Turn(sub, true));
        Assoc(ctx0, mid, [Turn(sub, true)]);
        mid, sub, i := mid + [Turn(sub, true)], sub.l, i + 1;
        WindingAt(t, ctx0 + mid, sub, i, path, cmps, nil);
      }
      WindingAt(t, ctx0 + mid, sub, i, path, cmps, nil);
    }

    /** From `node` one step right, then left down to nil. */
    method WindToSuccessor(node: RbNode<D>, k: nat, path: array<RbNode<D>>, cmps: array<int>,
                           ghost ctx0: seq<Frame<RbNode<D>>>, ghost sub0: Tree<RbNode<D>>)
      returns (i: nat, ghost mid: seq<Frame<RbNode<D>>>)
      requires Winding(t, ctx0, sub0, k, path, cmps, nil) && sub0.Node? && sub0.n == node && node != nil
      modifies path, cmps
      ensures Winding(t, ctx0 + [Turn(sub0, false)] + mid, Nil, i, path, cmps, nil) && AllLeft(mid)
    {
      hide *;
      WindingAt(t, ctx0, sub0, k, path, cmps, nil);
      WindStep(k, path, cmps, 1, nil, t, ctx0, sub0);
      i, mid := WindLeft(k + 1, path, cmps, ctx0 + [Turn(sub0, false)], sub0.r);
    }

    /** Prunes the last node of the path: a red one needs no fix-up, a black one unwinds. */
    method PruneLast(path: array<RbNode<D>>, cmps: array<int>, q: nat, red: bool,
                     ghost ctx: seq<Frame<RbNode<D>>>, ghost stale: RbNode<D>, ghost order: seq<RbNode<D>>,
                         ghost all: set<RbNode<D>>)
      returns (ghost r: Tree<RbNode<D>>)
      requires OnPath(path, cmps, ctx) && 0 < q == |ctx| && Unwinding(ctx, Nil, stale, nil) && root == Root(ctx, stale)
      requires order == Before(ctx) + After(ctx) && all == CtxNodes(ctx)
      requires if red then RedOk(ctx) && CtxOk(ctx, 0) else Short(ctx, Nil, 0)
      modifies this`root, all, path
      ensures Holds(r, nil) && InOrder(r) == order && root == Top(r, nil) && Balanced(r)
    {
      CtxAllocated(ctx);
      assert Before(ctx) + InOrder<RbNode<D>>(Nil) + After(ctx) == order;
      assert CtxNodes(ctx) + Nodes<RbNode<D>>(Nil) == all;
      if red {
        assert cmps[q - 1] < 0;
        EntryInside(ctx, q - 1);
        Link(path[q - 1], nil, true, ctx, Nil, stale, nil);
        FinishPlug(ctx, Nil, 0, nil);
        r := Plug(ctx, Nil);
      } else {
        SetEntry(path, cmps, q, nil, ctx);
        r := UnwindRemove(path, cmps, q, ctx, stale, order, all);
      }
    }

    /** Lets the red left child `left` take the place of `node`. */
    method SpliceOut(left: RbNode<D>, path: array<RbNode<D>>, cmps: array<int>, k: nat,
                     ghost ctx: seq<Frame<RbNode<D>>>, ghost l: Tree<RbNode<D>>, ghost node: RbNode<D>)
      returns (ghost r: Tree<RbNode<D>>)
      requires OnPath(path, cmps, ctx) && k == |ctx| && Unwinding(ctx, l, node, nil) && l.Node? && left == l.n
      requires Fits(ctx, Blacken(l), 1) && root == Root(ctx, node)
      modifies this`root, CtxNodes(ctx) + Nodes(l)
      ensures Holds(r, nil) && InOrder(r) == Before(ctx) + InOrder(Blacken(l)) + After(ctx) && root == Top(r, nil)
      ensures Balanced(r)
    {
      PlugSep(ctx, l);
      PlugSep(ctx, Blacken(l));
      CtxAllocated(ctx);
      SetBlack(left, l, nil);
      SetLink(path, cmps, k, left, ctx, Blacken(l), node);
      FinishPlug(ctx, Blacken(l), 1, nil);
      r := Plug(ctx, Blacken(l));
    }

    /** Removes a node without a right child, found at path entry `k`. */
    method RemoveOuter(node: RbNode<D>, path: array<RbNode<D>>, cmps: array<int>, k: nat,
                       ghost ctx: seq<Frame<RbNode<D>>>, ghost red: bool, ghost l: Tree<RbNode<D>>)
      returns (ghost r: Tree<RbNode<D>>)
      requires Valid() && OnPath(path, cmps, ctx) && k == |ctx| && t == Plug(ctx, Node(node, red, l, Nil))
      modifies this`root, Nodes(t) - {node}, path
      ensures Holds(r, nil) && InOrder(r) == Drop(InOrder(t), node) && root == Top(r, nil) && Balanced(r)
      ensures Sorted(InOrder(r))
    {
      ghost var order, all := Drop(InOrder(t), node), Nodes(t) - {node};
      OuterOrder(t, ctx, node, red, l);
      OuterNodes(t, ctx, node, red, l);
      OuterHeap(t, ctx, node, red, l, nil);
      OuterBalance(ctx, node, red, l);
      hide Drop, Before, After, InOrder, Sorted, Balanced, Plug, CtxOk, Short;
      var left := node.left;
      if left != nil {
        // node has no successor, but it has a left child: splice it out.
        assert !node.red && left.red;
        r := SpliceOut(left, path, cmps, k, ctx, l, node);
        InOrderBlacken(l);
      } else if k == 0 {
        // The tree only contained one node.
        root := nil;
        r := Nil;
        assert InOrder(r) == order by { LoneNode(ctx, order); }
        assert Balanced(r) by { LoneBalanced<RbNode<D>>(); }
      } else {
        LeafOrder(ctx, order);
        r := PruneLast(path, cmps, k, node.red, ctx, node, order, all);
      }
    }

    /** Swaps the node at path entry `k` with its successor `s`, which comes below the path `rest`. */
    method SwapWithSuccessor(node: RbNode<D>, s: RbNode<D>, path: array<RbNode<D>>, cmps: array<int>, k: nat,
                             ghost rest: seq<Frame<RbNode<D>>>)
      returns (red: bool)
      requires k < |rest| && OnPath(path, cmps, rest) && path[k] == node && !rest[k].left
      requires CtxSep(rest) && s !in CtxNodes(rest) && HoldsCtx(rest, s, nil) && root == rest[0].n
      modifies this`root, s, node, CtxNodes(rest), path
      ensures red == old(s.red) && OnPath(path, cmps, Rename(rest, k, s)) && HoldsCtx(Rename(rest, k, s), s, nil)
      ensures root == Rename(rest, k, s)[0].n
    {
      hide CtxSep, CtxNodes, OnPath;
      PathEntry(path, cmps, rest, k);
      CtxAllocated(rest);
      EntryFields(rest, k, s, nil);
      if k > 0 {
        EntryInside(rest, k - 1);
        EntriesDiffer(rest, k);
      }
      EntryInside(rest, k);
      red := TakePlace(node, s);
      RenameEntry(path, cmps, k, s, rest);
      if k == 0 {
        root := s;
      } else {
        SetChild(path[k - 1], s, cmps[k - 1] < 0);
      }
      forall n | n in CtxNodes(Rename(rest, k, s)) ensures CellOf(n) == CtxLook(Rename(rest, k, s), s, n, nil) {
        RenameLook(rest, k, s, s, n, nil);
        if n != s {
          assert old(CellOf(n)) == CtxLook(rest, s, n, nil);
          if k > 0 && n == rest[k - 1].n {
            assert CellOf(n) == if rest[k - 1].left then old(CellOf(n)).(left := s) else old(CellOf(n)).(right := s);
          } else {
            assert CellOf(n) == old(CellOf(n));
          }
        }
      }
    }

    /** Swaps the node at path entry `k` with its successor `s` below the path `rest`, then prunes it. */
    method SwapAndPrune(node: RbNode<D>, s: RbNode<D>, path: array<RbNode<D>>, cmps: array<int>, k: nat, q: nat,
                        ghost rest: seq<Frame<RbNode<D>>>, ghost order: seq<RbNode<D>>, ghost all: set<RbNode<D>>)
      returns (ghost r: Tree<RbNode<D>>)
      requires k < q == |rest| && OnPath(path, cmps, rest) && path[k] == node && !rest[k].left
      requires CtxSep(rest) && s !in CtxNodes(rest) && HoldsCtx(rest, s, nil) && root == rest[0].n
      requires Sep(Plug(Rename(rest, k, s), Nil)) && nil !in CtxNodes(rest) + {s, node} && !nil.red
      requires order == Before(Rename(rest, k, s)) + After(Rename(rest, k, s)) && all == CtxNodes(Rename(rest, k, s))
      requires if s.red then RedOk(Rename(rest, k, s)) && CtxOk(Rename(rest, k, s), 0)
               else Short(Rename(rest, k, s), Nil, 0)
      modifies this`root, s, node, CtxNodes(rest), all, path
      ensures Holds(r, nil) && InOrder(r) == order && root == Top(r, nil) && Balanced(r)
    {
      ghost var ren := Rename(rest, k, s);
      RenameNodes(rest, k, s);
      assert |ren| == q;
      hide *;
      var red := SwapWithSuccessor(node, s, path, cmps, k, rest);
      UnwindingNil(ren, s, nil);
      RootOfPath(ren, s);
      r := PruneLast(path, cmps, q, red, ren, s, order, all);
    }

    /** Removes a node that has a successor below it: `full` is the path through the successor. */
    method RemoveInner(node: RbNode<D>, path: array<RbNode<D>>, cmps: array<int>, k: nat, q: nat,
                       ghost full: seq<Frame<RbNode<D>>>)
      returns (ghost r: Tree<RbNode<D>>)
      requires Valid() && OnPath(path, cmps, full) && k < q == |full| - 1 && t == Plug(full, Nil) && path[k] == node
      requires !full[k].left && forall j :: k < j < |full| ==> full[j].left
      modifies this`root, Nodes(t), path
      ensures Holds(r, nil) && InOrder(r) == Drop(InOrder(t), node) && root == Top(r, nil) && Balanced(r)
      ensures Sorted(InOrder(r))
    {
      ghost var rest := full[..q];
      var s := path[q];
      assert s == full[q].n && node == full[k].n && rest[0] == full[0] && OnPath(path, cmps, rest);
      InnerHeap(t, full, k, nil);
      assert s.red == full[q].red;
      InnerNodes(t, full, k);
      hide *;
      InnerOrder(t, full, k);
      InnerBalance(t, full, k);
      r := SwapAndPrune(node, s, path, cmps, k, q, rest, Drop(InOrder(t), node), Nodes(t) - {node});
    }

    /** Removes the node at path entry `k` given the path through its successor. */
    method RemoveAt(node: RbNode<D>, path: array<RbNode<D>>, cmps: array<int>, k: nat, i: nat,
                    ghost ctx: seq<Frame<RbNode<D>>>, ghost sub: Tree<RbNode<D>>, ghost mid: seq<Frame<RbNode<D>>>)
      returns (ghost r: Tree<RbNode<D>>)
      requires Valid() && sub.Node? && sub.n == node && k == |ctx| && AllLeft(mid)
      requires var full := ctx + [Turn(sub, false)] + mid;
               OnPath(path, cmps, full) && i == |full| && Plug(full, Nil) == t
      modifies this`root, Nodes(t), path
      ensures Holds(r, nil) && InOrder(r) == Drop(InOrder(t), node) && root == Top(r, nil) && Balanced(r)
      ensures Sorted(InOrder(r))
    {
      ghost var full := ctx + [Turn(sub, false)] + mid;
      SuccessorPath(t, ctx, sub, mid);
      assert path[i - 1] == full[i - 1].n && path[k] == full[k].n;
      assert OnPath(path, cmps, ctx) by { assert forall j :: 0 <= j < k ==> full[j] == ctx[j]; }
      hide Sorted, Balanced, InOrder, Drop, Plug, Nodes, Holds, OnPath;
      if path[i - 1] != node {
        r := RemoveInner(node, path, cmps, k, i - 1, full);
      } else {
        r := RemoveOuter(node, path, cmps, k, ctx, sub.red, sub.l);
      }
    }

    /** Takes `node` out of the tree. */
    method Remove(node: RbNode<D>)
      requires Valid() && node in Nodes(t) && |InOrder(t)| < NODES_MAX
      modifies this, Nodes(t)
      ensures Valid() && InOrder(t) == Drop(old(InOrder(t)), node) && Nodes(t) == old(Nodes(t)) - {node}
    {
      hide Sorted, Balanced, InOrder, Drop, Height, Plug, AllLeft, Nodes, Holds, CtxNodes, Turn, Winding, OnPath;
      NodesAllocated(t);
      var path, cmps := NewPath(nil);
      var k, i;
      ghost var ctx, sub, mid, r;
      k, ctx, sub := WindTo(node, path, cmps);
      WindingAt(t, ctx, sub, k, path, cmps, nil);
      i, mid := WindToSuccessor(node, k, path, cmps, ctx, sub);
      WindingAt(t, ctx + [Turn(sub, false)] + mid, Nil, i, path, cmps, nil);
      r := RemoveAt(node, path, cmps, k, i, ctx, sub, mid);
      DropNodes(t, r, node);
      t := r;
    }
  }
}
