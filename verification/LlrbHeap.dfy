/** The pointer form of oss/rb.h: nodes with child links and colours rewritten in place, a nil
    sentinel, no parent links, and a fixed-size path array. */
module LlrbHeap {
  import opened Zipper
  import opened LlrbModel

  class RbNode<D> {
    const key: int
    const data: D
    var left: RbNode<D>
    var right: RbNode<D>
    var red: bool

    constructor (key: int, data: D)
      ensures this.key == key && this.data == data && left == this && right == this && !red
    {
      this.key := key;
      this.data := data;
      left := this;
      right := this;
      red := false;
    }
  }

  /** Entries of the path array: sizeof(void *) << 4 with eight-byte pointers. */
  const PATH_MAX: nat := 128

  /** Fewer nodes than this fit in the address space. */
  const NODES_MAX: nat := 0x7fff_ffff_ffff_ffff

  ghost predicate Sorted<D>(s: seq<RbNode<D>>) {
    forall i, j :: 0 <= i < j < |s| ==> s[i].key < s[j].key
  }

  ghost function CellOf<D>(n: RbNode<D>): Cell<RbNode<D>>
    reads n
  {
    Cell(n.red, n.left, n.right)
  }

  /** The heap holds the tree `t`. */
  ghost predicate Holds<D>(t: Tree<RbNode<D>>, nil: RbNode<D>)
    reads Nodes(t)
  {
    forall n :: n in Nodes(t) ==> CellOf(n) == Look(t, n, nil)
  }

  /** The heap holds the path `ctx` and what is beside it, with `child` linked at its end. */
  ghost predicate HoldsCtx<D>(ctx: seq<Frame<RbNode<D>>>, child: RbNode<D>, nil: RbNode<D>)
    reads CtxNodes(ctx)
  {
    forall n :: n in CtxNodes(ctx) ==> CellOf(n) == CtxLook(ctx, child, n, nil)
  }

  ghost predicate AllBelow<D>(s: seq<RbNode<D>>, k: int) {
    forall i :: 0 <= i < |s| ==> s[i].key < k
  }

  ghost predicate AllAbove<D>(s: seq<RbNode<D>>, k: int) {
    forall i :: 0 <= i < |s| ==> s[i].key > k
  }

  lemma SortedSplit<D>(a: seq<RbNode<D>>, x: RbNode<D>, b: seq<RbNode<D>>)
    ensures Sorted(a + [x] + b) <==> Sorted(a) && Sorted(b) && AllBelow(a, x.key) && AllAbove(b, x.key)
  {
    var s := a + [x] + b;
    if Sorted(s) {
      assert forall i :: 0 <= i < |a| ==> s[i] == a[i];
      assert s[|a|] == x;
      assert forall i :: 0 <= i < |b| ==> s[|a| + 1 + i] == b[i];
    }
  }

  lemma {:induction false} SortedSep<D>(t: Tree<RbNode<D>>)
    requires Sorted(InOrder(t))
    ensures Sep(t)
  {
    if t.Node? {
      var a, b := InOrder(t.l), InOrder(t.r);
      SortedSplit(a, t.n, b);
      SortedSep(t.l);
      SortedSep(t.r);
      NodesInOrder(t.l, t.n);
      NodesInOrder(t.r, t.n);
      forall n | n in Nodes(t.l) ensures n !in Nodes(t.r) {
        NodesInOrder(t.l, n);
        NodesInOrder(t.r, n);
      }
    }
  }

  lemma {:induction false} NodesAllocated<D>(t: Tree<RbNode<D>>)
    ensures allocated(Nodes(t))
  {
    if t.Node? {
      NodesAllocated(t.l);
      NodesAllocated(t.r);
    }
  }

  lemma {:induction false} CtxAllocated<D>(ctx: seq<Frame<RbNode<D>>>)
    ensures allocated(CtxNodes(ctx))
  {
    if ctx != [] {
      NodesAllocated(ctx[|ctx|-1].sib);
      CtxAllocated(ctx[..|ctx|-1]);
    }
  }

  // ----- how long the path can get -----

  ghost function Pow2(n: nat): nat {
    if n == 0 then 1 else 2 * Pow2(n - 1)
  }

  /** A subtree of black height h holds at least 2^h - 1 nodes and is at most 2h + 1 deep. */
  lemma {:induction false} SubBounds<D>(t: Tree<RbNode<D>>, h: nat)
    requires Sub(t, h)
    ensures |InOrder(t)| + 1 >= Pow2(h)
    ensures Height(t) <= 2 * h + if Red(t) then 1 else 0
  {
    if t.Node? {
      var h' := if t.red then h else h - 1;
      SubBounds(t.l, h');
      SubBounds(t.r, h');
    }
  }

  lemma {:induction false} Pow2Mono(a: nat, b: nat)
    requires a <= b
    ensures Pow2(a) <= Pow2(b)
    decreases b
  {
    if a < b { Pow2Mono(a, b - 1); }
  }

  lemma Pow2At63()
    ensures Pow2(63) == 0x8000_0000_0000_0000
  {
    assert Pow2(8) == 0x100;
    assert Pow2(16) == 0x1_0000;
    assert Pow2(24) == 0x100_0000;
    assert Pow2(32) == 0x1_0000_0000;
    assert Pow2(40) == 0x100_0000_0000;
    assert Pow2(48) == 0x1_0000_0000_0000;
    assert Pow2(56) == 0x100_0000_0000_0000;
  }

  /** A balanced tree of n nodes is at most 2 log2(n + 1) deep. */
  lemma {:induction false} HeightBound<D>(t: Tree<RbNode<D>>, k: nat)
    requires Balanced(t) && |InOrder(t)| + 1 < Pow2(k + 1)
    ensures Height(t) <= 2 * k
  {
    var h := BlackHeight(t);
    SubBounds(t, h);
    if h > k { Pow2Mono(k + 1, h); }
  }

  /** Every tree that fits in the address space leaves the path array an entry to spare. */
  lemma PathFits<D>(t: Tree<RbNode<D>>)
    requires Balanced(t) && |InOrder(t)| <= NODES_MAX - 1
    ensures Height(t) + 1 < PATH_MAX
  {
    Pow2At63();
    HeightBound(t, 62);
  }

  // ----- the pointer steps -----

  /** The fields at the top of `s` are in the heap. */
  ghost predicate IsCell<D>(s: Tree<RbNode<D>>, nil: RbNode<D>)
    reads if s.Node? then {s.n} else {}
  {
    s.Node? ==> CellOf(s.n) == Cell(s.red, Top(s.l, nil), Top(s.r, nil))
  }

  lemma HoldsCell<D>(t: Tree<RbNode<D>>, nil: RbNode<D>)
    requires Holds(t, nil) && Sep(t)
    ensures IsCell(t, nil)
    ensures t.Node? ==> Holds(t.l, nil) && Holds(t.r, nil) && Sep(t.l) && Sep(t.r)
    ensures t.Node? ==> t.n !in Nodes(t.l) && t.n !in Nodes(t.r) && Nodes(t.l) !! Nodes(t.r)
    ensures t.Node? ==> Nodes(t) == Nodes(t.l) + {t.n} + Nodes(t.r)
  {
  }

  lemma HoldsPlug<D>(ctx: seq<Frame<RbNode<D>>>, t: Tree<RbNode<D>>, nil: RbNode<D>)
    requires Sep(Plug(ctx, t))
    ensures Holds(Plug(ctx, t), nil) <==> HoldsCtx(ctx, Top(t, nil), nil) && Holds(t, nil)
  {
    PlugNodes(ctx, t);
    forall n | n in Nodes(Plug(ctx, t))
      ensures n in CtxNodes(ctx) ==> Look(Plug(ctx, t), n, nil) == CtxLook(ctx, Top(t, nil), n, nil)
      ensures n in Nodes(t) ==> Look(Plug(ctx, t), n, nil) == Look(t, n, nil)
    {
      LookPlug(ctx, t, n, nil);
    }
  }

  /** One iteration of the unwind loop of insert, when the path went left. */
  method InsertFixLeft<D>(cnode: RbNode<D>, left: RbNode<D>, nil: RbNode<D>, ghost f: Frame<RbNode<D>>,
                          ghost t: Tree<RbNode<D>>)
    returns (top: RbNode<D>, done: bool)
    requires cnode == f.n && f.left && t.Node? && left == t.n && IsCell(Join(f, t), nil) && IsCell(t, nil)
    requires IsCell(t.l, nil)
    requires f.n != t.n && (t.l.Node? ==> t.l.n !in {f.n, t.n}) && !nil.red
    modifies InsertCells(f, t, nil).Keys
    ensures top == Top(InsertStep(f, t).t, nil) && done == InsertStep(f, t).done
    ensures forall n :: n in InsertCells(f, t, nil) ==> CellOf(n) == InsertCells(f, t, nil)[n]
  {
    top, done := cnode, false;
    if left.red {
      var leftleft := left.left;
      if leftleft.red {
        // Fix up 4-node.
        leftleft.red := false;
        top := cnode.left;
        cnode.left := top.right;
        top.right := cnode;
      }
    } else {
      done := true;
    }
  }

  /** The same, when the path went right. */
  method InsertFixRight<D>(cnode: RbNode<D>, right: RbNode<D>, nil: RbNode<D>, ghost f: Frame<RbNode<D>>,
                           ghost t: Tree<RbNode<D>>)
    returns (top: RbNode<D>, done: bool)
    requires cnode == f.n && !f.left && t.Node? && right == t.n && IsCell(Join(f, t), nil) && IsCell(t, nil)
    requires IsCell(f.sib, nil)
    requires f.n != t.n && (f.sib.Node? ==> f.sib.n !in {f.n, t.n}) && !nil.red
    modifies InsertCells(f, t, nil).Keys
    ensures top == Top(InsertStep(f, t).t, nil) && done == InsertStep(f, t).done
    ensures forall n :: n in InsertCells(f, t, nil) ==> CellOf(n) == InsertCells(f, t, nil)[n]
  {
    top, done := cnode, false;
    if right.red {
      var left := cnode.left;
      if left.red {
        // Split 4-node.
        left.red := false;
        right.red := false;
        cnode.red := true;
      } else {
        // Lean left.
        var tred := cnode.red;
        top := cnode.right;
        cnode.right := top.left;
        top.left := cnode;
        top.red := tred;
        cnode.red := true;
      }
    } else {
      done := true;
    }
  }

  /** What the unwind loop of remove does next: go on upwards, return, or link the new top of the
      subtree into the entry above and return. */
  datatype Next = Climb | Return | Relink

  /** One iteration of the unwind loop of remove, when the path went left. */
  method RemoveFixLeft<D>(p: RbNode<D>, nil: RbNode<D>, ghost f: Frame<RbNode<D>>, ghost t: Tree<RbNode<D>>)
    returns (top: RbNode<D>, next: Next)
    requires p == f.n && f.left && Steppable(f) && IsCell(Join(f, t), nil) && IsCell(f.sib, nil) && IsCell(f.sib.l, nil)
    requires f.n != f.sib.n && (f.sib.l.Node? ==> f.sib.l.n !in {f.n, f.sib.n}) && !nil.red
    modifies RemoveCells(f, t, nil).Keys
    ensures top == Top(RemoveStep(f, t).t, nil)
    ensures forall n :: n in RemoveCells(f, t, nil) ==> CellOf(n) == RemoveCells(f, t, nil)[n]
    ensures (next.Climb? <==> !RemoveStep(f, t).done) && (next.Return? ==> top == p)
  {
    var right := p.right;
    var rightleft := right.left;
    if p.red {
      if rightleft.red {
        p.red := false;
        top := right.left;
        right.left := top.right;
        top.right := right;
        p.right := top;
        top := p.right;
        p.right := top.left;
        top.left := p;
      } else {
        top := p.right;
        p.right := top.left;
        top.left := p;
      }
      next := Relink;
    } else {
      if rightleft.red {
        rightleft.red := false;
        top := right.left;
        right.left := top.right;
        top.right := right;
        p.right := top;
        top := p.right;
        p.right := top.left;
        top.left := p;
        next := Relink;
      } else {
        p.red := true;
        top := p.right;
        p.right := top.left;
        top.left := p;
        next := Climb;
      }
    }
  }

  /** The same, when the path went right and the left sibling is red. */
  method RemoveFixRightRed<D>(p: RbNode<D>, left: RbNode<D>, nil: RbNode<D>, ghost f: Frame<RbNode<D>>,
                              ghost t: Tree<RbNode<D>>)
    returns (top: RbNode<D>)
    requires p == f.n && !f.left && Steppable(f) && f.sib.red && left == f.sib.n
    requires IsCell(Join(f, t), nil) && IsCell(f.sib, nil) && IsCell(f.sib.r, nil) && IsCell(f.sib.r.l, nil)
    requires f.n != f.sib.n && f.sib.r.n !in {f.n, f.sib.n}
    requires f.sib.r.l.Node? ==> f.sib.r.l.n !in {f.n, f.sib.n, f.sib.r.n}
    requires !nil.red
    modifies RemoveCells(f, t, nil).Keys
    ensures top == Top(RemoveStep(f, t).t, nil)
    ensures forall n :: n in RemoveCells(f, t, nil) ==> CellOf(n) == RemoveCells(f, t, nil)[n]
  {
    var leftright := left.right;
    var leftrightleft := leftright.left;
    if leftrightleft.red {
      leftrightleft.red := false;
      var unode := p.left;
      p.left := unode.right;
      unode.right := p;
      top := p.left;
      p.left := top.right;
      top.right := p;
      unode.right := top;
      top := unode.right;
      unode.right := top.left;
      top.left := unode;
    } else {
      leftright.red := true;
      top := p.left;
      p.left := top.right;
      top.right := p;
      top.red := false;
    }
  }

  /** The same, when the path went right and the left sibling is black. */
  method RemoveFixRightBlack<D>(p: RbNode<D>, left: RbNode<D>, nil: RbNode<D>, ghost f: Frame<RbNode<D>>,
                                ghost t: Tree<RbNode<D>>)
    returns (top: RbNode<D>, next: Next)
    requires p == f.n && !f.left && Steppable(f) && !f.sib.red && left == f.sib.n
    requires IsCell(Join(f, t), nil) && IsCell(f.sib, nil) && IsCell(f.sib.l, nil)
    requires f.n != f.sib.n && (f.sib.l.Node? ==> f.sib.l.n !in {f.n, f.sib.n}) && !nil.red
    modifies RemoveCells(f, t, nil).Keys
    ensures top == Top(RemoveStep(f, t).t, nil)
    ensures forall n :: n in RemoveCells(f, t, nil) ==> CellOf(n) == RemoveCells(f, t, nil)[n]
    ensures (next.Climb? <==> !RemoveStep(f, t).done) && (next.Return? ==> top == p)
  {
    var leftleft := left.left;
    if p.red {
      if leftleft.red {
        p.red := false;
        left.red := true;
        leftleft.red := false;
        top := p.left;
        p.left := top.right;
        top.right := p;
        next := Relink;
      } else {
        left.red := true;
        p.red := false;
        top := p;
        next := Return;
      }
    } else {
      if leftleft.red {
        leftleft.red := false;
        top := p.left;
        p.left := top.right;
        top.right := p;
        next := Relink;
      } else {
        left.red := true;
        top := p;
        next := Climb;
      }
    }
  }

  /** The state inside an unwind loop: the path `ctx` and the subtree `t` are in the heap, but the
      last path entry may still link to `stale` instead of `t`. */
  ghost predicate Unwinding<D>(ctx: seq<Frame<RbNode<D>>>, t: Tree<RbNode<D>>, stale: RbNode<D>, nil: RbNode<D>)
    reads CtxNodes(ctx), Nodes(t), nil
  {
    && HoldsCtx(ctx, stale, nil) && Holds(t, nil) && Sep(Plug(ctx, t))
    && nil !in CtxNodes(ctx) && nil !in Nodes(t) && !nil.red
  }

  /** Sets the link from the last path entry to the subtree below it. */
  method Link<D>(p: RbNode<D>, child: RbNode<D>, less: bool, ghost ctx: seq<Frame<RbNode<D>>>, ghost t: Tree<RbNode<D>>,
                 ghost stale: RbNode<D>, ghost nil: RbNode<D>)
    requires Unwinding(ctx, t, stale, nil) && child == Top(t, nil)
    requires ctx != [] && p == ctx[|ctx|-1].n && less == ctx[|ctx|-1].left
    modifies p
    ensures p.red == old(p.red)
    ensures Holds(Join(ctx[|ctx|-1], t), nil) && HoldsCtx(ctx[..|ctx|-1], p, nil) && Sep(Join(ctx[|ctx|-1], t))
    ensures Nodes(Join(ctx[|ctx|-1], t)) !! CtxNodes(ctx[..|ctx|-1])
    ensures HoldsCtx(ctx, child, nil)
  {
    ghost var f, rest := ctx[|ctx|-1], ctx[..|ctx|-1];
    PlugSep(ctx, t);
    PlugSep(rest, Join(f, t));
    assert p in CtxNodes(ctx);
    if less {
      p.left := child;
    } else {
      p.right := child;
    }
  }

  /** What an iteration of the unwind loop of insert does below the path entry `cnode`. */
  method InsertRebalance<D>(cnode: RbNode<D>, child: RbNode<D>, less: bool, nil: RbNode<D>,
                            ghost f: Frame<RbNode<D>>, ghost t: Tree<RbNode<D>>)
    returns (top: RbNode<D>, done: bool)
    requires cnode == f.n && less == f.left && t.Node? && child == t.n && !nil.red
    requires Holds(Join(f, t), nil) && Sep(Join(f, t))
    modifies Nodes(Join(f, t))
    ensures top == Top(InsertStep(f, t).t, nil) && done == InsertStep(f, t).done
    ensures Holds(InsertStep(f, t).t, nil)
  {
    NodesAllocated(Join(f, t));
    HoldsCell(Join(f, t), nil);
    HoldsCell(t, nil);
    if less {
      HoldsCell(t.l, nil);
      top, done := InsertFixLeft(cnode, child, nil, f, t);
    } else {
      HoldsCell(f.sib, nil);
      top, done := InsertFixRight(cnode, child, nil, f, t);
    }
    ghost var r := InsertStep(f, t).t;
    InsertStepInOrder(f, t);
    SameOrder(r, Join(f, t));
    forall n | n in Nodes(r) ensures CellOf(n) == Look(r, n, nil) {
      InsertStepLook(f, t, n, nil);
    }
  }

  /** One iteration of the unwind loop of insert. */
  method InsertUnwindStep<D>(cnode: RbNode<D>, child: RbNode<D>, less: bool, nil: RbNode<D>,
                             ghost ctx: seq<Frame<RbNode<D>>>, ghost t: Tree<RbNode<D>>, ghost stale: RbNode<D>)
    returns (top: RbNode<D>, done: bool)
    requires Unwinding(ctx, t, stale, nil) && t.Node? && child == t.n
    requires ctx != [] && cnode == ctx[|ctx|-1].n && less == ctx[|ctx|-1].left
    modifies Nodes(Join(ctx[|ctx|-1], t))
    ensures var s := InsertStep(ctx[|ctx|-1], t);
            top == Top(s.t, nil) && done == s.done && Unwinding(ctx[..|ctx|-1], s.t, cnode, nil)
  {
    ghost var f, rest := ctx[|ctx|-1], ctx[..|ctx|-1];
    CtxAllocated(rest);
    Link(cnode, child, less, ctx, t, stale, nil);
    top, done := InsertRebalance(cnode, child, less, nil, f, t);
    InsertStepInOrder(f, t);
    StepSep(ctx, t, InsertStep(f, t).t);
  }

  /** What an iteration of the unwind loop of remove does below the path entry `p`, whose path went right. */
  method RemoveFixRight<D>(p: RbNode<D>, nil: RbNode<D>, ghost f: Frame<RbNode<D>>, ghost t: Tree<RbNode<D>>)
    returns (top: RbNode<D>, next: Next)
    requires p == f.n && !f.left && Steppable(f) && !nil.red
    requires Holds(Join(f, t), nil) && Sep(Join(f, t))
    modifies RemoveCells(f, t, nil).Keys
    ensures top == Top(RemoveStep(f, t).t, nil)
    ensures forall n :: n in RemoveCells(f, t, nil) ==> CellOf(n) == RemoveCells(f, t, nil)[n]
    ensures (next.Climb? <==> !RemoveStep(f, t).done) && (next.Return? ==> top == p)
  {
    HoldsCell(Join(f, t), nil);
    HoldsCell(f.sib, nil);
    var left := p.left;
    if left.red {
      HoldsCell(f.sib.r, nil);
      HoldsCell(f.sib.r.l, nil);
      top := RemoveFixRightRed(p, left, nil, f, t);
      next := Relink;
    } else {
      HoldsCell(f.sib.l, nil);
      top, next := RemoveFixRightBlack(p, left, nil, f, t);
    }
  }

  method RemoveRebalance<D>(p: RbNode<D>, less: bool, nil: RbNode<D>, ghost f: Frame<RbNode<D>>,
                            ghost t: Tree<RbNode<D>>)
    returns (top: RbNode<D>, next: Next)
    requires p == f.n && less == f.left && Steppable(f) && !nil.red
    requires Holds(Join(f, t), nil) && Sep(Join(f, t))
    modifies Nodes(Join(f, t))
    ensures top == Top(RemoveStep(f, t).t, nil) && Holds(RemoveStep(f, t).t, nil)
    ensures (next.Climb? <==> !RemoveStep(f, t).done) && (next.Return? ==> top == p)
  {
    ghost var r := RemoveStep(f, t).t;
    RemoveStepInOrder(f, t);
    SameOrder(r, Join(f, t));
    NodesAllocated(Join(f, t));
    CellsInside(f, t, nil);
    if less {
      HoldsCell(Join(f, t), nil);
      HoldsCell(f.sib, nil);
      HoldsCell(f.sib.l, nil);
      top, next := RemoveFixLeft(p, nil, f, t);
    } else {
      top, next := RemoveFixRight(p, nil, f, t);
    }
    forall n | n in Nodes(r) ensures CellOf(n) == Look(r, n, nil) {
      RemoveStepLook(f, t, n, nil);
    }
  }

  lemma CellsInside<D>(f: Frame<RbNode<D>>, t: Tree<RbNode<D>>, nil: RbNode<D>)
    requires Steppable(f)
    ensures RemoveCells(f, t, nil).Keys <= Nodes(Join(f, t))
  {
    assert Nodes(f.sib) <= Nodes(Join(f, t));
    assert Nodes(f.sib.l) <= Nodes(f.sib) && Nodes(f.sib.r) <= Nodes(f.sib);
    assert f.sib.r.Node? ==> Nodes(f.sib.r.l) <= Nodes(f.sib.r);
  }

  /** One iteration of the unwind loop of remove. */
  method RemoveUnwindStep<D>(p: RbNode<D>, child: RbNode<D>, less: bool, nil: RbNode<D>,
                             ghost ctx: seq<Frame<RbNode<D>>>, ghost t: Tree<RbNode<D>>, ghost stale: RbNode<D>)
    returns (top: RbNode<D>, next: Next)
    requires Unwinding(ctx, t, stale, nil) && child == Top(t, nil)
    requires ctx != [] && p == ctx[|ctx|-1].n && less == ctx[|ctx|-1].left && Steppable(ctx[|ctx|-1])
    modifies Nodes(Join(ctx[|ctx|-1], t))
    ensures var s := RemoveStep(ctx[|ctx|-1], t);
            top == Top(s.t, nil) && (next.Climb? <==> !s.done) && Unwinding(ctx[..|ctx|-1], s.t, p, nil)
    ensures next.Return? ==> top == p
  {
    ghost var f, rest := ctx[|ctx|-1], ctx[..|ctx|-1];
    CtxAllocated(rest);
    Link(p, child, less, ctx, t, stale, nil);
    top, next := RemoveRebalance(p, less, nil, f, t);
    RemoveStepInOrder(f, t);
    StepSep(ctx, t, RemoveStep(f, t).t);
  }
}
