/** The left-leaning 2-3 red-black tree of oss/rb.h on values: what one step of each unwind loop
    does to the subtree at the current path entry, and why the tree stays balanced. */
module LlrbModel {
  import opened Zipper

  /** `t` is a legal subtree with `h` black nodes on every downward path. */
  ghost predicate Sub<N>(t: Tree<N>, h: nat) {
    if t.Nil? then h == 0
    else if t.red then Sub(t.l, h) && Sub(t.r, h) && !Red(t.l) && !Red(t.r)
    else h > 0 && Sub(t.l, h - 1) && Sub(t.r, h - 1) && !Red(t.r)
  }

  ghost function BlackHeight<N>(t: Tree<N>): nat {
    if t.Nil? then 0 else BlackHeight(t.l) + if t.red then 0 else 1
  }

  /** A left-leaning 2-3 red-black tree: black root, no right-leaning red link, no two red
      links in a row, equal black height everywhere. */
  ghost predicate Balanced<N>(t: Tree<N>) {
    !Red(t) && Sub(t, BlackHeight(t))
  }

  lemma {:induction false} SubHeight<N>(t: Tree<N>, h: nat)
    requires Sub(t, h)
    ensures h == BlackHeight(t)
  {
    if t.Node? {
      SubHeight(t.l, if t.red then h else h - 1);
    }
  }

  /** Whether a red subtree may hang off the end of the path. */
  ghost predicate RedOk<N>(ctx: seq<Frame<N>>) {
    ctx != [] && !ctx[|ctx|-1].red && ctx[|ctx|-1].left
  }

  /** The path is legal above a subtree of black height `h`. */
  ghost predicate CtxOk<N>(ctx: seq<Frame<N>>, h: nat) {
    ctx != [] ==>
      var f := ctx[|ctx|-1];
      var rest := ctx[..|ctx|-1];
      && Sub(f.sib, h)
      && (f.left || f.red ==> !Red(f.sib))
      && (f.red ==> RedOk(rest))
      && CtxOk(rest, if f.red then h else h + 1)
  }

  ghost predicate Fits<N>(ctx: seq<Frame<N>>, t: Tree<N>, h: nat) {
    Sub(t, h) && CtxOk(ctx, h) && (Red(t) ==> RedOk(ctx))
  }

  /** A tree is balanced exactly when the path and the subtree at its end fit. */
  lemma {:induction false} PlugBalanced<N>(ctx: seq<Frame<N>>, t: Tree<N>, h: nat)
    requires Fits(ctx, t, h)
    ensures Balanced(Plug(ctx, t))
  {
    if ctx == [] {
      SubHeight(t, h);
    } else {
      var f := ctx[|ctx|-1];
      PlugBalanced(ctx[..|ctx|-1], Join(f, t), if f.red then h else h + 1);
    }
  }

  lemma {:induction false} BalancedFits<N>(ctx: seq<Frame<N>>, t: Tree<N>) returns (h: nat)
    requires Balanced(Plug(ctx, t))
    ensures Fits(ctx, t, h)
  {
    if ctx == [] {
      h := BlackHeight(t);
    } else {
      var f := ctx[|ctx|-1];
      h := BalancedFits(ctx[..|ctx|-1], Join(f, t));
      h := if f.red then h else h - 1;
    }
  }

  /** What one iteration of an unwind loop leaves at the current path entry: `done` when the
      loop returns there, leaving everything above as it is. */
  datatype Step<N> = Step(t: Tree<N>, done: bool)

  ghost function Blacken<N>(t: Tree<N>): Tree<N> {
    if t.Nil? then t else t.(red := false)
  }

  ghost function Redden<N>(t: Tree<N>): Tree<N> {
    if t.Nil? then t else t.(red := true)
  }

  // ----- insert -----

  /** One iteration of the unwind loop of insert: `t` is the rebuilt child on the path. */
  ghost function InsertStep<N>(f: Frame<N>, t: Tree<N>): Step<N> {
    if f.left then
      if Red(t) then
        if Red(t.l) then
          // Fix up 4-node.
          Step(Node(t.n, true, Blacken(t.l), Node(f.n, f.red, t.r, f.sib)), false)
        else
          Step(Join(f, t), false)
      else
        Step(Join(f, t), true)
    else if Red(t) then
      if Red(f.sib) then
        // Split 4-node.
        Step(Node(f.n, true, Blacken(f.sib), Blacken(t)), false)
      else
        // Lean left.
        Step(Node(t.n, f.red, Node(f.n, true, f.sib, t.l), t.r), false)
    else
      Step(Join(f, t), true)
  }

  /** The unwind loop of insert, followed by the blackening of the root. */
  ghost function InsertUnwind<N>(ctx: seq<Frame<N>>, t: Tree<N>): Tree<N>
    decreases |ctx|
  {
    if ctx == [] then Blacken(t)
    else
      var s := InsertStep(ctx[|ctx|-1], t);
      var rest := ctx[..|ctx|-1];
      if s.done then Plug(rest, s.t) else InsertUnwind(rest, s.t)
  }

  /** The state of the subtree inside the unwind loop: legal but for a red root that may have a
      red left child. `lean` records that the latter happened, which only a red path entry allows. */
  ghost predicate Pending<N>(t: Tree<N>, h: nat) {
    || Sub(t, h)
    || (t.Node? && t.red && Sub(t.l, h) && Sub(t.r, h) && Red(t.l) && !Red(t.r))
  }

  ghost predicate InsertInv<N>(ctx: seq<Frame<N>>, t: Tree<N>, h: nat) {
    && CtxOk(ctx, h) && Pending(t, h)
    && (!Sub(t, h) ==> ctx == [] || RedOk(ctx))
  }

  lemma InsertStepKeeps<N>(ctx: seq<Frame<N>>, t: Tree<N>, h: nat)
    requires ctx != [] && InsertInv(ctx, t, h)
    ensures var f := ctx[|ctx|-1];
            var s := InsertStep(f, t);
            var rest := ctx[..|ctx|-1];
            var h' := if f.red then h else h + 1;
            if s.done then Fits(rest, s.t, h') else InsertInv(rest, s.t, h')
  {
  }

  lemma {:induction false} InsertUnwindBalanced<N>(ctx: seq<Frame<N>>, t: Tree<N>, h: nat)
    requires InsertInv(ctx, t, h)
    ensures Balanced(InsertUnwind(ctx, t))
    decreases |ctx|
  {
    if ctx == [] {
      SubHeight(Blacken(t), if Red(t) then h + 1 else h);
    } else {
      InsertStepKeeps(ctx, t, h);
      var f := ctx[|ctx|-1];
      var s := InsertStep(f, t);
      var h' := if f.red then h else h + 1;
      if s.done {
        PlugBalanced(ctx[..|ctx|-1], s.t, h');
      } else {
        InsertUnwindBalanced(ctx[..|ctx|-1], s.t, h');
      }
    }
  }

  lemma InsertUnwound<N>(ctx: seq<Frame<N>>, t: Tree<N>)
    ensures ctx == [] ==> InsertUnwind(ctx, t) == Blacken(t)
    ensures ctx != [] ==>
              var s, rest := InsertStep(ctx[|ctx|-1], t), ctx[..|ctx|-1];
              InsertUnwind(ctx, t) == if s.done then Plug(rest, s.t) else InsertUnwind(rest, s.t)
  {
  }

  lemma {:induction false} InsertStepInOrder<N>(f: Frame<N>, t: Tree<N>)
    ensures InOrder(InsertStep(f, t).t) == InOrder(Join(f, t))
  {
    if f.left && Red(t) && Red(t.l) {
      assert InOrder(Blacken(t.l)) == InOrder(t.l);
    } else if !f.left && Red(t) && Red(f.sib) {
      assert InOrder(Blacken(t)) == InOrder(t);
      assert InOrder(Blacken(f.sib)) == InOrder(f.sib);
    }
  }

  lemma {:induction false} InsertUnwindInOrder<N>(ctx: seq<Frame<N>>, t: Tree<N>)
    ensures InOrder(InsertUnwind(ctx, t)) == Before(ctx) + InOrder(t) + After(ctx)
    decreases |ctx|
  {
    if ctx == [] {
      assert InOrder(Blacken(t)) == InOrder(t);
    } else {
      var f, rest := ctx[|ctx|-1], ctx[..|ctx|-1];
      var s := InsertStep(f, t);
      calc {
        InOrder(InsertUnwind(ctx, t));
        { if s.done { PlugInOrder(rest, s.t); } else { InsertUnwindInOrder(rest, s.t); } }
        Before(rest) + InOrder(s.t) + After(rest);
        { InsertStepInOrder(f, t); }
        Before(rest) + InOrder(Join(f, t)) + After(rest);
        { AroundJoin(ctx, t); }
        Before(ctx) + InOrder(t) + After(ctx);
      }
    }
  }

  // ----- remove -----

  /** One iteration of the unwind loop of remove: `t` is one black node short. */
  ghost function RemoveStep<N>(f: Frame<N>, t: Tree<N>): Step<N>
    requires f.sib.Node?
    requires !f.left && f.sib.red ==> f.sib.r.Node?
  {
    if f.left then
      var right := f.sib;
      if Red(right.l) then
        // The sibling has a red left child: a double rotation, and the loop returns.
        Step(Node(right.l.n, f.red, Node(f.n, false, t, right.l.l),
                  Node(right.n, right.red, right.l.r, right.r)), true)
      else if f.red then
        Step(Node(right.n, right.red, Node(f.n, true, t, right.l), right.r), true)
      else
        Step(Node(right.n, right.red, Node(f.n, true, t, right.l), right.r), false)
    else
      var left := f.sib;
      if left.red then
        var leftright := left.r;
        if Red(leftright.l) then
          Step(Node(leftright.n, leftright.red, Node(left.n, left.red, left.l, Blacken(leftright.l)),
                    Node(f.n, f.red, leftright.r, t)), true)
        else
          Step(Node(left.n, false, left.l, Node(f.n, f.red, Redden(leftright), t)), true)
      else if Red(left.l) then
        // Rotate right; the new root keeps the colour of the path entry.
        Step(Node(left.n, f.red, Blacken(left.l), Node(f.n, false, left.r, t)), true)
      else
        // Recolour; a red path entry absorbs the missing black node.
        Step(Node(f.n, false, Redden(left), t), f.red)
  }

  /** What the unwind loop needs of the frame it works on. */
  ghost predicate Steppable<N>(f: Frame<N>) {
    f.sib.Node? && (!f.left && f.sib.red ==> f.sib.r.Node?)
  }

  /** Every sibling along the path has the nodes the rotations move. */
  ghost predicate AllSteppable<N>(ctx: seq<Frame<N>>) {
    forall i :: 0 <= i < |ctx| ==> Steppable(ctx[i])
  }

  ghost function RemoveUnwind<N>(ctx: seq<Frame<N>>, t: Tree<N>): Tree<N>
    requires AllSteppable(ctx)
    decreases |ctx|
  {
    if ctx == [] then t
    else
      var s := RemoveStep(ctx[|ctx|-1], t);
      var rest := ctx[..|ctx|-1];
      if s.done then Plug(rest, s.t) else RemoveUnwind(rest, s.t)
  }

  /** The path is legal for a subtree one black node higher than `t`. */
  ghost predicate Short<N>(ctx: seq<Frame<N>>, t: Tree<N>, h: nat) {
    Sub(t, h) && !Red(t) && CtxOk(ctx, h + 1)
  }

  lemma {:induction false} ShortSteppable<N>(ctx: seq<Frame<N>>, h: nat)
    requires CtxOk(ctx, h + 1)
    ensures AllSteppable(ctx)
    decreases |ctx|
  {
    if ctx != [] {
      var f := ctx[|ctx|-1];
      ShortSteppable(ctx[..|ctx|-1], if f.red then h else h + 1);
      assert f.sib.red ==> Sub(f.sib.r, h + 1);
      forall i | 0 <= i < |ctx| ensures Steppable(ctx[i]) {
        if i < |ctx| - 1 { assert ctx[i] == ctx[..|ctx|-1][i]; }
      }
    }
  }

  lemma RemoveStepKeeps<N>(ctx: seq<Frame<N>>, t: Tree<N>, h: nat)
    requires ctx != [] && Short(ctx, t, h)
    ensures var f := ctx[|ctx|-1];
            Steppable(f) &&
            var s := RemoveStep(f, t);
            var rest := ctx[..|ctx|-1];
            if s.done then Fits(rest, s.t, if f.red then h + 1 else h + 2)
            else !f.red && Short(rest, s.t, h + 1)
  {
    var sib := ctx[|ctx|-1].sib;
    var h' := if sib.red then h + 1 else h;
    assert Sub(sib.l, h') && Sub(sib.r, h');
    assert sib.l.Node? ==> Sub(sib.l.l, if sib.l.red then h' else h' - 1);
    if sib.red {
      var lr := sib.r;
      assert Sub(lr.l, h) && Sub(lr.r, h);
      assert Red(lr.l) ==> Sub(Blacken(lr.l), h + 1);
    }
    assert Red(sib.l) ==> Sub(Blacken(sib.l), h' + 1);
  }

  lemma {:induction false} RemoveUnwindBalanced<N>(ctx: seq<Frame<N>>, t: Tree<N>, h: nat)
    requires Short(ctx, t, h)
    ensures AllSteppable(ctx) && Balanced(RemoveUnwind(ctx, t))
    decreases |ctx|
  {
    ShortSteppable(ctx, h);
    if ctx == [] {
      SubHeight(t, h);
    } else {
      RemoveStepKeeps(ctx, t, h);
      var f := ctx[|ctx|-1];
      var s := RemoveStep(f, t);
      if s.done {
        PlugBalanced(ctx[..|ctx|-1], s.t, if f.red then h + 1 else h + 2);
      } else {
        RemoveUnwindBalanced(ctx[..|ctx|-1], s.t, h + 1);
      }
    }
  }

  lemma RemoveUnwound<N>(ctx: seq<Frame<N>>, t: Tree<N>, h: nat)
    requires Short(ctx, t, h)
    ensures AllSteppable(ctx) && (ctx == [] ==> RemoveUnwind(ctx, t) == t)
    ensures ctx != [] ==>
              var s, rest := RemoveStep(ctx[|ctx|-1], t), ctx[..|ctx|-1];
              AllSteppable(rest) && RemoveUnwind(ctx, t) == if s.done then Plug(rest, s.t) else RemoveUnwind(rest, s.t)
  {
    ShortSteppable(ctx, h);
  }

  lemma {:induction false} RemoveStepInOrder<N>(f: Frame<N>, t: Tree<N>)
    requires Steppable(f)
    ensures InOrder(RemoveStep(f, t).t) == InOrder(Join(f, t))
  {
    if f.left { RemoveStepInOrderLeft(f, t); } else { RemoveStepInOrderRight(f, t); }
  }

  lemma {:induction false} RemoveStepInOrderLeft<N>(f: Frame<N>, t: Tree<N>)
    requires Steppable(f) && f.left
    ensures InOrder(RemoveStep(f, t).t) == InOrder(Join(f, t))
  {
    var right := f.sib;
    if Red(right.l) {
      var rl := right.l;
      calc {
        InOrder(RemoveStep(f, t).t);
        (InOrder(t) + [f.n] + InOrder(rl.l)) + [rl.n] + (InOrder(rl.r) + [right.n] + InOrder(right.r));
        InOrder(t) + [f.n] + ((InOrder(rl.l) + [rl.n] + InOrder(rl.r)) + [right.n] + InOrder(right.r));
        { assert InOrder(rl) == InOrder(rl.l) + [rl.n] + InOrder(rl.r); }
        InOrder(Join(f, t));
      }
    } else {
      calc {
        InOrder(RemoveStep(f, t).t);
        (InOrder(t) + [f.n] + InOrder(right.l)) + [right.n] + InOrder(right.r);
        InOrder(t) + [f.n] + (InOrder(right.l) + [right.n] + InOrder(right.r));
        InOrder(Join(f, t));
      }
    }
  }

  lemma {:induction false} RemoveStepInOrderRight<N>(f: Frame<N>, t: Tree<N>)
    requires Steppable(f) && !f.left
    ensures InOrder(RemoveStep(f, t).t) == InOrder(Join(f, t))
  {
    var left := f.sib;
    var ll, lr := left.l, left.r;
    if left.red && Red(lr.l) {
      var m := lr.l;
      calc {
        InOrder(RemoveStep(f, t).t);
        { assert InOrder(Blacken(m)) == InOrder(m); }
        (InOrder(ll) + [left.n] + InOrder(m)) + [lr.n] + (InOrder(lr.r) + [f.n] + InOrder(t));
        (InOrder(ll) + [left.n] + (InOrder(m) + [lr.n] + InOrder(lr.r))) + [f.n] + InOrder(t);
        { assert InOrder(lr) == InOrder(m) + [lr.n] + InOrder(lr.r); }
        InOrder(Join(f, t));
      }
    } else if left.red || Red(ll) {
      calc {
        InOrder(RemoveStep(f, t).t);
        { assert InOrder(Redden(lr)) == InOrder(lr); assert InOrder(Blacken(ll)) == InOrder(ll); }
        InOrder(ll) + [left.n] + (InOrder(lr) + [f.n] + InOrder(t));
        (InOrder(ll) + [left.n] + InOrder(lr)) + [f.n] + InOrder(t);
        InOrder(Join(f, t));
      }
    } else {
      assert InOrder(Redden(left)) == InOrder(left);
    }
  }

  lemma {:induction false} RemoveUnwindInOrder<N>(ctx: seq<Frame<N>>, t: Tree<N>)
    requires AllSteppable(ctx)
    ensures InOrder(RemoveUnwind(ctx, t)) == Before(ctx) + InOrder(t) + After(ctx)
    decreases |ctx|
  {
    if ctx != [] {
      var f, rest := ctx[|ctx|-1], ctx[..|ctx|-1];
      var s := RemoveStep(f, t);
      calc {
        InOrder(RemoveUnwind(ctx, t));
        { if s.done { PlugInOrder(rest, s.t); } else { RemoveUnwindInOrder(rest, s.t); } }
        Before(rest) + InOrder(s.t) + After(rest);
        { RemoveStepInOrder(f, t); }
        Before(rest) + InOrder(Join(f, t)) + After(rest);
        { AroundJoin(ctx, t); }
        Before(ctx) + InOrder(t) + After(ctx);
      }
    }
  }

  lemma {:induction false} RenameOk<N>(ctx: seq<Frame<N>>, k: nat, s: N, h: nat)
    requires k < |ctx| && CtxOk(ctx, h)
    ensures CtxOk(Rename(ctx, k, s), h)
    ensures RedOk(Rename(ctx, k, s)) <==> RedOk(ctx)
    decreases |ctx|
  {
    var f := ctx[|ctx|-1];
    var h' := if f.red then h else h + 1;
    if k == |ctx| - 1 {
      assert Rename(ctx, k, s)[..k] == ctx[..k];
    } else {
      RenamePop(ctx, k, s);
      RenameOk(ctx[..|ctx|-1], k, s, h');
    }
  }

  /** What the balance of the tree says about the last node of a path that ends at nil. */
  lemma LastEntry<N>(ctx: seq<Frame<N>>)
    requires ctx != [] && Balanced(Plug(ctx, Nil))
    ensures var f, rest := ctx[|ctx|-1], ctx[..|ctx|-1];
            && (f.left ==> f.sib == Nil)
            && (!f.left && f.sib.Node? ==> Red(f.sib) && !f.red && Fits(rest, Blacken(f.sib), 1))
            && (f.sib == Nil && f.red ==> RedOk(rest) && CtxOk(rest, 0))
            && (f.sib == Nil && !f.red ==> Short(rest, Nil, 0))
  {
    var h := BalancedFits(ctx, Nil);
  }

  // ----- the fields each step writes -----

  /** The new fields of the nodes one iteration of the unwind loop of insert touches. */
  ghost function InsertCells<N>(f: Frame<N>, t: Tree<N>, nil: N): map<N, Cell<N>> {
    if f.left && Red(t) && Red(t.l) then
      map[f.n := Cell(f.red, Top(t.r, nil), Top(f.sib, nil)),
          t.n := Cell(true, t.l.n, f.n),
          t.l.n := Cell(false, Top(t.l.l, nil), Top(t.l.r, nil))]
    else if !f.left && Red(t) && Red(f.sib) then
      map[f.n := Cell(true, f.sib.n, t.n),
          f.sib.n := Cell(false, Top(f.sib.l, nil), Top(f.sib.r, nil)),
          t.n := Cell(false, Top(t.l, nil), Top(t.r, nil))]
    else if !f.left && Red(t) then
      map[f.n := Cell(true, Top(f.sib, nil), Top(t.l, nil)),
          t.n := Cell(f.red, f.n, Top(t.r, nil))]
    else map[]
  }

  lemma InsertStepLook<N>(f: Frame<N>, t: Tree<N>, n: N, nil: N)
    requires Sep(Join(f, t)) && n in Nodes(Join(f, t))
    ensures var r := InsertStep(f, t).t;
            var cells := InsertCells(f, t, nil);
            Sep(r) && n in Nodes(r)
            && Look(r, n, nil) == if n in cells then cells[n] else Look(Join(f, t), n, nil)
  {
    var r, j := InsertStep(f, t).t, Join(f, t);
    InsertStepInOrder(f, t);
    SameOrder(r, j);
    if f.left && Red(t) && Red(t.l) {
      assert n in Nodes(t) ==> Look(j, n, nil) == Look(t, n, nil);
      assert n in Nodes(t.l) ==> Look(t, n, nil) == Look(t.l, n, nil);
      assert n in Nodes(r.l) ==> Look(r, n, nil) == Look(r.l, n, nil);
    } else if !f.left && Red(t) {
      assert n in Nodes(t) ==> Look(j, n, nil) == Look(t, n, nil);
      assert n in Nodes(f.sib) ==> Look(j, n, nil) == Look(f.sib, n, nil);
      assert n in Nodes(r.l) ==> Look(r, n, nil) == Look(r.l, n, nil);
    }
  }

  /** The new fields of the nodes one iteration of the unwind loop of remove touches. */
  ghost function RemoveCells<N>(f: Frame<N>, t: Tree<N>, nil: N): map<N, Cell<N>>
    requires Steppable(f)
  {
    var s := f.sib;
    if f.left && Red(s.l) then
      map[f.n := Cell(false, Top(t, nil), Top(s.l.l, nil)),
          s.n := Cell(s.red, Top(s.l.r, nil), Top(s.r, nil)),
          s.l.n := Cell(f.red, f.n, s.n)]
    else if f.left then
      map[f.n := Cell(true, Top(t, nil), Top(s.l, nil)),
          s.n := Cell(s.red, f.n, Top(s.r, nil))]
    else if s.red && Red(s.r.l) then
      map[f.n := Cell(f.red, Top(s.r.r, nil), Top(t, nil)),
          s.n := Cell(true, Top(s.l, nil), s.r.l.n),
          s.r.n := Cell(s.r.red, s.n, f.n),
          s.r.l.n := Cell(false, Top(s.r.l.l, nil), Top(s.r.l.r, nil))]
    else if s.red then
      map[f.n := Cell(f.red, s.r.n, Top(t, nil)),
          s.n := Cell(false, Top(s.l, nil), f.n),
          s.r.n := Cell(true, Top(s.r.l, nil), Top(s.r.r, nil))]
    else if Red(s.l) then
      map[f.n := Cell(false, Top(s.r, nil), Top(t, nil)),
          s.n := Cell(f.red, s.l.n, f.n),
          s.l.n := Cell(false, Top(s.l.l, nil), Top(s.l.r, nil))]
    else
      map[f.n := Cell(false, s.n, Top(t, nil)),
          s.n := Cell(true, Top(s.l, nil), Top(s.r, nil))]
  }

  lemma RemoveStepLook<N>(f: Frame<N>, t: Tree<N>, n: N, nil: N)
    requires Sep(Join(f, t)) && n in Nodes(Join(f, t)) && Steppable(f)
    ensures var r := RemoveStep(f, t).t;
            var cells := RemoveCells(f, t, nil);
            Sep(r) && n in Nodes(r)
            && Look(r, n, nil) == if n in cells then cells[n] else Look(Join(f, t), n, nil)
  {
    RemoveStepInOrder(f, t);
    SameOrder(RemoveStep(f, t).t, Join(f, t));
    if f.left { RemoveStepLookLeft(f, t, n, nil); } else { RemoveStepLookRight(f, t, n, nil); }
  }

  lemma RemoveStepLookLeft<N>(f: Frame<N>, t: Tree<N>, n: N, nil: N)
    requires Sep(Join(f, t)) && n in Nodes(Join(f, t)) && Steppable(f) && f.left
    requires Sep(RemoveStep(f, t).t) && n in Nodes(RemoveStep(f, t).t)
    ensures var cells := RemoveCells(f, t, nil);
            Look(RemoveStep(f, t).t, n, nil) == if n in cells then cells[n] else Look(Join(f, t), n, nil)
  {
    var r, j, s := RemoveStep(f, t).t, Join(f, t), f.sib;
    assert n in Nodes(s) ==> Look(j, n, nil) == Look(s, n, nil);
    assert n in Nodes(s.l) ==> Look(s, n, nil) == Look(s.l, n, nil);
    assert n in Nodes(r.l) ==> Look(r, n, nil) == Look(r.l, n, nil);
  }

  lemma RemoveStepLookRight<N>(f: Frame<N>, t: Tree<N>, n: N, nil: N)
    requires Sep(Join(f, t)) && n in Nodes(Join(f, t)) && Steppable(f) && !f.left
    requires Sep(RemoveStep(f, t).t) && n in Nodes(RemoveStep(f, t).t)
    ensures var cells := RemoveCells(f, t, nil);
            Look(RemoveStep(f, t).t, n, nil) == if n in cells then cells[n] else Look(Join(f, t), n, nil)
  {
    var r, j, s := RemoveStep(f, t).t, Join(f, t), f.sib;
    assert n in Nodes(s) ==> Look(j, n, nil) == Look(s, n, nil);
    assert n in Nodes(s.l) ==> Look(s, n, nil) == Look(s.l, n, nil);
    assert n in Nodes(s.r) ==> Look(s, n, nil) == Look(s.r, n, nil);
    assert n in Nodes(r.l) ==> Look(r, n, nil) == Look(r.l, n, nil);
    assert n in Nodes(r.r) ==> Look(r, n, nil) == Look(r.r, n, nil);
    assert Sep(s) && Sep(s.r);
    if s.red {
      assert n in Nodes(s.r.l) ==> Look(s.r, n, nil) == Look(s.r.l, n, nil);
      if Red(s.r.l) {
        assert n in Nodes(r.l.r) ==> Look(r.l, n, nil) == Look(r.l.r, n, nil);
      } else {
        assert n in Nodes(r.r.l) ==> Look(r.r, n, nil) == Look(r.r.l, n, nil);
      }
    }
  }
}
