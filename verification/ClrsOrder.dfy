/** The order of the nodes below the header of the tree of oss/rbtree/red_black_tree.c. Keys may repeat. */
module ClrsOrder {
  import opened Zipper
  import opened ClrsLinks
  import opened ClrsModel
  import opened ClrsHeap

  ghost predicate Sorted<D>(s: seq<RNode<D>>) {
    forall i, j :: 0 <= i < j < |s| ==> s[i].key <= s[j].key
  }

  ghost predicate Upto<D>(s: seq<RNode<D>>, k: int) {
    forall i :: 0 <= i < |s| ==> s[i].key <= k
  }

  ghost predicate Over<D>(s: seq<RNode<D>>, k: int) {
    forall i :: 0 <= i < |s| ==> s[i].key > k
  }

  /** How many nodes at the front have keys up to `k`. */
  ghost function Rank<D>(s: seq<RNode<D>>, k: int): nat {
    if s == [] || s[0].key > k then 0 else 1 + Rank(s[1..], k)
  }

  /** The order with `z` put behind all nodes whose keys are not greater. */
  ghost function Inserted<D>(s: seq<RNode<D>>, z: RNode<D>): seq<RNode<D>> {
    var i := Rank(s, z.key);
    if i <= |s| then s[..i] + [z] + s[i..] else s
  }

  lemma {:induction false} RankAt<D>(a: seq<RNode<D>>, b: seq<RNode<D>>, k: int)
    requires Upto(a, k) && Over(b, k)
    ensures Rank(a + b, k) == |a|
  {
    if a == [] {
      assert a + b == b;
    } else {
      assert (a + b)[1..] == a[1..] + b;
      RankAt(a[1..], b, k);
    }
  }

  lemma InsertedAt<D>(a: seq<RNode<D>>, b: seq<RNode<D>>, z: RNode<D>)
    requires Sorted(a + b) && Upto(a, z.key) && Over(b, z.key)
    ensures Inserted(a + b, z) == a + [z] + b && Sorted(a + [z] + b)
  {
    RankAt(a, b, z.key);
    var s, r := a + b, a + [z] + b;
    assert s[..|a|] == a && s[|a|..] == b;
    forall i, j | 0 <= i < j < |r| ensures r[i].key <= r[j].key {
      if i != |a| && j != |a| {
        assert r[i] == s[if i < |a| then i else i - 1] && r[j] == s[if j < |a| then j else j - 1];
      }
    }
  }

  // ----- positions -----

  /** The nodes before and after a position, without the header. */
  ghost function Pre<N>(ctx: seq<Frame<N>>): seq<N> {
    if ctx == [] then [] else Before(ctx[1..])
  }

  ghost function Post<N>(ctx: seq<Frame<N>>): seq<N> {
    if ctx == [] then [] else After(ctx[1..])
  }

  lemma UserOrder<N>(ctx: seq<Frame<N>>, root: N, t: Tree<N>)
    requires FromHeader(ctx, root)
    ensures InOrder(User(Plug(ctx, t))) == Pre(ctx) + InOrder(t) + Post(ctx)
  {
    HeaderTop(ctx, root, t);
    PlugInOrder(ctx[1..], t);
  }

  lemma PushOrder<N>(ctx: seq<Frame<N>>, root: N, f: Frame<N>, t: Tree<N>)
    requires FromHeader(ctx, root)
    ensures FromHeader(ctx + [f], root) && Plug(ctx + [f], t) == Plug(ctx, Join(f, t))
    ensures Pre(ctx + [f]) == Pre(ctx) + if f.left then [] else InOrder(f.sib) + [f.n]
    ensures Post(ctx + [f]) == (if f.left then [f.n] + InOrder(f.sib) else []) + Post(ctx)
  {
    assert (ctx + [f])[1..] == ctx[1..] + [f];
    Push(ctx[1..], f, t);
    Push(ctx, f, t);
  }

  /** The entry a descent leaves behind when it goes to the left or right of `t`. */
  ghost function Passed<N>(t: Tree<N>, left: bool): Frame<N>
    requires t.Node?
  {
    Frame(t.n, t.red, left, Near(!left, t))
  }

  /** Going left from greater keys and right from others keeps everything passed on the proper side. */
  lemma Descend<D>(ctx: seq<Frame<RNode<D>>>, root: RNode<D>, t: Tree<RNode<D>>, k: int)
    requires FromHeader(ctx, root) && t.Node? && Sorted(InOrder(User(Plug(ctx, t))))
    requires Upto(Pre(ctx), k) && Over(Post(ctx), k)
    ensures var left := t.n.key > k;
            var f := Passed(t, left);
            && FromHeader(ctx + [f], root) && Plug(ctx + [f], Near(left, t)) == Plug(ctx, t)
            && Upto(Pre(ctx + [f]), k) && Over(Post(ctx + [f]), k)
  {
    var left := t.n.key > k;
    UserOrder(ctx, root, t);
    Sides(t, left);
    PushOrder(ctx, root, Passed(t, left), Near(left, t));
    SideKeys(Pre(ctx), InOrder(t.l), t.n, InOrder(t.r), Post(ctx), k);
    hide Sorted, Upto, Over, Pre, Post, Plug, FromHeader;
  }

  lemma SideKeys<D>(pre: seq<RNode<D>>, a: seq<RNode<D>>, x: RNode<D>, b: seq<RNode<D>>, post: seq<RNode<D>>, k: int)
    requires Sorted(pre + (a + [x] + b) + post) && Upto(pre, k) && Over(post, k)
    ensures x.key > k ==> Over([x] + b + post, k) && Upto(pre + [], k)
    ensures x.key <= k ==> Upto(pre + (a + [x]), k) && Over([] + post, k)
  {
    var s := pre + (a + [x] + b) + post;
    var i := |pre| + |a|;
    assert s[i] == x;
    assert forall j :: 0 <= j < |a| ==> a[j] == s[|pre| + j];
    assert forall j :: 0 <= j < |b| ==> b[j] == s[i + 1 + j];
  }

  lemma AttachedOrder<D>(ctx: seq<Frame<RNode<D>>>, root: RNode<D>, z: RNode<D>, red: bool)
    requires FromHeader(ctx, root) && Sorted(InOrder(User(Plug(ctx, Nil)))) && Upto(Pre(ctx), z.key)
    requires Over(Post(ctx), z.key)
    ensures var s := InOrder(User(Plug(ctx, Node(z, red, Nil, Nil))));
            s == Inserted(InOrder(User(Plug(ctx, Nil))), z) && Sorted(s)
  {
    UserOrder(ctx, root, Nil);
    UserOrder(ctx, root, Node(z, red, Nil, Nil));
    assert Pre(ctx) + [] + Post(ctx) == Pre(ctx) + Post(ctx);
    InsertedAt(Pre(ctx), Post(ctx), z);
  }

  /** Where the node at a position stands in the order. */
  ghost function Index<N>(ctx: seq<Frame<N>>, t: Tree<N>): nat
    requires t.Node?
  {
    |Pre(ctx)| + |InOrder(t.l)|
  }

  lemma IndexAt<N>(ctx: seq<Frame<N>>, root: N, t: Tree<N>)
    requires FromHeader(ctx, root) && t.Node?
    ensures var s, i := InOrder(User(Plug(ctx, t))), Index(ctx, t);
            && i < |s| && s[i] == t.n && s == Pre(ctx) + InOrder(t) + Post(ctx)
            && s[..i] == Pre(ctx) + InOrder(t.l) && s[i + 1..] == InOrder(t.r) + Post(ctx)
  {
    UserOrder(ctx, root, t);
    Around5(Pre(ctx), InOrder(t.l), t.n, InOrder(t.r), Post(ctx));
    hide Pre, Post, Plug, FromHeader;
  }

  lemma Around5<N>(pre: seq<N>, a: seq<N>, x: N, b: seq<N>, post: seq<N>)
    ensures var s, i := pre + (a + [x] + b) + post, |pre| + |a|;
            i < |s| && s[i] == x && s[..i] == pre + a && s[i + 1..] == b + post
  {
    var s := pre + (a + [x] + b) + post;
    assert s == (pre + a) + ([x] + (b + post));
  }

  /** Popping the last entry of a path. */
  lemma PopOrder<N>(ctx: seq<Frame<N>>, root: N, t: Tree<N>)
    requires FromHeader(ctx, root) && |ctx| > 1
    ensures var f, rest := ctx[|ctx|-1], ctx[..|ctx|-1];
            && FromHeader(rest, root) && Plug(rest, Join(f, t)) == Plug(ctx, t)
            && Pre(ctx) == Pre(rest) + (if f.left then [] else InOrder(f.sib) + [f.n])
            && Post(ctx) == (if f.left then [f.n] + InOrder(f.sib) else []) + Post(rest)
  {
    assert ctx == ctx[..|ctx|-1] + [ctx[|ctx|-1]];
    PushOrder(ctx[..|ctx|-1], root, ctx[|ctx|-1], t);
  }

  lemma LocateUser<N>(tree: Tree<N>, root: N, i: nat) returns (ctx: seq<Frame<N>>, t: Tree<N>)
    requires tree.Node? && tree.n == root && !tree.red && tree.r.Nil? && i < |InOrder(User(tree))|
    ensures FromHeader(ctx, root) && tree == Plug(ctx, t) && t.Node? && Index(ctx, t) == i
    ensures t.n == InOrder(User(tree))[i]
  {
    var sub;
    var h := Frame(root, false, true, Nil);
    sub, t := Locate(tree.l, i);
    ctx := [h] + sub;
    assert ctx[1..] == sub;
    PlugAppend([h], sub, t);
    Push([], h, tree.l);
    assert [] + [h] == [h];
    IndexAt(ctx, root, t);
  }

  /** The order without its `i`-th node. */
  ghost function Dropped<N>(s: seq<N>, i: nat): seq<N>
    requires i < |s|
  {
    s[..i] + s[i + 1..]
  }

  lemma SplicedOrder<N>(ctx: seq<Frame<N>>, root: N, t: Tree<N>)
    requires FromHeader(ctx, root) && t.Node? && (t.l.Nil? || t.r.Nil?)
    ensures var s := InOrder(User(Plug(ctx, t)));
            Index(ctx, t) < |s| && InOrder(User(Plug(ctx, Only(t)))) == Dropped(s, Index(ctx, t))
  {
    IndexAt(ctx, root, t);
    UserOrder(ctx, root, Only(t));
    OneSide(Pre(ctx), InOrder(t.l), InOrder(t.r), Post(ctx));
    assert InOrder(Only(t)) == if InOrder(t.l) == [] then InOrder(t.r) else InOrder(t.l);
    hide Pre, Post, Plug, FromHeader, InOrder;
  }

  lemma OneSide<N>(pre: seq<N>, a: seq<N>, b: seq<N>, post: seq<N>)
    requires a == [] || b == []
    ensures pre + (if a == [] then b else a) + post == (pre + a) + (b + post)
  {
  }

  /** Putting `y` in the place of the node before it, once `y` itself is out of the order. */
  lemma RenamedOrder<N>(ctx: seq<Frame<N>>, root: N, t: Tree<N>, y: N, s: seq<N>)
    requires FromHeader(ctx, root) && t.Node?
    requires Index(ctx, t) + 1 < |s| && s[Index(ctx, t) + 1] == y
    requires InOrder(User(Plug(ctx, t))) == Dropped(s, Index(ctx, t) + 1)
    ensures InOrder(User(Plug(ctx, t.(n := y)))) == Dropped(s, Index(ctx, t))
  {
    var i := Index(ctx, t);
    IndexAt(ctx, root, t);
    IndexAt(ctx, root, t.(n := y));
    var r, r' := InOrder(User(Plug(ctx, t))), InOrder(User(Plug(ctx, t.(n := y))));
    hide Pre, Post, Plug, FromHeader, InOrder;
    Shifted(s, r, r', i, y);
  }

  lemma Shifted<N>(s: seq<N>, r: seq<N>, r': seq<N>, i: nat, y: N)
    requires i + 1 < |s| && s[i + 1] == y && r == Dropped(s, i + 1)
    requires i < |r'| && r'[..i] == r[..i] && r'[i] == y && r'[i + 1..] == r[i + 1..]
    ensures r' == Dropped(s, i)
  {
    assert r' == r'[..i] + [y] + r'[i + 1..];
    assert r[..i] == s[..i] && r[i + 1..] == s[i + 2..];
    assert s[i + 1..] == [y] + s[i + 2..];
  }

  lemma DroppedSorted<D>(s: seq<RNode<D>>, i: nat)
    requires i < |s| && Sorted(s)
    ensures Sorted(Dropped(s, i))
  {
    var r := Dropped(s, i);
    assert forall j :: 0 <= j < |r| ==> r[j] == s[if j < i then j else j + 1];
  }

  /** Without a red node the tree is as balanced as before; without a black one the path is one short. */
  lemma SplicedRb<N>(ctx: seq<Frame<N>>, root: N, t: Tree<N>)
    requires FromHeader(ctx, root) && t.Node? && (t.l.Nil? || t.r.Nil?) && Balanced(User(Plug(ctx, t)))
    ensures if t.red then Balanced(User(Plug(ctx, Only(t)))) else Deleting(ctx, root, Only(t), BlackHeight(t) - 1)
  {
    SplitRb(ctx, root, t);
    var h := BlackHeight(t);
    if t.red {
      PlugRb(ctx, root, Only(t), h);
      if |ctx| == 1 { UserAll(ctx, root, Only(t)); }
    } else {
      RbHeight(t, h);
    }
  }

  /** The nodes with keys from `low` to `high`. */
  ghost function Between<D>(s: seq<RNode<D>>, low: int, high: int): seq<RNode<D>> {
    if s == [] then []
    else (if low <= s[0].key <= high then [s[0]] else []) + Between(s[1..], low, high)
  }

  lemma {:induction false} BetweenConcat<D>(a: seq<RNode<D>>, b: seq<RNode<D>>, low: int, high: int)
    ensures Between(a + b, low, high) == Between(a, low, high) + Between(b, low, high)
  {
    if a == [] {
      assert a + b == b;
    } else {
      assert (a + b)[1..] == a[1..] + b;
      BetweenConcat(a[1..], b, low, high);
    }
  }

  lemma {:induction false} BetweenAll<D>(s: seq<RNode<D>>, low: int, high: int)
    ensures (forall i :: 0 <= i < |s| ==> low <= s[i].key <= high) ==> Between(s, low, high) == s
    ensures (forall i :: 0 <= i < |s| ==> !(low <= s[i].key <= high)) ==> Between(s, low, high) == []
  {
    if s != [] { BetweenAll(s[1..], low, high); }
  }

  /** In a sorted order the nodes in a range of keys stand together. */
  lemma BetweenSlice<D>(s: seq<RNode<D>>, j: nat, m: nat, low: int, high: int)
    requires Sorted(s) && j <= m <= |s| && Upto(s[..m], high) && Over(s[m..], high)
    requires j == 0 || s[j - 1].key < low
    requires forall k :: j <= k < m ==> low <= s[k].key
    ensures Between(s, low, high) == s[j..m]
  {
    var a, b, c := s[..j], s[j..m], s[m..];
    assert s == a + (b + c);
    forall k | 0 <= k < j ensures a[k].key < low {
      assert s[k].key <= s[j - 1].key;
    }
    forall k | 0 <= k < |b| ensures low <= b[k].key <= high {
      assert b[k] == s[..m][j + k];
    }
    hide Sorted, Between;
    BetweenParts(a, b, c, low, high);
  }

  lemma BetweenParts<D>(a: seq<RNode<D>>, b: seq<RNode<D>>, c: seq<RNode<D>>, low: int, high: int)
    requires forall k :: 0 <= k < |a| ==> a[k].key < low
    requires forall k :: 0 <= k < |b| ==> low <= b[k].key <= high
    requires Over(c, high)
    ensures Between(a + (b + c), low, high) == b
  {
    BetweenConcat(a, b + c, low, high);
    BetweenConcat(b, c, low, high);
    BetweenAll(a, low, high);
    BetweenAll(b, low, high);
    BetweenAll(c, low, high);
  }

  /** A search for `q` that goes left from greater and right from smaller keys passes no node with key `q`. */
  lemma DescendExact<D>(ctx: seq<Frame<RNode<D>>>, root: RNode<D>, t: Tree<RNode<D>>, q: int)
    requires FromHeader(ctx, root) && t.Node? && Sorted(InOrder(User(Plug(ctx, t)))) && t.n.key != q
    requires Upto(Pre(ctx), q - 1) && Over(Post(ctx), q)
    ensures var left := t.n.key > q;
            var f := Passed(t, left);
            && FromHeader(ctx + [f], root) && Plug(ctx + [f], Near(left, t)) == Plug(ctx, t)
            && Upto(Pre(ctx + [f]), q - 1) && Over(Post(ctx + [f]), q)
  {
    var left := t.n.key > q;
    UserOrder(ctx, root, t);
    Sides(t, left);
    PushOrder(ctx, root, Passed(t, left), Near(left, t));
    assert Upto(Pre(ctx), q) && Over(Post(ctx), q - 1);
    if left {
      SideKeys(Pre(ctx), InOrder(t.l), t.n, InOrder(t.r), Post(ctx), q);
    } else {
      SideKeys(Pre(ctx), InOrder(t.l), t.n, InOrder(t.r), Post(ctx), q - 1);
    }
    hide Sorted, Pre, Post, Plug, FromHeader, InOrder;
  }
}
