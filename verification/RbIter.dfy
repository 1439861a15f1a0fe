/** Forward and backward iteration over the tree of oss/rb.h. The callback is a function from a node to a
    node or null; the methods also return the nodes it was called on, in order. */
module RbIter {
  import opened Zipper
  import opened LlrbModel
  import opened LlrbHeap
  import opened LlrbPath
  import opened RbTree

  type Callback<!D> = RbNode<D> -> RbNode?<D>

  /** The nodes visited along `s`: all up to the first on which the callback stops, that one included. */
  ghost function Until<D>(s: seq<RbNode<D>>, cb: Callback<D>): seq<RbNode<D>> {
    if s == [] then [] else if cb(s[0]) != null then [s[0]] else [s[0]] + Until(s[1..], cb)
  }

  /** What the callback returned where it stopped; null if it never did. */
  ghost function Stop<D>(s: seq<RbNode<D>>, cb: Callback<D>): RbNode?<D> {
    if s == [] then null else if cb(s[0]) != null then cb(s[0]) else Stop(s[1..], cb)
  }

  /** The part of `s` from `start` on. */
  ghost function From<D>(s: seq<RbNode<D>>, start: RbNode<D>): seq<RbNode<D>> {
    if s == [] || s[0] == start then s else From(s[1..], start)
  }

  ghost function Rev<D>(s: seq<RbNode<D>>): seq<RbNode<D>> {
    if s == [] then [] else Rev(s[1..]) + [s[0]]
  }

  /** The nodes visited are a prefix, on all of which but the last the callback goes on; and it ends early only
      where the callback stops, whose answer is the one returned. */
  lemma {:induction false} UntilSays<D>(s: seq<RbNode<D>>, cb: Callback<D>)
    ensures var v := Until(s, cb);
            && v <= s && (forall i :: 0 <= i < |v| - 1 ==> cb(v[i]) == null)
            && (Stop(s, cb) == null <==> forall i :: 0 <= i < |s| ==> cb(s[i]) == null)
            && (Stop(s, cb) == null ==> v == s)
            && (Stop(s, cb) != null ==> v != [] && cb(v[|v| - 1]) == Stop(s, cb))
  {
    if s != [] {
      UntilSays(s[1..], cb);
      assert s == [s[0]] + s[1..];
      assert forall i :: 0 < i < |s| ==> s[i] == s[1..][i - 1];
    }
  }

  /** The part from `start` on begins with it, and nothing before it is `start`. */
  lemma {:induction false} FromSays<D>(s: seq<RbNode<D>>, start: RbNode<D>)
    ensures var f := From(s, start);
            && |f| <= |s| && f == s[|s| - |f|..] && start !in s[..|s| - |f|] && (f != [] ==> f[0] == start)
  {
    if s != [] && s[0] != start {
      FromSays(s[1..], start);
      var k := |s| - |From(s, start)|;
      assert s[..k] == [s[0]] + s[1..][..k - 1];
    }
  }

  lemma {:induction false} RevSays<D>(s: seq<RbNode<D>>, i: nat)
    requires i < |s|
    ensures |Rev(s)| == |s| && Rev(s)[i] == s[|s| - 1 - i]
  {
    if |s| > 1 { RevSays(s[1..], if i < |s| - 1 then i else 0); }
  }

  lemma {:induction false} UntilConcat<D>(a: seq<RbNode<D>>, b: seq<RbNode<D>>, cb: Callback<D>)
    ensures Until(a + b, cb) == if Stop(a, cb) != null then Until(a, cb) else a + Until(b, cb)
    ensures Stop(a + b, cb) == if Stop(a, cb) != null then Stop(a, cb) else Stop(b, cb)
    ensures Stop(a, cb) == null ==> Until(a, cb) == a
  {
    if a == [] {
      assert a + b == b;
    } else {
      assert (a + b)[1..] == a[1..] + b;
      UntilConcat(a[1..], b, cb);
    }
  }

  lemma {:induction false} FromConcat<D>(a: seq<RbNode<D>>, b: seq<RbNode<D>>, start: RbNode<D>)
    ensures start in a ==> From(a + b, start) == From(a, start) + b
    ensures start !in a ==> From(a + b, start) == From(b, start)
  {
    if a == [] {
      assert a + b == b;
    } else if a[0] != start {
      assert (a + b)[1..] == a[1..] + b;
      FromConcat(a[1..], b, start);
    }
  }

  lemma {:induction false} RevConcat<D>(a: seq<RbNode<D>>, b: seq<RbNode<D>>)
    ensures Rev(a + b) == Rev(b) + Rev(a)
  {
    if a == [] {
      assert a + b == b;
    } else {
      assert (a + b)[1..] == a[1..] + b;
      RevConcat(a[1..], b);
    }
  }

  lemma RevNode<D>(t: Tree<RbNode<D>>)
    requires t.Node?
    ensures Rev(InOrder(t)) == Rev(InOrder(t.r)) + [t.n] + Rev(InOrder(t.l))
  {
    var a, b := InOrder(t.l), InOrder(t.r);
    assert Rev([t.n]) == [t.n];
    assert InOrder(t) == a + [t.n] + b;
    hide Rev, InOrder;
    RevConcat(a + [t.n], b);
    RevConcat(a, [t.n]);
    Assoc(Rev(b), [t.n], Rev(a));
  }

  lemma {:induction false} RevMember<D>(s: seq<RbNode<D>>, x: RbNode<D>)
    ensures x in Rev(s) <==> x in s
  {
    if s != [] { RevMember(s[1..], x); }
  }

  /** `t` is in the heap and the callback never returns the sentinel on its nodes. */
  ghost predicate Iterable<D>(t: Tree<RbNode<D>>, nil: RbNode<D>, cb: Callback<D>)
    reads Nodes(t)
  {
    Holds(t, nil) && Sorted(InOrder(t)) && nil !in Nodes(t) && forall n :: n in Nodes(t) ==> cb(n) != nil
  }

  lemma IterableParts<D>(t: Tree<RbNode<D>>, nil: RbNode<D>, cb: Callback<D>)
    requires Iterable(t, nil, cb) && t.Node?
    ensures Iterable(t.l, nil, cb) && Iterable(t.r, nil, cb) && t.n.left == Top(t.l, nil) && t.n.right == Top(t.r, nil)
    ensures cb(t.n) != nil && allocated(Nodes(t.l)) && allocated(Nodes(t.r))
  {
    SortedSep(t);
    HoldsCell(t, nil);
    SortedSplit(InOrder(t.l), t.n, InOrder(t.r));
    NodesAllocated(t);
  }

  /** What a call that covers `s` returns: the sentinel stands for "never stopped". */
  ghost predicate Covers<D>(s: seq<RbNode<D>>, cb: Callback<D>, nil: RbNode<D>, ret: RbNode<D>,
                            visited: seq<RbNode<D>>) {
    && visited == Until(s, cb)
    && if Stop(s, cb) == null then ret == nil else ret == Stop(s, cb) && ret != nil
  }

  lemma CoversConcat<D>(a: seq<RbNode<D>>, b: seq<RbNode<D>>, cb: Callback<D>, nil: RbNode<D>,
                        r1: RbNode<D>, v1: seq<RbNode<D>>, r2: RbNode<D>, v2: seq<RbNode<D>>)
    requires Covers(a, cb, nil, r1, v1)
    ensures r1 != nil ==> Covers(a + b, cb, nil, r1, v1)
    ensures r1 == nil && Covers(b, cb, nil, r2, v2) ==> Covers(a + b, cb, nil, r2, v1 + v2)
  {
    UntilConcat(a, b, cb);
  }

  lemma CoversOne<D>(x: RbNode<D>, cb: Callback<D>, nil: RbNode<D>)
    requires cb(x) != nil
    ensures cb(x) == null ==> Covers([x], cb, nil, nil, [x])
    ensures cb(x) != null ==> Covers([x], cb, nil, cb(x), [x])
  {
    assert [x][1..] == [];
  }

  /** iter_recurse: forward over the subtree at `p`. */
  method IterRecurse<D>(p: RbNode<D>, nil: RbNode<D>, cb: Callback<D>, ghost t: Tree<RbNode<D>>)
    returns (ret: RbNode<D>, visited: seq<RbNode<D>>)
    requires Iterable(t, nil, cb) && p == Top(t, nil)
    ensures Covers(InOrder(t), cb, nil, ret, visited)
    decreases t, 1
  {
    if p == nil {
      return nil, [];
    }
    IterableParts(t, nil, cb);
    assert InOrder(t) == InOrder(t.l) + ([t.n] + InOrder(t.r));
    hide Covers, InOrder, Iterable;
    ret, visited := IterRecurse(p.left, nil, cb, t.l);
    if ret != nil {
      CoversConcat(InOrder(t.l), [t.n] + InOrder(t.r), cb, nil, ret, visited, nil, []);
      return;
    }
    var rest;
    ghost var v := visited;
    ret, rest := VisitRight(p, nil, cb, t);
    visited := visited + rest;
    CoversConcat(InOrder(t.l), [t.n] + InOrder(t.r), cb, nil, nil, v, ret, rest);
  }

  /** The common tail: calls back on `p` and goes on with its right subtree. */
  method VisitRight<D>(p: RbNode<D>, nil: RbNode<D>, cb: Callback<D>, ghost t: Tree<RbNode<D>>)
    returns (ret: RbNode<D>, visited: seq<RbNode<D>>)
    requires Iterable(t, nil, cb) && t.Node? && p == t.n
    ensures Covers([t.n] + InOrder(t.r), cb, nil, ret, visited)
    decreases t, 0
  {
    IterableParts(t, nil, cb);
    CoversOne(p, cb, nil);
    hide Covers, InOrder, Iterable;
    var r := cb(p);
    if r != null {
      CoversConcat([p], InOrder(t.r), cb, nil, r, [p], nil, []);
      return r, [p];
    }
    ret, visited := IterRecurse(p.right, nil, cb, t.r);
    CoversConcat([p], InOrder(t.r), cb, nil, nil, [p], ret, visited);
    visited := [p] + visited;
  }

  /** iter_start: forward from `start`, a node of the subtree at `p`. */
  method IterStart<D>(start: RbNode<D>, p: RbNode<D>, nil: RbNode<D>, cb: Callback<D>, ghost t: Tree<RbNode<D>>)
    returns (ret: RbNode<D>, visited: seq<RbNode<D>>)
    requires Iterable(t, nil, cb) && p == Top(t, nil) && start in InOrder(t)
    ensures Covers(From(InOrder(t), start), cb, nil, ret, visited)
    decreases t
  {
    FromNode(t, start);
    IterableParts(t, nil, cb);
    hide Covers, InOrder, Iterable, From;
    var cmp := Compare(start.key, p.key);
    if cmp < 0 {
      ret, visited := IterStart(start, p.left, nil, cb, t.l);
      if ret != nil {
        CoversConcat(From(InOrder(t.l), start), [t.n] + InOrder(t.r), cb, nil, ret, visited, nil, []);
        return;
      }
      var rest;
      ghost var v := visited;
      ret, rest := VisitRight(p, nil, cb, t);
      visited := visited + rest;
      CoversConcat(From(InOrder(t.l), start), [t.n] + InOrder(t.r), cb, nil, nil, v, ret, rest);
    } else if cmp > 0 {
      ret, visited := IterStart(start, p.right, nil, cb, t.r);
    } else {
      ret, visited := VisitRight(p, nil, cb, t);
    }
  }

  /** Where the part of the order from `start` on begins, by the comparison at the top node. */
  lemma FromNode<D>(t: Tree<RbNode<D>>, start: RbNode<D>)
    requires Sorted(InOrder(t)) && start in InOrder(t)
    ensures t.Node?
    ensures start.key < t.n.key ==>
              start in InOrder(t.l) && From(InOrder(t), start) == From(InOrder(t.l), start) + ([t.n] + InOrder(t.r))
    ensures start.key > t.n.key ==> start in InOrder(t.r) && From(InOrder(t), start) == From(InOrder(t.r), start)
    ensures start.key == t.n.key ==> start == t.n && From(InOrder(t), start) == [t.n] + InOrder(t.r)
  {
    var a, b := InOrder(t.l), InOrder(t.r);
    SortedSplit(a, t.n, b);
    assert start in a || start == t.n || start in b;
    assert a + [t.n] + b == a + ([t.n] + b);
    FromConcat(a, [t.n] + b, start);
    FromConcat([t.n], b, start);
  }

  /** The same for the reverse order. */
  lemma FromNodeRev<D>(t: Tree<RbNode<D>>, start: RbNode<D>)
    requires Sorted(InOrder(t)) && start in InOrder(t)
    ensures t.Node?
    ensures start.key > t.n.key ==>
              start in InOrder(t.r) && From(Rev(InOrder(t)), start) == From(Rev(InOrder(t.r)), start) +
                  ([t.n] + Rev(InOrder(t.l)))
    ensures start.key < t.n.key ==>
              start in InOrder(t.l) && From(Rev(InOrder(t)), start) == From(Rev(InOrder(t.l)), start)
    ensures start.key == t.n.key ==> start == t.n && From(Rev(InOrder(t)), start) == [t.n] + Rev(InOrder(t.l))
  {
    var a, b := InOrder(t.l), InOrder(t.r);
    SortedSplit(a, t.n, b);
    assert start in a || start == t.n || start in b;
    assert AllBelow(a, t.n.key) && AllAbove(b, t.n.key);
    assert start in a ==> start.key < t.n.key;
    assert start in b ==> start.key > t.n.key;
    hide InOrder, Rev, From, Sorted, AllBelow, AllAbove;
    RevNode(t);
    RevMember(a, start);
    RevMember(b, start);
    Assoc(Rev(b), [t.n], Rev(a));
    FromConcat(Rev(b), [t.n] + Rev(a), start);
    FromConcat([t.n], Rev(a), start);
    if start == t.n {
      FromHere([t.n], start);
    }
  }

  lemma FromHere<D>(s: seq<RbNode<D>>, start: RbNode<D>)
    requires s != [] && s[0] == start
    ensures From(s, start) == s
  {
  }

  /** reverse_iter_recurse: backward over the subtree at `p`. */
  method ReverseIterRecurse<D>(p: RbNode<D>, nil: RbNode<D>, cb: Callback<D>, ghost t: Tree<RbNode<D>>)
    returns (ret: RbNode<D>, visited: seq<RbNode<D>>)
    requires Iterable(t, nil, cb) && p == Top(t, nil)
    ensures Covers(Rev(InOrder(t)), cb, nil, ret, visited)
    decreases t, 1
  {
    if p == nil {
      return nil, [];
    }
    IterableParts(t, nil, cb);
    RevNode(t);
    Assoc(Rev(InOrder(t.r)), [t.n], Rev(InOrder(t.l)));
    hide Covers, InOrder, Iterable, Rev;
    ret, visited := ReverseIterRecurse(p.right, nil, cb, t.r);
    if ret != nil {
      CoversConcat(Rev(InOrder(t.r)), [t.n] + Rev(InOrder(t.l)), cb, nil, ret, visited, nil, []);
      return;
    }
    var rest;
    ghost var v := visited;
    ret, rest := VisitLeft(p, nil, cb, t);
    visited := visited + rest;
    CoversConcat(Rev(InOrder(t.r)), [t.n] + Rev(InOrder(t.l)), cb, nil, nil, v, ret, rest);
  }

  method VisitLeft<D>(p: RbNode<D>, nil: RbNode<D>, cb: Callback<D>, ghost t: Tree<RbNode<D>>)
    returns (ret: RbNode<D>, visited: seq<RbNode<D>>)
    requires Iterable(t, nil, cb) && t.Node? && p == t.n
    ensures Covers([t.n] + Rev(InOrder(t.l)), cb, nil, ret, visited)
    decreases t, 0
  {
    IterableParts(t, nil, cb);
    CoversOne(p, cb, nil);
    hide Covers, InOrder, Iterable, Rev;
    var r := cb(p);
    if r != null {
      CoversConcat([p], Rev(InOrder(t.l)), cb, nil, r, [p], nil, []);
      return r, [p];
    }
    ret, visited := ReverseIterRecurse(p.left, nil, cb, t.l);
    CoversConcat([p], Rev(InOrder(t.l)), cb, nil, nil, [p], ret, visited);
    visited := [p] + visited;
  }

  /** reverse_iter_start: backward from `start`, a node of the subtree at `p`. */
  method ReverseIterStart<D>(start: RbNode<D>, p: RbNode<D>, nil: RbNode<D>, cb: Callback<D>, ghost t: Tree<RbNode<D>>)
    returns (ret: RbNode<D>, visited: seq<RbNode<D>>)
    requires Iterable(t, nil, cb) && p == Top(t, nil) && start in InOrder(t)
    ensures Covers(From(Rev(InOrder(t)), start), cb, nil, ret, visited)
    decreases t
  {
    FromNodeRev(t, start);
    IterableParts(t, nil, cb);
    hide Covers, InOrder, Iterable, From, Rev;
    var cmp := Compare(start.key, p.key);
    if cmp > 0 {
      ret, visited := ReverseIterStart(start, p.right, nil, cb, t.r);
      if ret != nil {
        CoversConcat(From(Rev(InOrder(t.r)), start), [t.n] + Rev(InOrder(t.l)), cb, nil, ret, visited, nil, []);
        return;
      }
      var rest;
      ghost var v := visited;
      ret, rest := VisitLeft(p, nil, cb, t);
      visited := visited + rest;
      CoversConcat(From(Rev(InOrder(t.r)), start), [t.n] + Rev(InOrder(t.l)), cb, nil, nil, v, ret, rest);
    } else if cmp < 0 {
      ret, visited := ReverseIterStart(start, p.left, nil, cb, t.l);
    } else {
      ret, visited := VisitLeft(p, nil, cb, t);
    }
  }

  /** Forward iteration from `start`, or from the first node: visits exactly the rest of the order, up to
      and including the node on which the callback stops, and returns what it returned there. */
  method Iter<D>(tree: RbTree<D>, start: RbNode?<D>, cb: Callback<D>) returns (ret: RbNode?<D>, visited: seq<RbNode<D>>)
    requires tree.Valid() && Iterable(tree.t, tree.nil, cb) && (start != null ==> start in InOrder(tree.t))
    ensures var s := if start == null then InOrder(tree.t) else From(InOrder(tree.t), start);
            visited == Until(s, cb) && ret == Stop(s, cb)
  {
    if start != null {
      ret, visited := IterStart(start, tree.root, tree.nil, cb, tree.t);
    } else {
      ret, visited := IterRecurse(tree.root, tree.nil, cb, tree.t);
    }
    if ret == tree.nil {
      ret := null;
    }
  }

  /** The same backwards. */
  method ReverseIter<D>(tree: RbTree<D>, start: RbNode?<D>, cb: Callback<D>)
    returns (ret: RbNode?<D>, visited: seq<RbNode<D>>)
    requires tree.Valid() && Iterable(tree.t, tree.nil, cb) && (start != null ==> start in InOrder(tree.t))
    ensures var s := if start == null then Rev(InOrder(tree.t)) else From(Rev(InOrder(tree.t)), start);
            visited == Until(s, cb) && ret == Stop(s, cb)
  {
    if start != null {
      ret, visited := ReverseIterStart(start, tree.root, tree.nil, cb, tree.t);
    } else {
      ret, visited := ReverseIterRecurse(tree.root, tree.nil, cb, tree.t);
    }
    if ret == tree.nil {
      ret := null;
    }
  }
}
