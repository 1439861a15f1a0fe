/** The job-id tree of sfs/include/sfs_jobid_tree.h: the generated tree with job ids as keys, seen as
    a finite map from job id to the thread and job stored for it. */
module JobIdTree {
  import opened Zipper
  import opened LlrbModel
  import opened LlrbHeap
  import opened LlrbPath
  import opened RbTree

  datatype Entry = Entry(threadId: nat, job: nat)

  type JobNode = RbNode<Entry>

  /** The map that a sequence of nodes stands for. */
  ghost function MapOf(s: seq<JobNode>): map<int, Entry> {
    if s == [] then map[] else MapOf(s[1..])[s[0].key := s[0].data]
  }

  lemma {:induction false} MapHas(s: seq<JobNode>, k: int)
    requires Sorted(s)
    ensures k in MapOf(s) <==> exists i :: 0 <= i < |s| && s[i].key == k
    ensures forall i :: 0 <= i < |s| && s[i].key == k ==> k in MapOf(s) && MapOf(s)[k] == s[i].data
  {
    if s != [] {
      MapHas(s[1..], k);
      assert forall i :: 0 < i < |s| ==> s[i] == s[1..][i - 1];
    }
  }

  /** Putting a node in its place updates the map. */
  lemma {:induction false} MapPlace(s: seq<JobNode>, node: JobNode)
    requires Sorted(s) && node.key !in MapOf(s)
    ensures MapOf(Place(s, node)) == MapOf(s)[node.key := node.data]
  {
    if s != [] && s[0].key <= node.key {
      MapPlace(s[1..], node);
      assert ([s[0]] + Place(s[1..], node))[1..] == Place(s[1..], node);
    } else {
      assert ([node] + s)[1..] == s;
    }
  }

  /** Taking a node out removes its key from the map. */
  lemma {:induction false} MapDrop(s: seq<JobNode>, node: JobNode)
    requires Sorted(s) && node in s
    ensures MapOf(Drop(s, node)) == MapOf(s) - {node.key}
  {
    if s[0] == node {
      MapHas(s[1..], node.key);
      assert forall i :: 0 < i < |s| ==> s[i] == s[1..][i - 1];
      assert MapOf(s) == MapOf(s[1..])[node.key := node.data];
    } else {
      assert s == [s[0]] + s[1..];
      MapDrop(s[1..], node);
      assert ([s[0]] + Drop(s[1..], node))[1..] == Drop(s[1..], node);
      assert s[0].key < node.key;
    }
  }

  datatype Op = Insert(threadId: nat, jobId: nat, job: nat) | Remove(jobId: nat)

  /** What an operation does to the map: removing an absent id changes nothing. */
  ghost function Apply(m: map<int, Entry>, op: Op): map<int, Entry> {
    match op
    case Insert(threadId, jobId, job) => m[jobId := Entry(threadId, job)]
    case Remove(jobId) => m - {jobId}
  }

  ghost function ApplyAll(m: map<int, Entry>, ops: seq<Op>): map<int, Entry>
    decreases |ops|
  {
    if ops == [] then m else ApplyAll(Apply(m, ops[0]), ops[1..])
  }

  /** Insertions are of ids that are not in the map at that point. */
  ghost predicate Legal(m: map<int, Entry>, ops: seq<Op>)
    decreases |ops|
  {
    ops != [] ==> (ops[0].Insert? ==> ops[0].jobId !in m) && Legal(Apply(m, ops[0]), ops[1..])
  }

  class JobTree {
    const tree: RbTree<Entry>

    ghost predicate Valid()
      reads this, tree, tree.nil, Nodes(tree.t)
    {
      tree.Valid()
    }

    ghost function Map(): map<int, Entry>
      reads tree
    {
      MapOf(InOrder(tree.t))
    }

    ghost function Size(): nat
      reads tree
    {
      |InOrder(tree.t)|
    }

    constructor ()
      ensures Valid() && Map() == map[] && Size() == 0 && fresh(tree) && fresh(tree.nil) && Nodes(tree.t) == {}
    {
      tree := new RbTree(Entry(0, 0));
    }

    method Search(jobId: nat) returns (node: RbNode?<Entry>)
      requires Valid()
      ensures node == null <==> jobId !in Map()
      ensures node != null ==> node in Nodes(tree.t) && node.key == jobId && Map()[jobId] == node.data
    {
      node := tree.Search(jobId);
      ghost var s := InOrder(tree.t);
      MapHas(s, jobId);
      if node != null {
        NodesInOrder(tree.t, node);
      } else {
        forall i | 0 <= i < |s| ensures s[i].key != jobId {
          NodesInOrder(tree.t, s[i]);
        }
      }
    }

    /** sfs_job2thread_map_insert; the caller guarantees that the id is new. */
    method MapInsert(threadId: nat, jobId: nat, job: nat) returns (ret: int)
      requires Valid() && jobId !in Map() && Size() < NODES_MAX
      modifies tree, Nodes(tree.t)
      ensures Valid() && ret == 0 && Map() == old(Map())[jobId := Entry(threadId, job)] && Size() == old(Size()) + 1
      ensures fresh(Nodes(tree.t) - old(Nodes(tree.t)))
    {
      NodesAllocated(tree.t);
      ghost var s := InOrder(tree.t);
      var node := new RbNode<Entry>(jobId, Entry(threadId, job));
      assert Valid();
      forall n | n in Nodes(tree.t) ensures n.key != jobId {
        NodesInOrder(tree.t, n);
        MapHas(s, jobId);
      }
      MapPlace(s, node);
      PlaceLength(s, node);
      tree.Insert(node);
      ret := 0;
    }

    /** sfs_job2thread_map_remove: an absent id leaves the tree alone. */
    method MapRemove(jobId: nat) returns (found: bool)
      requires Valid() && Size() < NODES_MAX
      modifies tree, Nodes(tree.t)
      ensures Valid() && found == (jobId in old(Map())) && Map() == old(Map()) - {jobId} && Size() <= old(Size())
      ensures Nodes(tree.t) <= old(Nodes(tree.t))
    {
      NodesAllocated(tree.t);
      var node := Search(jobId);
      if node == null {
        return false;
      }
      ghost var s := InOrder(tree.t);
      NodesInOrder(tree.t, node);
      MapDrop(s, node);
      DropLength(s, node);
      tree.Remove(node);
      found := true;
    }

    /** Any sequence of operations keeps the tree valid and refines the same operations on the map. */
    method Run(ops: seq<Op>)
      requires Valid() && Legal(Map(), ops) && Size() + |ops| < NODES_MAX
      modifies tree, Nodes(tree.t)
      ensures Valid() && Map() == ApplyAll(old(Map()), ops) && fresh(Nodes(tree.t) - old(Nodes(tree.t)))
      decreases |ops|
    {
      if ops == [] {
        return;
      }
      var ret, found;
      match ops[0] {
        case Insert(threadId, jobId, job) => ret := MapInsert(threadId, jobId, job);
        case Remove(jobId) => found := MapRemove(jobId);
      }
      Run(ops[1..]);
    }
  }

  lemma {:induction false} PlaceLength(s: seq<JobNode>, node: JobNode)
    ensures |Place(s, node)| == |s| + 1
  {
    if s != [] && s[0].key <= node.key { PlaceLength(s[1..], node); }
  }

  lemma {:induction false} DropLength(s: seq<JobNode>, node: JobNode)
    ensures |Drop(s, node)| <= |s|
  {
    if s != [] { DropLength(s[1..], node); }
  }
}
