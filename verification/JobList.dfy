/** The circular list of common/include/bds_slab/bds_list.h and the job queues of sfs/src/sfs_job.c built on it. */
module JobList {
  import opened Sequences

  /** A list entry, embedded in a job with this id or used as the head of a list. */
  class Link {
    const id: int
    var next: Link
    var prev: Link

    constructor (id: int)
      ensures this.id == id && next == this && prev == this
    {
      this.id := id;
      next, prev := this, this;
    }
  }

  /** The ring, counted from the head and back to it. */
  ghost function At(head: Link, q: seq<Link>, k: nat): Link {
    if 0 < k <= |q| then q[k - 1] else head
  }

  /** Following the links from the head passes the entries of `q` in order, and backwards in reverse. */
  ghost predicate Ring(head: Link, q: seq<Link>)
    reads {head} + set x | x in q
  {
    && head !in q && NoDup(q)
    && (forall k :: 0 <= k <= |q| ==> At(head, q, k).next == At(head, q, k + 1))
    && (forall k :: 0 <= k <= |q| ==> At(head, q, k + 1).prev == At(head, q, k))
  }

  /** INIT_LIST_HEAD. */
  method Init(head: Link)
    modifies head
    ensures Ring(head, [])
  {
    head.next, head.prev := head, head;
  }

  /** __bds_list_add, between entries `k` and `k + 1` of the ring. */
  method AddBetween(node: Link, prev: Link, next: Link, ghost head: Link, ghost q: seq<Link>, ghost k: nat)
    requires Ring(head, q) && k <= |q| && prev == At(head, q, k) && next == At(head, q, k + 1) && node !in q
    requires node != head
    modifies node, prev, next
    ensures Ring(head, q[..k] + [node] + q[k..])
  {
    prev.next := node;
    node.next := next;
    node.prev := prev;
    next.prev := node;
    Inserted(head, q, k, node);
  }

  lemma Inserted(head: Link, q: seq<Link>, k: nat, node: Link)
    requires k <= |q| && head !in q && NoDup(q) && node !in q && node != head
    requires forall j :: 0 <= j <= |q| && j != k ==>
               At(head, q, j).next == At(head, q, j + 1) && At(head, q, j + 1).prev == At(head, q, j)
    requires At(head, q, k).next == node && node.next == At(head, q, k + 1)
    requires At(head, q, k + 1).prev == node && node.prev == At(head, q, k)
    ensures Ring(head, q[..k] + [node] + q[k..])
  {
    var r := q[..k] + [node] + q[k..];
    forall j | 0 <= j <= |r| ensures At(head, r, j).next == At(head, r, j + 1) && At(head, r, j + 1).prev ==
        At(head, r, j) {
      InsertedAt(head, q, k, node, j);
      InsertedAt(head, q, k, node, j + 1);
      var i := if j > k + 1 then j - 1 else j;
      assert i != k && i <= |q| ==>
               At(head, q, i).next == At(head, q, i + 1) && At(head, q, i + 1).prev == At(head, q, i);
    }
  }

  lemma InsertedAt(head: Link, q: seq<Link>, k: nat, node: Link, j: nat)
    requires k <= |q|
    ensures At(head, q[..k] + [node] + q[k..], j) == if j <= k then At(head, q, j) else if j == k + 1 then node
            else At(head, q, j - 1)
  {
  }

  lemma RemovedAt(head: Link, q: seq<Link>, k: nat, j: nat)
    requires k < |q|
    ensures At(head, q[..k] + q[k + 1..], j) == if j <= k then At(head, q, j) else At(head, q, j + 1)
  {
  }

  /** bds_list_add and bds_list_add_tail. */
  method AddFront(node: Link, head: Link, ghost q: seq<Link>)
    requires Ring(head, q) && node !in q && node != head
    modifies node, head, head.next
    ensures Ring(head, [node] + q)
  {
    AddBetween(node, head, head.next, head, q, 0);
    assert q[..0] + [node] + q[0..] == [node] + q;
  }

  method AddTail(node: Link, head: Link, ghost q: seq<Link>)
    requires Ring(head, q) && node !in q && node != head
    modifies node, head, head.prev
    ensures Ring(head, q + [node])
  {
    assert head == At(head, q, |q| + 1) && head.prev == At(head, q, |q|);
    AddBetween(node, head.prev, head, head, q, |q|);
    assert q[..|q|] + [node] + q[|q|..] == q + [node];
  }

  /** bds_list_del. */
  method Delete(entry: Link, ghost head: Link, ghost q: seq<Link>, ghost k: nat)
    requires Ring(head, q) && k < |q| && entry == q[k]
    modifies entry.prev, entry.next
    ensures Ring(head, q[..k] + q[k + 1..])
  {
    assert entry == At(head, q, k + 1) && entry.prev == At(head, q, k) && entry.next == At(head, q, k + 2);
    var prev, next := entry.prev, entry.next;
    next.prev := prev;
    prev.next := next;
    Removed(head, q, k);
  }

  lemma Removed(head: Link, q: seq<Link>, k: nat)
    requires k < |q| && head !in q && NoDup(q)
    requires forall j :: 0 <= j <= |q| && j != k && j != k + 1 ==>
               At(head, q, j).next == At(head, q, j + 1) && At(head, q, j + 1).prev == At(head, q, j)
    requires At(head, q, k).next == At(head, q, k + 2) && At(head, q, k + 2).prev == At(head, q, k)
    ensures Ring(head, q[..k] + q[k + 1..])
  {
    var r := q[..k] + q[k + 1..];
    forall j | 0 <= j <= |r| ensures At(head, r, j).next == At(head, r, j + 1) && At(head, r, j + 1).prev ==
        At(head, r, j) {
      RemovedAt(head, q, k, j);
      RemovedAt(head, q, k, j + 1);
      var i := if j > k then j + 1 else j;
      assert i != k ==> At(head, q, i).next == At(head, q, i + 1) && At(head, q, i + 1).prev == At(head, q, i);
    }
  }

  // ----- the job queues -----

  const NUM_PRIORITY_MAX: int := 2

  /** The place of the first job with this id, or the length of the queue. */
  ghost function First(q: seq<Link>, id: int): (i: nat)
    ensures i <= |q| && (i < |q| ==> q[i].id == id) && forall j :: 0 <= j < i ==> q[j].id != id
  {
    if q == [] || q[0].id == id then 0 else 1 + First(q[1..], id)
  }

  ghost function Without(q: seq<Link>, id: int): seq<Link> {
    var i := First(q, id);
    if i < |q| then q[..i] + q[i + 1..] else q
  }

  /** Exactly the first job with the id goes, and all others keep their order; without one nothing goes. */
  lemma WithoutSays(a: seq<Link>, job: Link, b: seq<Link>, id: int)
    requires forall j :: 0 <= j < |a| ==> a[j].id != id
    ensures Without(a, id) == a
    ensures job.id == id ==> Without(a + [job] + b, id) == a + b
  {
    var q := a + [job] + b;
    assert forall j :: 0 <= j < |a| ==> q[j] == a[j];
    assert q[|a|] == job;
    assert q[..|a|] == a && q[|a| + 1..] == b;
  }

  datatype QueueOp = Put(p: int, job: Link?) | Get(p: int, job: Link?)

  /** Whether an operation is one on an initialised queue, with a job to add or to look for. */
  predicate Proper(op: QueueOp) {
    0 <= op.p < 2 && op.job != null
  }

  ghost function Done(qs: seq<seq<Link>>, op: QueueOp): (r: seq<seq<Link>>)
    requires |qs| == 2
    ensures |r| == 2
  {
    if !Proper(op) then qs
    else if op.Put? then qs[op.p := qs[op.p] + [op.job]]
    else qs[op.p := Without(qs[op.p], op.job.id)]
  }

  ghost function AllDone(qs: seq<seq<Link>>, ops: seq<QueueOp>): seq<seq<Link>>
    requires |qs| == 2
    decreases |ops|
  {
    if ops == [] then qs else AllDone(Done(qs, ops[0]), ops[1..])
  }

  /** No operation is on the queue left out, and no job is added that is on a queue already. */
  ghost predicate Legal(qs: seq<seq<Link>>, heads: seq<Link>, ops: seq<QueueOp>)
    requires |qs| == 2
    decreases |ops|
  {
    ops != [] ==>
      && ops[0].p != NUM_PRIORITY_MAX
      && (ops[0].Put? && ops[0].job != null ==> ops[0].job !in heads && ops[0].job !in qs[0] && ops[0].job !in qs[1])
      && Legal(Done(qs, ops[0]), heads, ops[1..])
  }

  class JobQueues {
    const heads: seq<Link>
    ghost var queues: seq<seq<Link>>

    ghost function Jobs(): set<Link>
      reads this
    {
      set i, j | 0 <= i < |queues| && 0 <= j < |queues[i]| :: queues[i][j]
    }

    ghost predicate Apart()
      reads this
    {
      && |heads| == 3 && |queues| == 2 && (forall i, j :: 0 <= i < j < 3 ==> heads[i] != heads[j])
      && (forall i, j :: 0 <= i < 3 && 0 <= j < 2 ==> heads[i] !in queues[j])
      && (forall j, k :: 0 <= j < |queues[0]| && 0 <= k < |queues[1]| ==> queues[0][j] != queues[1][k])
    }

    /** The two queues that are initialised are rings, and share nothing. */
    ghost predicate Valid()
      reads this, heads, Jobs()
    {
      Apart() && Ring(heads[0], queues[0]) && Ring(heads[1], queues[1])
    }

    /** sfs_job_list_init: its loop leaves out the queue of the lowest priority. */
    constructor ()
      ensures Valid() && queues == [[], []] && fresh(heads)
    {
      var h0 := new Link(-1);
      var h1 := new Link(-1);
      var h2 := new Link(-1);
      heads := [h0, h1, h2];
      queues := [[], []];
      new;
      Init(heads[0]);
      Init(heads[1]);
    }

    /** sfs_enqueue_job, for a queue that is initialised. */
    method Enqueue(priority: int, job: Link?) returns (rc: int)
      requires Valid() && priority != NUM_PRIORITY_MAX && (job != null ==> job !in heads && job !in Jobs())
      modifies this, heads, Jobs(), job
      ensures Valid() && rc == if 0 <= priority <= NUM_PRIORITY_MAX && job != null then 0 else -1
      ensures queues == if rc == 0 then old(queues)[priority := old(queues)[priority] + [job]] else old(queues)
    {
      if priority < 0 || priority > NUM_PRIORITY_MAX || job == null { return -1; }
      hide Valid, Jobs;
      Append(priority, job);
      rc := 0;
    }

    method Append(p: nat, job: Link)
      requires Valid() && p < 2 && job !in heads && job !in Jobs()
      modifies `queues, heads, Jobs(), job
      ensures Valid() && queues == old(queues)[p := old(queues)[p] + [job]]
    {
      hide Ring, Jobs;
      ghost var q, other := queues[p], queues[1 - p];
      InJobs(p);
      InJobs(1 - p);
      Elsewhere(p);
      AddTail(job, heads[p], q);
      queues := queues[p := q + [job]];
      assert old(Ring(heads[1 - p], queues[1 - p]));
    }

    /** sfs_dequeue_job, for a queue that is initialised. */
    method Dequeue(priority: int, job: Link?) returns (rc: int)
      requires Valid() && priority != NUM_PRIORITY_MAX
      modifies this, heads, Jobs()
      ensures Valid()
      ensures rc == if 0 <= priority <= NUM_PRIORITY_MAX && job != null &&
                       First(old(queues)[priority], job.id) < |old(queues)[priority]| then 0 else -1
      ensures queues == if rc == 0 then old(queues)[priority := Without(old(queues)[priority], job.id)] else old(queues)
    {
      if priority < 0 || priority > NUM_PRIORITY_MAX || job == null { return -1; }
      ghost var q := queues[priority];
      InJobs(priority);
      var head := heads[priority];
      if head.next == head { return -1; }
      var temp := Search(head, job.id, q);
      if temp == head { return -1; }
      hide Valid, First, Jobs;
      RemoveAt(priority, temp, First(q, job.id));
      rc := 0;
    }

    method RemoveAt(p: nat, entry: Link, ghost k: nat)
      requires Valid() && p < 2 && k < |queues[p]| && entry == queues[p][k]
      modifies `queues, heads, Jobs()
      ensures Valid() && queues == old(queues)[p := old(queues)[p][..k] + old(queues)[p][k + 1..]]
    {
      hide Ring, Jobs;
      ghost var all, q := queues, queues[p];
      InJobs(p);
      Around(p, k);
      Elsewhere(p);
      Delete(entry, heads[p], q, k);
      queues := queues[p := q[..k] + q[k + 1..]];
      StillApart(all, p, k);
      assert old(Ring(heads[1 - p], queues[1 - p]));
    }

    method Do(op: QueueOp)
      requires Valid() && Legal(queues, heads, [op])
      modifies this, heads, Jobs(), op.job
      ensures Valid() && queues == Done(old(queues), op) && Jobs() <= old(Jobs()) + {op.job}
    {
      ghost var qs := queues;
      NotInJobs(op.job);
      if op.Put? {
        var _ := Enqueue(op.p, op.job);
      } else {
        var _ := Dequeue(op.p, op.job);
      }
      JobsAfter(qs, op);
    }

    /** After any run the queues are rings, and hold what the same operations leave of the sequences. */
    method Run(ops: seq<QueueOp>)
      requires Valid() && Legal(queues, heads, ops)
      modifies this, heads, Jobs(), set op | op in ops :: op.job
      ensures Valid() && queues == AllDone(old(queues), ops)
    {
      hide Done, First, Without, Ring, Jobs;
      assert ops[0..] == ops;
      for i := 0 to |ops|
        invariant Valid() && Legal(queues, heads, ops[i..]) && AllDone(queues, ops[i..]) == AllDone(old(queues), ops)
        invariant Jobs() <= old(Jobs()) + (set op | op in ops :: op.job)
      {
        assert ops[i..][0] == ops[i] && ops[i..][1..] == ops[i + 1..] && [ops[i]][1..] == [];
        assert Legal(Done(queues, ops[i]), heads, []);
        Do(ops[i]);
      }
    }

    lemma NotInJobs(job: Link?)
      requires |queues| == 2
      ensures job != null && job !in queues[0] && job !in queues[1] ==> job !in Jobs()
    {
    }

    lemma JobsAfter(qs: seq<seq<Link>>, op: QueueOp)
      requires |qs| == 2 && queues == Done(qs, op)
      ensures forall x :: x in Jobs() ==> x in qs[0] || x in qs[1] || x == op.job
    {
      hide First;
    }

    lemma Elsewhere(p: nat)
      requires Apart() && p < 2
      ensures heads[p] != heads[1 - p] && heads[p] !in queues[1 - p] && heads[1 - p] !in queues[p]
      ensures forall x :: x in queues[p] ==> x !in queues[1 - p]
    {
    }

    lemma InJobs(p: nat)
      requires Valid() && p < 2
      ensures forall x :: x in queues[p] ==> x in Jobs()
      ensures Ring(heads[p], queues[p]) && heads[p].prev == At(heads[p], queues[p], |queues[p]|)
      ensures heads[p].next == At(heads[p], queues[p], 1)
      ensures (heads[p].prev in Jobs() && heads[p].prev in queues[p]) || heads[p].prev == heads[p]
    {
      assert At(heads[p], queues[p], |queues[p]| + 1) == heads[p] == At(heads[p], queues[p], 0);
    }

    lemma Around(p: nat, k: nat)
      requires Valid() && p < 2 && k < |queues[p]|
      ensures var e := queues[p][k];
              && (e.prev in Jobs() || e.prev == heads[p]) && (e.next in Jobs() || e.next == heads[p])
              && (e.prev in queues[p] || e.prev == heads[p]) && (e.next in queues[p] || e.next == heads[p])
    {
      var head, q := heads[p], queues[p];
      InJobs(p);
      assert q[k] == At(head, q, k + 1) && q[k].prev == At(head, q, k) && q[k].next == At(head, q, k + 2);
    }

    lemma StillApart(all: seq<seq<Link>>, p: nat, k: nat)
      requires p < 2 && |all| == 2 && k < |all[p]| && queues == all[p := all[p][..k] + all[p][k + 1..]] && |heads| == 3
      requires forall i, j :: 0 <= i < j < 3 ==> heads[i] != heads[j]
      requires forall i, j :: 0 <= i < 3 && 0 <= j < 2 ==> heads[i] !in all[j]
      requires forall j, k :: 0 <= j < |all[0]| && 0 <= k < |all[1]| ==> all[0][j] != all[1][k]
      ensures Apart()
    {
      forall j | 0 <= j < |queues[p]| ensures queues[p][j] in all[p] {
      }
    }
  }

  /** The loop of sfs_dequeue_job: the first job with the id, or the head. */
  method Search(head: Link, id: int, ghost q: seq<Link>) returns (temp: Link)
    requires Ring(head, q)
    ensures temp == At(head, q, First(q, id) + 1) && (temp == head <==> First(q, id) == |q|)
  {
    ghost var k := 0;
    assert head == At(head, q, 0);
    temp := head.next;
    while temp != head && temp.id != id
      invariant k <= |q| && temp == At(head, q, k + 1)
      invariant forall j :: 0 <= j < k ==> q[j].id != id
      decreases |q| - k
    {
      assert temp.next == At(head, q, k + 2);
      temp := temp.next;
      k := k + 1;
    }
  }
}
