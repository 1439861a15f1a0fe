/** The critical sections of common/src/sstack_thread_pool.c on its linked job queue and active list, each
    proved to do what the state machine of PoolModel does in one step. */
module PoolHeap {
  import opened PoolModel

  class Job {
    const id: nat
    var next: Job?

    constructor (id: nat)
      ensures this.id == id && next == null
    {
      this.id := id;
      next := null;
    }
  }

  /** The entry of a thread on the active list. */
  class Active {
    const tid: nat
    var next: Active?

    constructor (tid: nat)
      ensures this.tid == tid
    {
      this.tid := tid;
      next := null;
    }
  }

  ghost function JobAt(js: seq<Job>, i: nat): Job? {
    if i < |js| then js[i] else null
  }

  ghost function ActiveAt(acts: seq<Active>, i: nat): Active? {
    if i < |acts| then acts[i] else null
  }

  ghost predicate JobChain(js: seq<Job>)
    reads js
  {
    && (forall i, k :: 0 <= i < k < |js| ==> js[i] != js[k])
    && (forall i :: 0 <= i < |js| ==> js[i].next == JobAt(js, i + 1))
  }

  ghost predicate ActiveChain(acts: seq<Active>)
    reads acts
  {
    && (forall i, k :: 0 <= i < k < |acts| ==> acts[i] != acts[k])
    && (forall i :: 0 <= i < |acts| ==> acts[i].next == ActiveAt(acts, i + 1))
  }

  ghost function Ids(js: seq<Job>): (r: seq<nat>)
    ensures |r| == |js| && forall i :: 0 <= i < |js| ==> r[i] == js[i].id
  {
    seq(|js|, i requires 0 <= i < |js| => js[i].id)
  }

  ghost function Tids(acts: seq<Active>): (r: seq<nat>)
    ensures |r| == |acts| && forall i :: 0 <= i < |acts| ==> r[i] == acts[i].tid
  {
    seq(|acts|, i requires 0 <= i < |acts| => acts[i].tid)
  }

  datatype Outcome = Ended(next: Next) | Again

  class ThreadPool {
    const minimum: nat
    const maximum: nat
    const linger: nat
    var head: Job?
    var tail: Job?
    var active: Active?
    var wait: bool
    var nthreads: int
    var idle: int
    ghost var jobs: seq<Job>
    ghost var actives: seq<Active>

    ghost predicate Valid()
      reads this, jobs, actives
    {
      && JobChain(jobs) && ActiveChain(actives)
      && head == JobAt(jobs, 0) && tail == (if jobs == [] then null else jobs[|jobs| - 1])
      && active == ActiveAt(actives, 0)
    }

    ghost function View(): Pool
      reads this
    {
      Pool(minimum, maximum, linger, Ids(jobs), Tids(actives), wait, nthreads, idle)
    }

    constructor (minimum: nat, maximum: nat, linger: nat)
      ensures Valid() && jobs == [] && actives == []
      ensures Create(minimum, maximum, linger).Created? ==> View() == Create(minimum, maximum, linger).s.p
    {
      this.minimum := minimum;
      this.maximum := maximum;
      this.linger := linger;
      head, tail, active := null, null, null;
      wait, nthreads, idle := false, 0, 0;
      jobs, actives := [], [];
    }

    method Append(job: Job)
      requires Valid() && job !in jobs
      modifies this`head, this`tail, this`jobs, job, jobs
      ensures Valid() && jobs == old(jobs) + [job]
    {
      ghost var js := jobs;
      job.next := null;
      if head == null {
        head := job;
      } else {
        tail.next := job;
      }
      tail := job;
      jobs := js + [job];
      forall i | 0 <= i < |jobs| ensures jobs[i].next == JobAt(jobs, i + 1) {
        if i + 1 < |js| { assert jobs[i] == js[i] && js[i].next == JobAt(js, i + 1); }
      }
      hide JobAt, ActiveAt;
    }

    /** sstack_thread_pool_queue, once the job is allocated; thread creation succeeds. */
    method Queue(job: Job) returns (wake: Wake)
      requires Valid() && job !in jobs
      modifies this, job, jobs
      ensures Valid() && (View(), wake) == QueueJob(old(View()), job.id)
      ensures jobs == old(jobs) + [job] && actives == old(actives)
    {
      hide JobChain, ActiveChain, Ids, Tids;
      Append(job);
      IdsAppend(old(jobs), job);
      if idle > 0 {
        wake := Signal;
      } else if nthreads < maximum {
        nthreads := nthreads + 1;
        wake := Spawn;
      } else {
        wake := Nobody;
      }
    }

    /** notify_waiters, under its callers' test of POOL_WAIT. */
    method NotifyWaiters()
      requires Valid()
      modifies this`wait
      ensures Valid() && View() == Notify(old(View()))
    {
      if wait && head == null && active == null {
        wait := false;
      }
    }

    method Dequeue() returns (job: Job)
      requires Valid() && head != null
      modifies this`head, this`tail, this`jobs
      ensures Valid() && [job] + jobs == old(jobs) && View() == old(View()).(queue := old(View()).queue[1..])
      ensures job.id == old(View()).queue[0]
    {
      ghost var js := jobs;
      assert js[0].next == JobAt(js, 1);
      job := head;
      head := job.next;
      if job == tail { tail := null; }
      jobs := js[1..];
      forall i | 0 <= i < |jobs| ensures jobs[i].next == JobAt(jobs, i + 1) {
        assert jobs[i] == js[i + 1] && js[i + 1].next == JobAt(js, i + 2);
      }
      assert Ids(jobs) == Ids(js)[1..];
    }

    method Activate(me: Active)
      requires Valid() && me !in actives
      modifies this`active, this`actives, me
      ensures Valid() && actives == [me] + old(actives)
      ensures View() == old(View()).(active := [me.tid] + old(View()).active)
    {
      ghost var acts := actives;
      me.next := active;
      active := me;
      actives := [me] + acts;
      forall i | 0 <= i < |actives| ensures actives[i].next == ActiveAt(actives, i + 1) {
        if i > 0 { assert actives[i] == acts[i - 1] && acts[i - 1].next == ActiveAt(acts, i); }
      }
      assert Tids(actives) == [me.tid] + Tids(acts);
    }

    /** A worker takes the first job and puts itself on the active list. */
    method TakeJob(me: Active) returns (job: Job)
      requires Valid() && head != null && me !in actives
      modifies this, me
      ensures Valid() && (View(), Run(job.id)) == Take(old(View()), me.tid)
      ensures actives == [me] + old(actives) && [job] + jobs == old(jobs)
    {
      hide JobChain, ActiveChain, Ids, Tids;
      idle := idle - 1;
      job := Dequeue();
      Activate(me);
    }

    /** job_cleanup: take the first entry of this thread off the active list, and tell the waiters. */
    method JobCleanup(tid: nat)
      requires Valid()
      modifies this, actives
      ensures Valid() && View() == Retire(old(View()), tid)
      ensures jobs == old(jobs) && forall a :: a in actives ==> a in old(actives)
    {
      Unlink(tid);
      NotifyWaiters();
    }

    method Unlink(tid: nat)
      requires Valid()
      modifies this`active, this`actives, actives
      ensures Valid() && View() == old(View()).(active := Without(old(View()).active, tid))
      ensures forall a :: a in actives ==> a in old(actives)
    {
      var prev: Active?, entry := null, active;
      ghost var i := 0;
      while entry != null && entry.tid != tid
        invariant i <= |actives| && entry == ActiveAt(actives, i)
        invariant prev == (if i > 0 then actives[i - 1] else null)
        invariant forall k :: 0 <= k < i ==> actives[k].tid != tid
        decreases |actives| - i
      {
        prev, entry := entry, entry.next;
        i := i + 1;
      }
      TidsWithout(actives, tid, i);
      hide Tids, Without, JobChain, ActiveChain;
      if entry != null {
        Bypass(prev, entry, i);
      }
    }

    method Bypass(prev: Active?, entry: Active, ghost i: nat)
      requires Valid() && i < |actives| && entry == actives[i] && prev == if i > 0 then actives[i - 1] else null
      modifies this`active, this`actives, actives
      ensures Valid() && actives == old(actives)[..i] + old(actives)[i + 1..]
    {
      ghost var acts := actives;
      assert entry.next == ActiveAt(acts, i + 1);
      if prev == null {
        active := entry.next;
      } else {
        prev.next := entry.next;
      }
      CutChain(acts, i);
      hide JobAt, JobChain, ActiveChain;
      actives := acts[..i] + acts[i + 1..];
    }

    /** One pass through the loop of worker_thread, from where the worker has the mutex; it goes round again
        when a wait has timed out and the pool is at its minimum. */
    method Pass(me: Active, pc: Entry) returns (out: Outcome)
      requires Valid() && me !in actives
      modifies this, me
      ensures Valid() && actives == (if out.Ended? && out.next.Run? then [me] + old(actives) else old(actives))
      ensures out.Again? <==> pc == TimedOut && old(jobs) == [] && old(nthreads) <= minimum
      ensures out.Again? ==> View() == old(View()).(idle := old(idle) - 1) && jobs == []
      ensures out.Ended? ==> (View(), out.next) == Body(old(View()), me.tid, pc)
    {
      hide JobChain, ActiveChain, Ids, Tids;
      var timedout := pc == TimedOut;
      if pc == Top {
        idle := idle + 1;
        NotifyWaiters();
      }
      if !timedout && head == null {
        if nthreads <= minimum { return Ended(Sleep); }
        if linger != 0 { return Ended(Nap); }
        timedout := true;
      }
      if head != null {
        var job := TakeJob(me);
        return Ended(Run(job.id));
      }
      idle := idle - 1;
      if timedout && nthreads > minimum {
        nthreads := nthreads - 1;
        return Ended(Leave(false));
      }
      out := Again;
    }

    /** One critical section of worker_thread: from where it gets the mutex to where it lets go of it. */
    method Section(me: Active, at: Entry) returns (next: Next)
      requires Valid() && me !in actives
      modifies this, me
      ensures Valid() && (View(), next) == Body(old(View()), me.tid, at)
      ensures actives == if next.Run? then [me] + old(actives) else old(actives)
    {
      hide JobChain, ActiveChain, Ids, Tids, Look, Take, JobAt, ActiveAt;
      var out := Pass(me, at);
      while out.Again?
        invariant Valid()
        invariant out.Again? ==>
                    at == TimedOut && Body(old(View()), me.tid, at) == Body(View(), me.tid, Top) &&
                    actives == old(actives)
        invariant out.Ended? ==> (View(), out.next) == Body(old(View()), me.tid, at)
        invariant out.Ended? ==> actives == if out.next.Run? then [me] + old(actives) else old(actives)
        decreases out.Again?
      {
        out := Pass(me, Top);
      }
      next := out.next;
    }

    /** worker_cleanup after a job that called pthread_exit. */
    method WorkerCleanup() returns (next: Next)
      requires Valid()
      modifies this`nthreads
      ensures Valid() && (View(), next) == Replace(old(View()))
    {
      hide JobChain, ActiveChain, Ids, Tids;
      nthreads := nthreads - 1;
      if head != null && nthreads < maximum {
        nthreads := nthreads + 1;
        next := Leave(true);
      } else {
        next := Leave(false);
      }
    }

    /** The test in sstack_thread_pool_wait: whether the caller has to wait. */
    method MustWait() returns (blocked: bool)
      requires Valid()
      modifies this`wait
      ensures Valid() && blocked == !Quiet(old(View()))
      ensures View() == if blocked then old(View()).(wait := true) else old(View())
    {
      blocked := head != null || active != null;
      if blocked { wait := true; }
    }
  }

  /** The list without its entry `i`, once the link to it has been moved past it. */
  lemma CutChain(acts: seq<Active>, i: nat)
    requires i < |acts| && forall j, k :: 0 <= j < k < |acts| ==> acts[j] != acts[k]
    requires forall k :: 0 <= k < |acts| ==> acts[k].next == ActiveAt(acts, if k == i - 1 then i + 1 else k + 1)
    ensures ActiveChain(acts[..i] + acts[i + 1..])
    ensures forall a :: a in acts[..i] + acts[i + 1..] ==> a in acts
  {
    hide ActiveAt;
    var cut := acts[..i] + acts[i + 1..];
    CutApart(acts, i);
    forall k | 0 <= k < |cut| ensures cut[k].next == ActiveAt(cut, k + 1) {
      var j := if k < i then k else k + 1;
      assert cut[k] == acts[j];
      CutNext(acts, i, k);
    }
  }

  lemma CutApart(acts: seq<Active>, i: nat)
    requires i < |acts| && forall j, k :: 0 <= j < k < |acts| ==> acts[j] != acts[k]
    ensures var cut := acts[..i] + acts[i + 1..];
            && (forall k :: 0 <= k < |cut| ==> cut[k] == acts[if k < i then k else k + 1])
            && (forall j, k :: 0 <= j < k < |cut| ==> cut[j] != cut[k]) && forall a :: a in cut ==> a in acts
  {
  }

  lemma CutNext(acts: seq<Active>, i: nat, k: nat)
    requires i < |acts| && k + 1 < |acts|
    ensures var j := if k < i then k else k + 1;
            ActiveAt(acts, if j == i - 1 then i + 1 else j + 1) == ActiveAt(acts[..i] + acts[i + 1..], k + 1)
  {
  }

  lemma IdsAppend(js: seq<Job>, job: Job)
    ensures Ids(js + [job]) == Ids(js) + [job.id]
  {
  }

  lemma TidsWithout(acts: seq<Active>, t: nat, i: nat)
    requires i <= |acts| && (forall k :: 0 <= k < i ==> acts[k].tid != t) && (i < |acts| ==> acts[i].tid == t)
    ensures Without(Tids(acts), t) == if i < |acts| then Tids(acts[..i] + acts[i + 1..]) else Tids(acts)
  {
    WithoutAt(Tids(acts), t, i);
    if i < |acts| {
      assert Tids(acts[..i] + acts[i + 1..]) == Tids(acts)[..i] + Tids(acts)[i + 1..];
    }
  }

  lemma {:induction false} WithoutAt(s: seq<nat>, t: nat, i: nat)
    requires i <= |s| && (forall k :: 0 <= k < i ==> s[k] != t) && (i < |s| ==> s[i] == t)
    ensures Without(s, t) == if i < |s| then s[..i] + s[i + 1..] else s
  {
    if i > 0 {
      WithoutAt(s[1..], t, i - 1);
      assert i < |s| ==> s[..i] + s[i + 1..] == [s[0]] + (s[1..][..i - 1] + s[1..][i..]);
    }
  }
}
