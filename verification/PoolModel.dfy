/** The worker thread pool of common/src/sstack_thread_pool.c as a state machine whose steps are its
    critical sections under the pool mutex, interleaved in any order with wake-ups and timeouts. */
module PoolModel {
  import opened Sequences

  /** The fields of the pool: the job queue from head to tail, and the threads on the active list. */
  datatype Pool = Pool(
    minimum: nat, maximum: nat, linger: nat, queue: seq<nat>, active: seq<nat>, wait: bool, nthreads: int, idle: int)

  /** What sstack_thread_pool_queue does after linking the job. */
  datatype Wake = Signal | Spawn | Nobody

  /** How a worker's critical section ends: it runs a job, waits on the work condition without or with a
      time limit, or leaves, having started a replacement or not. */
  datatype Next = Run(job: nat) | Sleep | Nap | Leave(spawn: bool)

  function QueueJob(p: Pool, j: nat): (Pool, Wake) {
    var p' := p.(queue := p.queue + [j]);
    if p.idle > 0 then (p', Signal)
    else if p.nthreads < p.maximum then (p'.(nthreads := p.nthreads + 1), Spawn)
    else (p', Nobody)
  }

  predicate Quiet(p: Pool) {
    p.queue == [] && p.active == []
  }

  /** notify_waiters, called when POOL_WAIT is set; the waiters are woken iff the flag is cleared. */
  function Notify(p: Pool): Pool {
    if p.wait && Quiet(p) then p.(wait := false) else p
  }

  /** An idle worker that holds the mutex looks at the queue. */
  function Look(p: Pool, w: nat): (Pool, Next) {
    if p.queue != [] then Take(p, w)
    else if p.nthreads <= p.minimum then (p, Sleep)
    else if p.linger > 0 then (p, Nap)
    else (p.(idle := p.idle - 1, nthreads := p.nthreads - 1), Leave(false))
  }

  function Take(p: Pool, w: nat): (Pool, Next)
    requires p.queue != []
  {
    (p.(idle := p.idle - 1, queue := p.queue[1..], active := [w] + p.active), Run(p.queue[0]))
  }

  /** The top of the worker's loop. */
  function Enter(p: Pool, w: nat): (Pool, Next) {
    Look(Notify(p.(idle := p.idle + 1)), w)
  }

  /** A worker whose wait timed out. */
  function Expire(p: Pool, w: nat): (Pool, Next) {
    if p.queue != [] then Take(p, w)
    else if p.nthreads > p.minimum then (p.(idle := p.idle - 1, nthreads := p.nthreads - 1), Leave(false))
    else Enter(p.(idle := p.idle - 1), w)
  }

  /** Where a worker gets the mutex: at the top of its loop, or back from a wait that was ended by a wake-up or
      by its time limit. */
  datatype Entry = Top | Woken | TimedOut

  /** A worker's critical section, from where it gets the mutex to where it lets go of it. */
  function Body(p: Pool, w: nat, at: Entry): (Pool, Next) {
    match at
    case Top => Enter(p, w)
    case Woken => Look(p, w)
    case TimedOut => Expire(p, w)
  }

  function Without(s: seq<nat>, w: nat): seq<nat> {
    if s == [] then [] else if s[0] == w then s[1..] else [s[0]] + Without(s[1..], w)
  }

  /** job_cleanup. */
  function Retire(p: Pool, w: nat): Pool {
    Notify(p.(active := Without(p.active, w)))
  }

  /** worker_cleanup of a worker whose job called pthread_exit. */
  function Replace(p: Pool): (Pool, Next) {
    if p.queue != [] && p.nthreads - 1 < p.maximum then (p, Leave(true))
    else (p.(nthreads := p.nthreads - 1), Leave(false))
  }

  // ----- threads -----

  /** Fresh: created and not yet in its loop. Blocked: waiting on the work condition. Awake and Expired: its
      wait has ended by a wake-up or by its time limit, and it has yet to get the mutex. */
  datatype Phase = Fresh | Blocked(timed: bool) | Awake | Expired | Busy(job: nat)

  /** `blocked` and `woken` are the threads inside sstack_thread_pool_wait. `accepted` and `started` are the jobs
      queued and taken so far, `done` those that have ended. */
  datatype Sys = Sys(
    p: Pool, workers: map<nat, Phase>, blocked: set<nat>, woken: set<nat>, accepted: seq<nat>, started: seq<nat>,
        done: set<nat>)

  /** `t` is the thread woken or created by the step, where there is one. */
  datatype Step =
    | Queue(j: nat, t: nat)
    | Work(w: nat)
    | Finish(w: nat)
    | ExitJob(w: nat, t: nat)
    | WakeUp(w: nat)
    | TimeOut(w: nat)
    | Wait(v: nat)
    | Rewait(v: nat)
    | WakeWaiter(v: nat)

  function Sleepers(workers: map<nat, Phase>): set<nat> {
    set w | w in workers && workers[w].Blocked?
  }

  /** Workers that will look at the queue without being woken. */
  function Ready(workers: map<nat, Phase>): set<nat> {
    set w | w in workers && !workers[w].Blocked? && !workers[w].Busy?
  }

  function Idle(workers: map<nat, Phase>): set<nat> {
    set w | w in workers && !workers[w].Fresh? && !workers[w].Busy?
  }

  function NIdle(workers: map<nat, Phase>): nat {
    |Idle(workers)|
  }

  function NReady(workers: map<nat, Phase>): nat {
    |Ready(workers)|
  }

  function NWorkers(workers: map<nat, Phase>): nat {
    |workers|
  }

  predicate NoneAsleep(workers: map<nat, Phase>) {
    Sleepers(workers) == {}
  }

  function Running(workers: map<nat, Phase>): set<nat> {
    set w | w in workers && workers[w].Busy?
  }

  function EntryOf(ph: Phase): Entry {
    if ph.Fresh? then Top else if ph.Expired? then TimedOut else Woken
  }

  predicate Can(s: Sys, step: Step) {
    match step
    case Queue(j, t) =>
      && j !in s.accepted
      && (QueueJob(s.p, j).1.Signal? ==> t in Sleepers(s.workers) || NoneAsleep(s.workers))
      && (QueueJob(s.p, j).1.Spawn? ==> t !in s.workers)
    case Work(w) => w in Ready(s.workers)
    case Finish(w) => w in Running(s.workers)
    case ExitJob(w, t) => w in Running(s.workers) && t !in s.workers
    case WakeUp(w) => w in Sleepers(s.workers)
    case TimeOut(w) => w in s.workers && s.workers[w] == Blocked(true)
    case Wait(v) => v !in s.blocked && v !in s.woken
    case Rewait(v) => v in s.woken
    case WakeWaiter(v) => v in s.blocked
  }

  /** A worker's critical section ended with `r`. */
  function Settle(s: Sys, w: nat, r: (Pool, Next)): Sys {
    var s' := Broadcast(s, r.0);
    match r.1
    case Run(job) => s'.(workers := s.workers[w := Busy(job)], started := s.started + [job])
    case Sleep => s'.(workers := s.workers[w := Blocked(false)])
    case Nap => s'.(workers := s.workers[w := Blocked(true)])
    case Leave(_) => s'.(workers := s.workers - {w})
  }

  /** The pool's new fields; waiters are woken when POOL_WAIT has been cleared. */
  function Broadcast(s: Sys, p': Pool): Sys {
    if s.p.wait && !p'.wait then s.(p := p', blocked := {}, woken := s.woken + s.blocked) else s.(p := p')
  }

  /** The test in sstack_thread_pool_wait. */
  function WaitTest(s: Sys, v: nat): Sys {
    if Quiet(s.p) then s.(woken := s.woken - {v})
    else s.(p := s.p.(wait := true), blocked := s.blocked + {v}, woken := s.woken - {v})
  }

  /** The job of `w` has ended and it has gone through job_cleanup: it is back where a new worker starts. */
  function EndJob(s: Sys, w: nat): Sys
    requires w in Running(s.workers)
  {
    Broadcast(s, Retire(s.p, w)).(done := s.done + {s.workers[w].job}, workers := s.workers[w := Fresh])
  }

  function Do(s: Sys, step: Step): Sys
    requires Can(s, step)
  {
    match step
    case Queue(j, t) =>
      var (p', wake) := QueueJob(s.p, j);
      var s' := s.(p := p', accepted := s.accepted + [j]);
      if wake.Spawn? then s'.(workers := s.workers[t := Fresh])
      else if wake.Signal? && t in Sleepers(s.workers) then s'.(workers := s.workers[t := Awake])
      else s'
    case Work(w) => Settle(s, w, Body(s.p, w, EntryOf(s.workers[w])))
    case Finish(w) => var s' := EndJob(s, w); Settle(s', w, Body(s'.p, w, Top))
    case ExitJob(w, t) =>
      var s' := EndJob(s, w);
      var r := Replace(s'.p);
      var s'' := Settle(s', w, r);
      if r.1 == Leave(true) then s''.(workers := s''.workers[t := Fresh]) else s''
    case WakeUp(w) => s.(workers := s.workers[w := Awake])
    case TimeOut(w) => s.(workers := s.workers[w := Expired])
    case Wait(v) => WaitTest(s, v)
    case Rewait(v) => WaitTest(s, v)
    case WakeWaiter(v) => s.(blocked := s.blocked - {v}, woken := s.woken + {v})
  }

  // ----- what every run keeps -----

  /** The counters say what the threads are doing, and so does the active list. */
  ghost predicate Counted(s: Sys) {
    && s.p.minimum <= s.p.maximum && 1 <= s.p.maximum
    && s.p.nthreads == NWorkers(s.workers) <= s.p.maximum
    && s.p.idle == NIdle(s.workers)
  }

  ghost predicate Listed(s: Sys) {
    NoDup(s.p.active) && forall w :: w in s.p.active <==> w in Running(s.workers)
  }

  /** Either enough workers are on their way to the queue or none is asleep. */
  ghost predicate Staffed(s: Sys) {
    && (|s.p.queue| <= NReady(s.workers) || NoneAsleep(s.workers))
    && (s.p.queue != [] ==> NWorkers(s.workers) > 0)
  }

  /** Jobs start in the order they were queued, and each is queued, running on one worker, or done. */
  ghost predicate Ordered(s: Sys) {
    && s.accepted == s.started + s.p.queue && NoDup(s.accepted)
    && (forall w :: w in Running(s.workers) ==> s.workers[w].job in s.started && s.workers[w].job !in s.done)
    && (forall v, w :: v in Running(s.workers) && w in Running(s.workers) && v != w ==>
        s.workers[v].job != s.workers[w].job)
    && (forall j :: j in s.done ==> j in s.started)
    && (forall j :: j in s.started && j !in s.done ==> exists w :: w in Running(s.workers) && s.workers[w].job == j)
  }

  /** No thread stays blocked in sstack_thread_pool_wait once the pool is quiet. */
  ghost predicate Waiting(s: Sys) {
    && (s.blocked != {} ==> s.p.wait && !Quiet(s.p))
    && s.blocked !! s.woken
  }

  ghost predicate Inv(s: Sys) {
    Counted(s) && Listed(s) && Staffed(s) && Ordered(s) && Waiting(s)
  }

  // ----- counting threads -----

  lemma Cards(a: set<nat>, w: nat)
    ensures |a + {w}| == |a| + (if w in a then 0 else 1)
    ensures |a - {w}| == |a| - (if w in a then 1 else 0)
  {
    if w in a {
      assert a + {w} == a;
      assert a == (a - {w}) + {w};
    } else {
      assert a - {w} == a;
    }
  }

  function With(a: set<nat>, w: nat, b: bool): set<nat> {
    if b then a + {w} else a - {w}
  }

  /** How the groups of threads change when one worker changes its phase or is created. */
  lemma PhaseChange(ws: map<nat, Phase>, w: nat, ph: Phase)
    ensures var ws' := ws[w := ph];
            && Idle(ws') == With(Idle(ws), w, !ph.Fresh? && !ph.Busy?)
            && Ready(ws') == With(Ready(ws), w, !ph.Blocked? && !ph.Busy?)
            && Sleepers(ws') == With(Sleepers(ws), w, ph.Blocked?)
            && Running(ws') == With(Running(ws), w, ph.Busy?)
    ensures |ws[w := ph]| == |ws| + (if w in ws then 0 else 1)
  {
    var ws' := ws[w := ph];
    assert Idle(ws') == With(Idle(ws), w, !ph.Fresh? && !ph.Busy?);
    assert Ready(ws') == With(Ready(ws), w, !ph.Blocked? && !ph.Busy?);
    assert Sleepers(ws') == With(Sleepers(ws), w, ph.Blocked?);
    assert Running(ws') == With(Running(ws), w, ph.Busy?);
    if w in ws { assert ws'.Keys == ws.Keys; }
  }

  lemma PhaseGone(ws: map<nat, Phase>, w: nat)
    requires w in ws
    ensures var ws' := ws - {w};
            && Idle(ws') == Idle(ws) - {w} && Ready(ws') == Ready(ws) - {w}
            && Sleepers(ws') == Sleepers(ws) - {w} && Running(ws') == Running(ws) - {w}
    ensures |ws - {w}| == |ws| - 1
  {
    var ws' := ws - {w};
    assert Idle(ws') == Idle(ws) - {w} && Ready(ws') == Ready(ws) - {w};
    assert Sleepers(ws') == Sleepers(ws) - {w} && Running(ws') == Running(ws) - {w};
    assert ws == ws'[w := ws[w]];
  }

  /** The counts after a worker has changed its phase or has been created. */
  lemma CountChange(ws: map<nat, Phase>, w: nat, ph: Phase)
    ensures var ws' := ws[w := ph];
            && NIdle(ws') == NIdle(ws) - (if w in Idle(ws) then 1 else 0) + (if ph.Fresh? || ph.Busy? then 0 else 1)
            && NReady(ws') == NReady(ws) - (if w in Ready(ws) then 1 else 0) +
                (if ph.Blocked? || ph.Busy? then 0 else 1)
            && NWorkers(ws') == NWorkers(ws) + (if w in ws then 0 else 1)
            && (NoneAsleep(ws) && !ph.Blocked? ==> NoneAsleep(ws'))
            && Running(ws') == With(Running(ws), w, ph.Busy?)
  {
    PhaseChange(ws, w, ph);
    Cards(Idle(ws), w);
    Cards(Ready(ws), w);
  }

  lemma CountGone(ws: map<nat, Phase>, w: nat)
    requires w in ws
    ensures var ws' := ws - {w};
            && NIdle(ws') == NIdle(ws) - (if w in Idle(ws) then 1 else 0)
            && NReady(ws') == NReady(ws) - (if w in Ready(ws) then 1 else 0)
            && NWorkers(ws') == NWorkers(ws) - 1
            && (NoneAsleep(ws) ==> NoneAsleep(ws'))
            && Running(ws') == Running(ws) - {w}
  {
    PhaseGone(ws, w);
    Cards(Idle(ws), w);
    Cards(Ready(ws), w);
  }

  lemma {:induction false} WithoutFacts(s: seq<nat>, w: nat)
    requires NoDup(s)
    ensures NoDup(Without(s, w)) && forall v :: v in Without(s, w) <==> v in s && v != w
  {
    if s != [] && s[0] != w {
      var r := Without(s[1..], w);
      WithoutFacts(s[1..], w);
      forall i | 0 <= i < |r| ensures r[i] != s[0] {
        assert r[i] in s[1..];
      }
    }
  }

  // ----- every step keeps the invariant -----

  /** A worker changes phase without touching its job or the pool. */
  lemma PhaseInv(s: Sys, w: nat, ph: Phase)
    requires Inv(s) && w in s.workers && !s.workers[w].Busy? && !ph.Busy? && !ph.Blocked?
    requires w in Idle(s.workers) <==> !ph.Fresh?
    ensures Inv(s.(workers := s.workers[w := ph]))
  {
    assert w !in Running(s.workers);
    CountChange(s.workers, w, ph);
    hide Idle, Ready, Running, Ordered, Listed, NIdle, NReady, NWorkers, NoneAsleep;
    RunningSame(s, s.(workers := s.workers[w := ph]), w);
  }

  /** Steps that do not start or end a job. */
  lemma RunningSame(s: Sys, s': Sys, w: nat)
    requires Running(s'.workers) == Running(s.workers) - {w} && w !in Running(s.workers)
    requires forall v :: v in s.workers && v != w ==> v in s'.workers && s'.workers[v] == s.workers[v]
    requires s'.accepted == s.accepted && s'.started == s.started && s'.p.queue == s.p.queue && s'.done == s.done
    requires s'.p.active == s.p.active
    ensures Ordered(s) ==> Ordered(s')
    ensures Listed(s) ==> Listed(s')
  {
    assert Running(s'.workers) == Running(s.workers);
    assert forall v :: v in Running(s.workers) ==> v in s'.workers && s'.workers[v] == s.workers[v];
  }

  lemma QueueInv(s: Sys, j: nat, t: nat)
    requires Inv(s) && Can(s, Queue(j, t))
    ensures Inv(Do(s, Queue(j, t)))
  {
    var s' := Do(s, Queue(j, t));
    assert s'.p.queue != [];
    SleepersIdle(s.workers, t);
    hide Idle, Ready, Sleepers, Running, Ordered, Listed, NIdle, NReady, NWorkers, NoneAsleep, Can;
    if s'.workers != s.workers {
      CountChange(s.workers, t, s'.workers[t]);
    }
    QueueOrdered(s, s', j, t);
  }

  lemma SleepersIdle(ws: map<nat, Phase>, t: nat)
    ensures NIdle(ws) == 0 ==> NoneAsleep(ws)
    ensures NIdle(ws) <= NWorkers(ws)
    ensures t in Sleepers(ws) ==> t in ws && t in Idle(ws) && t !in Ready(ws)
    ensures t !in ws ==> t !in Idle(ws) && t !in Ready(ws)
    ensures t !in ws || t in Sleepers(ws) ==> t !in Running(ws)
  {
    assert Idle(ws) <= ws.Keys;
    CardMono(Idle(ws), ws.Keys);
    if t in Sleepers(ws) { assert t in Idle(ws); }
    assert Sleepers(ws) <= Idle(ws);
  }

  lemma {:induction false} CardMono(a: set<nat>, b: set<nat>)
    requires a <= b
    ensures |a| <= |b|
  {
    assert b == a + (b - a);
  }

  lemma QueueOrdered(s: Sys, s': Sys, j: nat, w: nat)
    requires Ordered(s) && Listed(s) && j !in s.accepted && s'.p.active == s.p.active
    requires s'.workers == s.workers || (w !in Running(s.workers) && Running(s'.workers) == Running(s.workers) - {w})
    requires forall v :: v in s.workers && v != w ==> v in s'.workers && s'.workers[v] == s.workers[v]
    requires s'.accepted == s.accepted + [j] && s'.started == s.started && s'.p.queue == s.p.queue + [j]
    requires s'.done == s.done
    ensures Ordered(s') && Listed(s')
  {
    assert Running(s'.workers) == Running(s.workers);
    assert forall v :: v in Running(s.workers) ==> v in s'.workers && s'.workers[v] == s.workers[v];
  }

  /** An idle worker with the mutex takes the first job, or goes back to wait or leaves when there is none. */
  predicate Looked(p: Pool, w: nat, r: (Pool, Next)) {
    if p.queue != [] then r == Take(p, w)
    else r == (p, Sleep) || r == (p, Nap) || r == (p.(idle := p.idle - 1, nthreads := p.nthreads - 1), Leave(false))
  }

  lemma LookedInv(s: Sys, w: nat, r: (Pool, Next))
    requires Inv(s) && w in Idle(s.workers) && w in Ready(s.workers) && Looked(s.p, w, r)
    ensures Inv(Settle(s, w, r))
  {
    assert w in s.workers && w !in Running(s.workers);
    hide Idle, Ready, Running, Ordered, Listed, NIdle, NReady, NWorkers, NoneAsleep;
    if s.p.queue != [] {
      TakeInv(s, w);
    } else if r.1.Leave? {
      CountGone(s.workers, w);
      RunningSame(s, Settle(s, w, r), w);
    } else {
      CountChange(s.workers, w, Blocked(r.1.Nap?));
      RunningSame(s, Settle(s, w, r), w);
    }
  }

  lemma TakeInv(s: Sys, w: nat)
    requires Inv(s) && w in Idle(s.workers) && w in Ready(s.workers) && s.p.queue != []
    ensures Inv(Settle(s, w, Take(s.p, w)))
  {
    var s', j := Settle(s, w, Take(s.p, w)), s.p.queue[0];
    assert w in s.workers && w !in Running(s.workers);
    assert !Quiet(s'.p) by { assert s'.p.active[0] == w; }
    hide Idle, Ready, Running, Ordered, Listed, NIdle, NReady, NWorkers, NoneAsleep, Quiet;
    CountChange(s.workers, w, Busy(j));
    TakeListed(s, s', w);
    TakeOrdered(s, s', w, j);
  }

  lemma TakeListed(s: Sys, s': Sys, w: nat)
    requires Listed(s) && w !in Running(s.workers)
    requires s'.p.active == [w] + s.p.active && Running(s'.workers) == Running(s.workers) + {w}
    ensures Listed(s')
  {
  }

  lemma TakeOrdered(s: Sys, s': Sys, w: nat, j: nat)
    requires Ordered(s) && w !in Running(s.workers) && s.p.queue != [] && j == s.p.queue[0]
    requires s'.workers == s.workers[w := Busy(j)] && s'.started == s.started + [j] && s'.p.queue == s.p.queue[1..]
    requires s'.accepted == s.accepted && s'.done == s.done
    ensures Ordered(s')
  {
    PhaseChange(s.workers, w, Busy(j));
    assert s.accepted == s'.started + s'.p.queue;
    assert j !in s.started by {
      assert s.accepted[|s.started|] == j;
      assert forall i :: 0 <= i < |s.started| ==> s.accepted[i] == s.started[i];
    }
    forall k | k in s'.started && k !in s'.done ensures exists v :: v in Running(s'.workers) && s'.workers[v].job == k {
      if k == j {
        assert w in Running(s'.workers) && s'.workers[w].job == k;
      } else {
        var v :| v in Running(s.workers) && s.workers[v].job == k;
        assert v in Running(s'.workers) && s'.workers[v].job == k;
      }
    }
  }

  lemma EndJobInv(s: Sys, w: nat)
    requires Inv(s) && w in Running(s.workers)
    ensures Inv(EndJob(s, w)) && w in EndJob(s, w).workers && EndJob(s, w).workers[w] == Fresh
  {
    var s' := EndJob(s, w);
    assert w in s.workers && w !in Idle(s.workers) && w !in Ready(s.workers);
    hide Idle, Ready, Ordered, Listed, NIdle, NReady, NWorkers, NoneAsleep, Without;
    CountChange(s.workers, w, Fresh);
    EndListed(s, s', w);
    EndOrdered(s, s', w);
  }

  lemma EndListed(s: Sys, s': Sys, w: nat)
    requires Listed(s) && s'.p.active == Without(s.p.active, w) && Running(s'.workers) == Running(s.workers) - {w}
    ensures Listed(s')
  {
    WithoutFacts(s.p.active, w);
  }

  lemma EndOrdered(s: Sys, s': Sys, w: nat)
    requires Ordered(s) && w in Running(s.workers) && s'.workers == s.workers[w := Fresh]
    requires s'.done == s.done + {s.workers[w].job} && s'.p.queue == s.p.queue
    requires s'.accepted == s.accepted && s'.started == s.started
    ensures Ordered(s')
  {
    assert Running(s'.workers) == Running(s.workers) - {w};
    forall j | j in s'.started && j !in s'.done ensures exists v :: v in Running(s'.workers) && s'.workers[v].job == j {
      var v :| v in Running(s.workers) && s.workers[v].job == j;
      assert v in Running(s'.workers) && s'.workers[v].job == j;
    }
  }

  /** A worker at the top of its loop has counted itself idle and told the waiters. */
  function Entered(s: Sys, w: nat, p: Pool): Sys {
    Broadcast(s, Notify(p)).(workers := s.workers[w := Awake])
  }

  lemma EnteredInv(s: Sys, w: nat, p: Pool)
    requires Inv(s) && w in Ready(s.workers)
    requires p == s.p.(idle := if w in Idle(s.workers) then s.p.idle else s.p.idle + 1)
    ensures Inv(Entered(s, w, p))
    ensures w in Idle(Entered(s, w, p).workers) && w in Ready(Entered(s, w, p).workers)
  {
    var s' := Entered(s, w, p);
    assert w in s.workers && w !in Running(s.workers);
    CountChange(s.workers, w, Awake);
    assert w in Idle(s'.workers) && w in Ready(s'.workers);
    hide Idle, Ready, Running, Ordered, Listed, NIdle, NReady, NWorkers, NoneAsleep;
    RunningSame(s, s', w);
  }

  /** A critical section that goes through the top of the loop is one that starts there as an idle worker. */
  lemma SettleEntered(s: Sys, w: nat, p: Pool)
    requires w in s.workers && p.wait == s.p.wait
    ensures Settle(s, w, Look(Notify(p), w)) == Settle(Entered(s, w, p), w, Look(Notify(p), w))
  {
    var ws := s.workers[w := Awake];
    assert ws - {w} == s.workers - {w};
    assert ws[w := Blocked(true)] == s.workers[w := Blocked(true)];
    assert ws[w := Blocked(false)] == s.workers[w := Blocked(false)];
    if p.queue != [] {
      assert ws[w := Busy(p.queue[0])] == s.workers[w := Busy(p.queue[0])];
    }
  }

  lemma EnterInv(s: Sys, w: nat, p: Pool)
    requires Inv(s) && w in Ready(s.workers)
    requires p == s.p.(idle := if w in Idle(s.workers) then s.p.idle else s.p.idle + 1)
    ensures Inv(Settle(s, w, Look(Notify(p), w)))
  {
    EnteredInv(s, w, p);
    assert w in s.workers;
    SettleEntered(s, w, p);
    hide Inv, Idle, Ready, Settle;
    LookedInv(Entered(s, w, p), w, Look(Notify(p), w));
  }

  lemma WorkInv(s: Sys, w: nat)
    requires Inv(s) && Can(s, Work(w))
    ensures Inv(Do(s, Work(w)))
  {
    match s.workers[w] {
      case Fresh =>
        assert w !in Idle(s.workers);
        EnterInv(s, w, s.p.(idle := s.p.idle + 1));
      case Awake =>
        LookedInv(s, w, Look(s.p, w));
      case Expired =>
        if s.p.queue == [] && s.p.nthreads <= s.p.minimum {
          assert s.p.(idle := s.p.idle - 1).(idle := s.p.idle - 1 + 1) == s.p;
          EnterInv(s, w, s.p);
        } else {
          LookedInv(s, w, Expire(s.p, w));
        }
    }
  }

  lemma FinishInv(s: Sys, w: nat)
    requires Inv(s) && Can(s, Finish(w))
    ensures Inv(Do(s, Finish(w)))
  {
    hide Inv, EndJob;
    EndJobInv(s, w);
    var s' := EndJob(s, w);
    assert w in Ready(s'.workers) && w !in Idle(s'.workers);
    EnterInv(s', w, s'.p.(idle := s'.p.idle + 1));
  }

  lemma ExitInv(s: Sys, w: nat, t: nat)
    requires Inv(s) && Can(s, ExitJob(w, t))
    ensures Inv(Do(s, ExitJob(w, t)))
  {
    EndJobInv(s, w);
    var s' := EndJob(s, w);
    assert t !in s'.workers;
    assert w in s'.workers && w !in Idle(s'.workers) && w in Ready(s'.workers) && w !in Running(s'.workers);
    hide EndJob, Inv;
    ReplaceInv(s', w, t);
  }

  lemma ReplaceInv(s: Sys, w: nat, t: nat)
    requires Inv(s) && w in s.workers && s.workers[w] == Fresh && t !in s.workers
    ensures var s' := Settle(s, w, Replace(s.p));
            Inv(if Replace(s.p).1 == Leave(true) then s'.(workers := s'.workers[t := Fresh]) else s')
  {
    assert w !in Idle(s.workers) && w in Ready(s.workers) && w !in Running(s.workers);
    hide Idle, Ready, Running, Ordered, Listed, NIdle, NReady, NWorkers, NoneAsleep;
    var s1 := Settle(s, w, Replace(s.p));
    CountGone(s.workers, w);
    RunningSame(s, s1, w);
    if s.p.queue != [] {
      SpawnInv(s, s1, w, t);
    }
  }

  /** The worker leaving and the one replacing it. */
  lemma SpawnInv(s: Sys, s1: Sys, w: nat, t: nat)
    requires Inv(s) && w in s.workers && s.workers[w] == Fresh && t !in s.workers
    requires s1 == s.(workers := s.workers - {w}) && Ordered(s1) && Listed(s1)
    ensures Inv(s1.(workers := s1.workers[t := Fresh]))
  {
    var ws := s1.workers;
    assert w !in Idle(s.workers) && w in Ready(s.workers);
    assert t !in Idle(ws) && t !in Ready(ws) && t !in Running(ws);
    hide Idle, Ready, Running, Ordered, Listed, NIdle, NReady, NWorkers, NoneAsleep;
    CountGone(s.workers, w);
    CountChange(ws, t, Fresh);
    RunningSame(s1, s1.(workers := ws[t := Fresh]), t);
  }

  lemma WaitInv(s: Sys, v: nat)
    requires Inv(s) && v !in s.blocked
    ensures Inv(WaitTest(s, v))
  {
    var s' := WaitTest(s, v);
    hide Idle, Ready, Running, NIdle, NReady, NWorkers, NoneAsleep;
  }

  lemma StepInv(s: Sys, step: Step)
    requires Inv(s) && Can(s, step)
    ensures Inv(Do(s, step))
  {
    match step {
      case Queue(j, t) => QueueInv(s, j, t);
      case Work(w) => WorkInv(s, w);
      case Finish(w) => FinishInv(s, w);
      case ExitJob(w, t) => ExitInv(s, w, t);
      case WakeUp(w) => PhaseInv(s, w, Awake);
      case TimeOut(w) => PhaseInv(s, w, Expired);
      case Wait(v) => WaitInv(s, v);
      case Rewait(v) => WaitInv(s, v);
      case WakeWaiter(v) =>
        hide Idle, Ready, Running, NIdle, NReady, NWorkers, NoneAsleep;
    }
  }

  // ----- whole runs -----

  /** sstack_thread_pool_create. */
  datatype Creation = Invalid | Created(s: Sys)

  function Create(minimum: nat, maximum: nat, linger: nat): Creation {
    if minimum > maximum || maximum < 1 then Invalid
    else Created(Sys(Pool(minimum, maximum, linger, [], [], false, 0, 0), map[], {}, {}, [], [], {}))
  }

  ghost predicate Legal(s: Sys, steps: seq<Step>)
    decreases |steps|
  {
    steps != [] ==> Can(s, steps[0]) && Legal(Do(s, steps[0]), steps[1..])
  }

  ghost function After(s: Sys, steps: seq<Step>): Sys
    requires Legal(s, steps)
    decreases |steps|
  {
    if steps == [] then s else After(Do(s, steps[0]), steps[1..])
  }

  lemma {:induction false} RunInv(s: Sys, steps: seq<Step>)
    requires Inv(s) && Legal(s, steps)
    ensures Inv(After(s, steps))
    decreases |steps|
  {
    if steps != [] {
      StepInv(s, steps[0]);
      hide Inv, Can, Do;
      RunInv(Do(s, steps[0]), steps[1..]);
    }
  }

  predicate RunningJob(s: Sys, j: nat) {
    exists w :: w in Running(s.workers) && s.workers[w].job == j
  }

  predicate ExactlyOne(a: bool, b: bool, c: bool) {
    if a then !b && !c else b != c
  }

  /** What holds in every reachable state: queued work is never left to sleeping workers; jobs start in queue
      order; every accepted job is queued, running or done and only one of these; the counters and the active
      list are right; and nobody waits for a quiet pool. */
  ghost predicate WellRun(s: Sys) {
    && (s.p.queue != [] ==> exists w :: w in s.workers && !s.workers[w].Blocked?)
    && s.started <= s.accepted && s.p.queue == s.accepted[|s.started|..]
    && (forall j :: j in s.accepted ==> ExactlyOne(j in s.p.queue, RunningJob(s, j), j in s.done))
    && s.p.nthreads == |s.workers| <= s.p.maximum && s.p.idle == |Idle(s.workers)|
    && NoDup(s.p.active) && (forall w :: w in s.p.active <==> w in Running(s.workers))
    && (Quiet(s.p) ==> s.blocked == {})
  }

  lemma NeverStranded(s: Sys)
    requires Inv(s) && s.p.queue != []
    ensures exists w :: w in s.workers && !s.workers[w].Blocked?
  {
    if NoneAsleep(s.workers) {
      var w :| w in s.workers;
      assert w !in Sleepers(s.workers);
    } else {
      assert Ready(s.workers) != {};
      var w :| w in Ready(s.workers);
    }
  }

  lemma OnePlace(s: Sys, j: nat)
    requires Inv(s) && j in s.accepted
    ensures ExactlyOne(j in s.p.queue, RunningJob(s, j), j in s.done)
  {
    assert j in s.started || j in s.p.queue;
    if j in s.p.queue {
      var i :| 0 <= i < |s.p.queue| && s.p.queue[i] == j;
      assert s.accepted[|s.started| + i] == j;
      assert j !in s.started by {
        assert forall k :: 0 <= k < |s.started| ==> s.accepted[k] == s.started[k];
      }
    }
  }

  lemma InvWellRun(s: Sys)
    requires Inv(s)
    ensures WellRun(s)
  {
    if s.p.queue != [] { NeverStranded(s); }
    forall j | j in s.accepted ensures ExactlyOne(j in s.p.queue, RunningJob(s, j), j in s.done) {
      OnePlace(s, j);
    }
    hide Idle, Running, ExactlyOne, RunningJob, NReady, NoneAsleep;
  }

  /** Every run of every pool that can be created. */
  lemma PoolSafety(minimum: nat, maximum: nat, linger: nat, steps: seq<Step>)
    requires Create(minimum, maximum, linger).Created? && Legal(Create(minimum, maximum, linger).s, steps)
    ensures WellRun(After(Create(minimum, maximum, linger).s, steps))
  {
    var s := Create(minimum, maximum, linger).s;
    assert Inv(s);
    hide Inv, WellRun, Create;
    RunInv(s, steps);
    InvWellRun(After(s, steps));
  }

  // ----- every job gets done -----

  /** Steps the workers take by themselves, without new jobs, spurious wake-ups or timeouts. */
  predicate ByWorker(step: Step) {
    step.Work? || step.Finish? || step.ExitJob?
  }

  /** Decreased by every step of a worker. */
  ghost function Load(s: Sys): nat {
    2 * |s.p.queue| + 2 * |Running(s.workers)| + NReady(s.workers)
  }

  lemma LoadChange(ws: map<nat, Phase>, w: nat, ph: Phase)
    ensures |Running(ws[w := ph])| == |Running(ws)| - (if w in Running(ws) then 1 else 0) + (if ph.Busy? then 1 else 0)
  {
    PhaseChange(ws, w, ph);
    Cards(Running(ws), w);
  }

  lemma LoadGone(ws: map<nat, Phase>, w: nat)
    requires w in ws
    ensures |Running(ws - {w})| == |Running(ws)| - (if w in Running(ws) then 1 else 0)
  {
    PhaseGone(ws, w);
    Cards(Running(ws), w);
  }

  /** A worker that looks at the queue takes one job off it, or leaves it alone and is no longer ready. */
  lemma SettleLoad(s: Sys, w: nat, r: (Pool, Next))
    requires w in Ready(s.workers)
    requires if r.1.Run? then s.p.queue != [] && r.0.queue == s.p.queue[1..] else r.0.queue == s.p.queue
    ensures Load(Settle(s, w, r)) < Load(s)
  {
    assert w in s.workers && w !in Running(s.workers);
    hide Ready, Running, NReady, NIdle, NWorkers, NoneAsleep;
    match r.1 {
      case Run(j) => CountChange(s.workers, w, Busy(j)); LoadChange(s.workers, w, Busy(j));
      case Sleep => CountChange(s.workers, w, Blocked(false)); LoadChange(s.workers, w, Blocked(false));
      case Nap => CountChange(s.workers, w, Blocked(true)); LoadChange(s.workers, w, Blocked(true));
      case Leave(_) => CountGone(s.workers, w); LoadGone(s.workers, w);
    }
  }

  lemma EndJobLoad(s: Sys, w: nat)
    requires w in Running(s.workers)
    ensures Load(EndJob(s, w)) == Load(s) - 1 && w in Ready(EndJob(s, w).workers)
  {
    assert w in s.workers && w !in Ready(s.workers);
    assert w in Ready(s.workers[w := Fresh]);
    hide Ready, NReady, NIdle, NWorkers, NoneAsleep, Without;
    CountChange(s.workers, w, Fresh);
    LoadChange(s.workers, w, Fresh);
  }

  lemma SpawnLoad(s: Sys, t: nat)
    requires t !in s.workers
    ensures Load(s.(workers := s.workers[t := Fresh])) == Load(s) + 1
  {
    assert t !in Ready(s.workers) && t !in Running(s.workers);
    CountChange(s.workers, t, Fresh);
    LoadChange(s.workers, t, Fresh);
  }

  lemma StepLoad(s: Sys, step: Step)
    requires Can(s, step) && ByWorker(step)
    ensures Load(Do(s, step)) < Load(s)
  {
    if step.Work? {
      var w := step.w;
      SettleLoad(s, w, Body(s.p, w, EntryOf(s.workers[w])));
    } else {
      var w, s' := step.w, EndJob(s, step.w);
      EndJobLoad(s, w);
      if step.Finish? {
        SettleLoad(s', w, Enter(s'.p, w));
      } else {
        var r := Replace(s'.p);
        SettleLoad(s', w, r);
        var s'' := Settle(s', w, r);
        assert step.t !in s''.workers;
        SpawnLoad(s'', step.t);
      }
    }
  }

  /** As long as the pool is not quiet some worker can go on. */
  lemma SomeoneWorks(s: Sys) returns (step: Step)
    requires Inv(s) && !Quiet(s.p)
    ensures Can(s, step) && ByWorker(step)
  {
    if s.p.active != [] {
      assert s.p.active[0] in Running(s.workers);
      step := Finish(s.p.active[0]);
    } else {
      NeverStranded(s);
      var w :| w in s.workers && !s.workers[w].Blocked?;
      assert w !in Running(s.workers);
      step := Work(w);
    }
  }

  lemma {:induction false} RunLoad(s: Sys, steps: seq<Step>)
    requires Legal(s, steps) && forall i :: 0 <= i < |steps| ==> ByWorker(steps[i])
    ensures Load(After(s, steps)) + |steps| <= Load(s)
    decreases |steps|
  {
    if steps != [] {
      StepLoad(s, steps[0]);
      hide Can, Do, Load, ByWorker;
      RunLoad(Do(s, steps[0]), steps[1..]);
    }
  }

  /** From any reachable state the workers by themselves take at most Load steps, whatever the order; and
      when none of them can go on, every job ever accepted is done and nobody is waiting. */
  lemma EveryJobGetsDone(minimum: nat, maximum: nat, linger: nat, steps: seq<Step>, work: seq<Step>)
    requires Create(minimum, maximum, linger).Created? && Legal(Create(minimum, maximum, linger).s, steps)
    requires Legal(After(Create(minimum, maximum, linger).s, steps), work)
    requires forall i :: 0 <= i < |work| ==> ByWorker(work[i])
    ensures var s := After(Create(minimum, maximum, linger).s, steps);
            var s' := After(s, work);
            && |work| <= Load(s)
            && ((forall step :: ByWorker(step) ==> !Can(s', step)) ==>
                  Quiet(s'.p) && s'.blocked == {} && forall j :: j in s'.accepted <==> j in s'.done)
  {
    var start := Create(minimum, maximum, linger).s;
    assert Inv(start);
    hide Inv, Create, Load, Quiet;
    RunInv(start, steps);
    var s := After(start, steps);
    RunLoad(s, work);
    RunInv(s, work);
    var s' := After(s, work);
    if forall step :: ByWorker(step) ==> !Can(s', step) {
      if !Quiet(s'.p) {
        var step := SomeoneWorks(s');
      }
      AllDone(s');
    }
  }

  lemma AllDone(s: Sys)
    requires Inv(s) && Quiet(s.p)
    ensures s.blocked == {} && forall j :: j in s.accepted <==> j in s.done
  {
    assert forall w :: w in Running(s.workers) ==> w in s.p.active;
  }
}
