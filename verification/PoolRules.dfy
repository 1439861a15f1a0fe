/** When the threads of the pool come, wait and go: rules for every step of every run of PoolModel, on the jobs, the
    threads and the limits of the pool alone. */
module PoolRules {
  import opened PoolModel

  /** A pool can be created exactly when its limits allow a thread; it starts without any. */
  lemma Creates(minimum: nat, maximum: nat, linger: nat)
    ensures Create(minimum, maximum, linger).Created? <==> minimum <= maximum && 1 <= maximum
    ensures Create(minimum, maximum, linger).Created? ==>
              var s := Create(minimum, maximum, linger).s;
              && s.p.minimum == minimum && s.p.maximum == maximum && s.p.linger == linger
              && s.workers == map[] && s.accepted == [] && s.blocked == s.woken == {} && Quiet(s.p) && Inv(s)
  {
  }

  ghost predicate OthersSame(s: Sys, s': Sys, w: nat) {
    forall v :: v != w ==> (v in s'.workers <==> v in s.workers) && (v in s.workers ==> s'.workers[v] == s.workers[v])
  }

  ghost predicate IsNow(s: Sys, w: nat, ph: Phase) {
    w in s.workers && s.workers[w] == ph
  }

  /** A worker has looked for work. It runs the first job if there is one. If there is none it leaves exactly when there
      are more threads than the minimum and it has waited long enough, or is not to wait at all; it waits with a time
      limit if there are more than the minimum and it has yet to wait, and without one if there are not. */
  ghost predicate Turned(s: Sys, s': Sys, w: nat, waited: bool) {
    var none, surplus := s.p.queue == [], s.p.nthreads > s.p.minimum;
    && OthersSame(s, s', w)
    && (!none ==> IsNow(s', w, Busy(s.p.queue[0])) && s'.p.queue == s.p.queue[1..])
    && (none ==> s'.p.queue == [])
    && (w !in s'.workers <==> none && surplus && (waited || s.p.linger == 0))
    && (IsNow(s', w, Blocked(true)) <==> none && surplus && !waited && s.p.linger > 0)
    && (IsNow(s', w, Blocked(false)) <==> none && !surplus)
    && s'.p.nthreads == s.p.nthreads - (if w in s'.workers then 0 else 1)
  }

  /** A job has been queued. If no worker was idle there is one thread more, unless there are as many as there may be;
      if some were, one that sleeps is woken, if any does, and no thread is created. */
  ghost predicate Queued(s: Sys, s': Sys, j: nat, t: nat) {
    && s'.accepted == s.accepted + [j] && s'.p.queue == s.p.queue + [j] && OthersSame(s, s', t)
    && (Idle(s.workers) == {} && s.p.nthreads < s.p.maximum ==>
          t !in s.workers && IsNow(s', t, Fresh) && s'.p.nthreads == s.p.nthreads + 1)
    && (Idle(s.workers) == {} && s.p.nthreads == s.p.maximum ==> s'.workers == s.workers)
    && (Idle(s.workers) != {} || s.p.nthreads == s.p.maximum ==> s'.p.nthreads == s.p.nthreads)
    && (Sleepers(s.workers) != {} ==> t in Sleepers(s.workers) && IsNow(s', t, Awake))
    && (Idle(s.workers) != {} && Sleepers(s.workers) == {} ==> s'.workers == s.workers)
  }

  /** A job has ended its thread. It is replaced exactly when there is work. */
  ghost predicate Exited(s: Sys, s': Sys, w: nat, t: nat) {
    && w !in s'.workers && s'.p.queue == s.p.queue
    && (t in s'.workers <==> s.p.queue != []) && (s.p.queue != [] ==> s'.workers[t] == Fresh)
    && s'.p.nthreads == s.p.nthreads - (if s.p.queue != [] then 0 else 1)
    && forall v :: v != w && v != t ==>
         (v in s'.workers <==> v in s.workers) && (v in s.workers ==> s'.workers[v] == s.workers[v])
  }

  /** A thread has asked whether the pool is quiet: it goes on if so, and otherwise waits. */
  ghost predicate Asked(s: Sys, s': Sys, v: nat) {
    && s'.workers == s.workers && s'.p == s.p.(wait := s'.p.wait)
    && (v in s'.blocked <==> !Quiet(s.p)) && v !in s'.woken
    && forall u :: u != v ==> (u in s'.blocked <==> u in s.blocked) && (u in s'.woken <==> u in s.woken)
  }

  ghost predicate Rule(s: Sys, step: Step, s': Sys) {
    match step
    case Queue(j, t) => Queued(s, s', j, t)
    case Work(w) => w in s.workers && Turned(s, s', w, s.workers[w].Expired?) && s'.done == s.done
    case Finish(w) => IsBusy(s, w) && Turned(s, s', w, false) && s'.done == s.done + {s.workers[w].job}
    case ExitJob(w, t) => IsBusy(s, w) && Exited(s, s', w, t) && s'.done == s.done + {s.workers[w].job}
    case WakeUp(w) => OthersSame(s, s', w) && IsNow(s', w, Awake) && s'.p == s.p
    case TimeOut(w) => OthersSame(s, s', w) && IsNow(s, w, Blocked(true)) && IsNow(s', w, Expired) && s'.p == s.p
    case Wait(v) => Asked(s, s', v)
    case Rewait(v) => v in s.woken && Asked(s, s', v)
    case WakeWaiter(v) => s'.workers == s.workers && s'.p == s.p && v in s'.woken
  }

  ghost predicate IsBusy(s: Sys, w: nat) {
    w in s.workers && s.workers[w].Busy?
  }

  /** Who waits for the pool is let go, apart from spurious wake-ups, exactly when it is quiet. */
  ghost predicate LetGo(s: Sys, step: Step, s': Sys) {
    forall v :: v in s.blocked ==> (v !in s'.blocked <==> v in s'.woken)
                                   && (v in s'.woken <==> step == WakeWaiter(v) || Quiet(s'.p))
  }

  /** A worker that comes to the top of its loop: one that is new, or one that has waited in vain and has to stay. */
  ghost predicate AtTop(s: Sys, w: nat) {
    w in s.workers &&
    (s.workers[w].Fresh? || (s.workers[w].Expired? && s.p.queue == [] && s.p.nthreads <= s.p.minimum))
  }

  /** The flag that somebody waits is set by whoever has to, and cleared by a worker that has ended a job, or comes
      to the top of its loop, and finds the pool quiet. */
  ghost predicate FlagRule(s: Sys, step: Step, s': Sys) {
    s'.p.wait <==>
    if step.Wait? || step.Rewait? then s.p.wait || !Quiet(s.p)
    else if step.Finish? || step.ExitJob? || (step.Work? && AtTop(s, step.w)) then s.p.wait && !Quiet(s'.p)
    else s.p.wait
  }

  ghost predicate LimitsSame(s: Sys, s': Sys) {
    s'.p.minimum == s.p.minimum && s'.p.maximum == s.p.maximum && s'.p.linger == s.p.linger
  }

  lemma QueueRule(s: Sys, j: nat, t: nat)
    requires Inv(s) && Can(s, Queue(j, t))
    ensures Rule(s, Queue(j, t), Do(s, Queue(j, t)))
  {
    NoneIdle(s);
    hide Sleepers, Idle, Ordered, Listed, Staffed;
  }

  lemma NoneIdle(s: Sys)
    requires Inv(s)
    ensures s.p.idle > 0 <==> Idle(s.workers) != {}
    ensures Sleepers(s.workers) <= Idle(s.workers)
  {
  }

  /** What a worker finds when it looks at the queue as an idle one. */
  lemma LookTurns(s: Sys, p: Pool, w: nat)
    requires w in s.workers && p.queue == s.p.queue && p.nthreads == s.p.nthreads && p.minimum == s.p.minimum
    requires p.linger == s.p.linger
    ensures Turned(s, Settle(s, w, Look(p, w)), w, false)
  {
  }

  lemma WorkRule(s: Sys, w: nat)
    requires Can(s, Work(w))
    ensures Rule(s, Work(w), Do(s, Work(w)))
  {
    var ph := s.workers[w];
    hide Look, Turned, Settle, Take;
    if ph.Fresh? {
      LookTurns(s, Notify(s.p.(idle := s.p.idle + 1)), w);
    } else if ph.Awake? {
      LookTurns(s, s.p, w);
    } else {
      ExpireTurns(s, w);
    }
    SettleDone(s, w, Body(s.p, w, EntryOf(ph)));
  }

  lemma ExpireTurns(s: Sys, w: nat)
    requires w in s.workers
    ensures Turned(s, Settle(s, w, Expire(s.p, w)), w, true)
  {
    if s.p.queue == [] && s.p.nthreads <= s.p.minimum {
      LookTurns(s, Notify(s.p.(idle := s.p.idle - 1).(idle := s.p.idle)), w);
    }
  }

  lemma SettleDone(s: Sys, w: nat, r: (Pool, Next))
    ensures Settle(s, w, r).done == s.done
  {
  }

  lemma FinishRule(s: Sys, w: nat)
    requires Can(s, Finish(w))
    ensures Rule(s, Finish(w), Do(s, Finish(w)))
  {
    var s1 := EndJob(s, w);
    hide Look, Without, Take;
    SettleDone(s1, w, Body(s1.p, w, Top));
    LookTurns(s1, Notify(s1.p.(idle := s1.p.idle + 1)), w);
  }

  lemma ExitRule(s: Sys, w: nat, t: nat)
    requires Inv(s) && Can(s, ExitJob(w, t))
    ensures Rule(s, ExitJob(w, t), Do(s, ExitJob(w, t)))
  {
    hide Without, Ordered, Listed, Staffed;
  }

  /** Steps that no worker takes. */
  lemma RestRule(s: Sys, step: Step)
    requires Waiting(s) && Can(s, step) && !step.Queue? && !step.Work? && !step.Finish? && !step.ExitJob?
    ensures Rule(s, step, Do(s, step))
  {
  }

  lemma StepRule(s: Sys, step: Step)
    requires Inv(s) && Can(s, step)
    ensures Rule(s, step, Do(s, step))
  {
    assert Waiting(s);
    hide Inv, Can, Do, Rule;
    match step {
      case Queue(j, t) => QueueRule(s, j, t);
      case Work(w) => WorkRule(s, w);
      case Finish(w) => FinishRule(s, w);
      case ExitJob(w, t) => ExitRule(s, w, t);
      case _ => RestRule(s, step);
    }
  }

  /** A worker that looks for work leaves a quiet pool quiet and any other not, and a flag it clears is that of a quiet
      pool. */
  lemma BodyQuiet(p: Pool, w: nat, at: Entry)
    ensures Quiet(Body(p, w, at).0) <==> Quiet(p)
    ensures p.wait && !Body(p, w, at).0.wait ==> Quiet(p)
  {
    if p.queue != [] { assert ([w] + p.active)[0] == w; }
  }

  lemma SettleBlocked(s: Sys, w: nat, r: (Pool, Next))
    ensures var s', let := Settle(s, w, r), s.p.wait && !r.0.wait;
            s'.p == r.0 && s'.blocked == (if let then {} else s.blocked)
            && s'.woken == if let then s.woken + s.blocked else s.woken
  {
  }

  lemma EndJobBlocked(s: Sys, w: nat)
    requires w in Running(s.workers)
    ensures var s1 := EndJob(s, w);
            if s.p.wait && Quiet(s1.p) then s1.blocked == {} && s1.woken == s.woken + s.blocked && !s1.p.wait
            else s1.blocked == s.blocked && s1.woken == s.woken && s1.p.wait == s.p.wait
  {
    hide Without;
  }

  /** What a step does to those who wait, in general: it leaves them, or lets all of them go from a quiet pool. */
  ghost predicate AllOrNone(s: Sys, s': Sys) {
    || (s'.blocked == s.blocked && s'.woken == s.woken)
    || (s'.blocked == {} && s'.woken == s.woken + s.blocked && Quiet(s'.p))
  }

  lemma WorkAllOrNone(s: Sys, step: Step)
    requires Can(s, step) && (step.Work? || step.Finish?)
    ensures AllOrNone(s, Do(s, step))
  {
    var w := step.w;
    var s1 := if step.Work? then s else EndJob(s, w);
    var at := if step.Work? then EntryOf(s.workers[w]) else Top;
    if step.Finish? { EndJobBlocked(s, w); }
    BodyQuiet(s1.p, w, at);
    SettleBlocked(s1, w, Body(s1.p, w, at));
    assert Do(s, step) == Settle(s1, w, Body(s1.p, w, at));
    hide EndJob, Settle, Body, Quiet, Can, Do;
  }

  lemma ExitAllOrNone(s: Sys, w: nat, t: nat)
    requires Can(s, ExitJob(w, t))
    ensures AllOrNone(s, Do(s, ExitJob(w, t)))
  {
    var s1 := EndJob(s, w);
    EndJobBlocked(s, w);
    SettleBlocked(s1, w, Replace(s1.p));
    hide EndJob, Settle;
  }

  /** With none of them left by a step that waits or wakes, and none blocked once the pool is quiet. */
  lemma AllOrNoneLets(s: Sys, step: Step, s': Sys)
    requires Waiting(s) && Waiting(s') && AllOrNone(s, s') && !step.WakeWaiter?
    ensures LetGo(s, step, s')
  {
  }

  lemma StepLetsGo(s: Sys, step: Step)
    requires Inv(s) && Can(s, step)
    ensures LetGo(s, step, Do(s, step))
  {
    StepInv(s, step);
    var s' := Do(s, step);
    assert Waiting(s) && Waiting(s');
    match step {
      case Work(_) => WorkAllOrNone(s, step); hide *; AllOrNoneLets(s, step, s');
      case Finish(_) => WorkAllOrNone(s, step); hide *; AllOrNoneLets(s, step, s');
      case ExitJob(w, t) => ExitAllOrNone(s, w, t); hide *; AllOrNoneLets(s, step, s');
      case _ => hide Inv; RestLets(s, step);
    }
  }

  lemma RestLets(s: Sys, step: Step)
    requires Waiting(s) && Can(s, step) && Waiting(Do(s, step)) && !step.Work? && !step.Finish? && !step.ExitJob?
    ensures LetGo(s, step, Do(s, step))
  {
  }

  /** What looking for work does to the flag: notify_waiters is called at the top of the loop only. */
  lemma BodyFlag(p: Pool, w: nat, at: Entry)
    ensures var p' := Body(p, w, at).0;
            p'.wait <==> p.wait && !(Quiet(p) && (at == Top || (at == TimedOut && p.nthreads <= p.minimum)))
  {
  }

  lemma StepFlag(s: Sys, step: Step)
    requires Can(s, step)
    ensures FlagRule(s, step, Do(s, step))
  {
    if step.Work? || step.Finish? {
      WorkFlag(s, step);
    } else if step.ExitJob? {
      EndJobBlocked(s, step.w);
      SettleBlocked(EndJob(s, step.w), step.w, Replace(EndJob(s, step.w).p));
      hide EndJob, Settle;
    }
  }

  lemma WorkFlag(s: Sys, step: Step)
    requires Can(s, step) && (step.Work? || step.Finish?)
    ensures FlagRule(s, step, Do(s, step))
  {
    var w := step.w;
    var s1 := if step.Work? then s else EndJob(s, w);
    var at := if step.Work? then EntryOf(s.workers[w]) else Top;
    if step.Finish? { EndJobBlocked(s, w); }
    BodyFlag(s1.p, w, at);
    BodyQuiet(s1.p, w, at);
    SettleBlocked(s1, w, Body(s1.p, w, at));
    assert Do(s, step) == Settle(s1, w, Body(s1.p, w, at));
    hide EndJob, Settle, Body, Do;
  }

  lemma StepLimits(s: Sys, step: Step)
    requires Can(s, step)
    ensures LimitsSame(s, Do(s, step))
  {
    hide Without;
    if step.Work? {
      BodyLimits(s.p, step.w, EntryOf(s.workers[step.w]));
      hide Body;
    } else if step.Finish? {
      BodyLimits(EndJob(s, step.w).p, step.w, Top);
      hide Body;
    }
  }

  lemma BodyLimits(p: Pool, w: nat, at: Entry)
    ensures var p' := Body(p, w, at).0; p'.minimum == p.minimum && p'.maximum == p.maximum && p'.linger == p.linger
  {
  }

  // ----- whole runs -----

  /** At any time in any run of any pool that can be created, every step follows the rules. */
  lemma EveryStep(minimum: nat, maximum: nat, linger: nat, steps: seq<Step>, step: Step)
    requires Create(minimum, maximum, linger).Created? && Legal(Create(minimum, maximum, linger).s, steps)
    requires Can(After(Create(minimum, maximum, linger).s, steps), step)
    ensures var s := After(Create(minimum, maximum, linger).s, steps);
            && Rule(s, step, Do(s, step)) && LetGo(s, step, Do(s, step)) && FlagRule(s, step, Do(s, step))
            && LimitsSame(s, Do(s, step))
  {
    Creates(minimum, maximum, linger);
    hide Inv, Create, Rule, LetGo, FlagRule, Can, Do;
    var s := Create(minimum, maximum, linger).s;
    RunInv(s, steps);
    StepRule(After(s, steps), step);
    StepLetsGo(After(s, steps), step);
    StepFlag(After(s, steps), step);
    StepLimits(After(s, steps), step);
  }

  /** Once there are as many threads as the minimum, there always are, unless jobs end their threads. */
  lemma {:induction false} MinimumKept(s: Sys, steps: seq<Step>)
    requires Inv(s) && Legal(s, steps) && forall i :: 0 <= i < |steps| ==> !steps[i].ExitJob?
    ensures After(s, steps).p.nthreads >= if s.p.nthreads < s.p.minimum then s.p.nthreads else s.p.minimum
    decreases |steps|
  {
    if steps != [] {
      hide Inv, Can, Do, Rule, LetGo;
      StepInv(s, steps[0]);
      StepLimits(s, steps[0]);
      StepKeeps(s, steps[0]);
      MinimumKept(Do(s, steps[0]), steps[1..]);
    }
  }

  lemma StepKeeps(s: Sys, step: Step)
    requires Inv(s) && Can(s, step) && !step.ExitJob?
    ensures Do(s, step).p.nthreads >= s.p.nthreads || Do(s, step).p.nthreads >= s.p.minimum
  {
    StepRule(s, step);
    hide Do, Can, Idle, Sleepers, Ordered, Listed, Staffed;
  }
}
