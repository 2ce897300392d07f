/** Whether the manager can finish once the pool has been stopped, and which pools can hang instead. */
module PoolShutdown {
  import opened Common
  import opened ThreadPool
  import opened PoolInvariants
  import opened PoolLaws
  import opened PoolMinimum

  /** The state after a sequence of steps from `p`, if they can happen in that order. */
  function From(l: Limits, p: Pool, evs: seq<Event>): Option<Pool> {
    if evs == [] then Some(p)
    else
      var before, ev := From(l, p, evs[..|evs| - 1]), evs[|evs| - 1];
      if before.Some? && Enabled(before.value, ev) then Some(Next(l, before.value, ev)) else None
  }

  /** The pool is stopped and every worker has returned, as when the destructor has joined them all. */
  predicate AllReturned(p: Pool) {
    && p.stop && Locked(p)
    && forall t :: 0 <= t < |p.workers| ==> p.workers[t].pc == Retired || p.workers[t].pc == Stopped
  }

  // ---- The workers ----

  /** How many steps a worker of a stopped pool is from its end, at most. */
  function StepsLeft(th: Thread): nat {
    match th.pc
    case Stopped => 0
    case Retired => 0
    case LoopTest => 1
    case Finished => 2
    case Running(_) => 3
    case HasTask(_) => 4
    case QueueTest => 5
    case Locking => 6
    case PushId => 1
    case DecExit => 2
    case DecIdle => 3
    case DecCur => 4
    case ExitTest => 6
    case Waiting => 7
  }

  function Weight(th: Thread): int { StepsLeft(th) }

  lemma OneStepLess(p: Pool, t: nat)
    requires p.stop && Locked(p) && CanWork(p, t)
    ensures Worked(p, t).stop && Locked(Worked(p, t))
    ensures Sum(Worked(p, t).workers, Weight) < Sum(p.workers, Weight)
  {
    LockedWork(p, t);
    OneWorker(p, t, Weight);
    OneStepCloser(p, t);
  }

  lemma OneStepCloser(p: Pool, t: nat)
    requires p.stop && CanWork(p, t)
    ensures Worked(p, t).stop && |Worked(p, t).workers| == |p.workers|
    ensures StepsLeft(Worked(p, t).workers[t]) < StepsLeft(p.workers[t])
  {
  }

  /** Somebody can always go on: the holder of the queue's lock, or anybody if there is none. */
  lemma SomebodyCanWork(p: Pool, t: nat) returns (u: nat)
    requires Locked(p) && t < |p.workers| && p.workers[t].pc != Retired && p.workers[t].pc != Stopped
    ensures CanWork(p, u)
  {
    u := if p.lock.Some? then p.lock.value else t;
    assert p.lock.Some? ==> Holding(p.workers[u].pc);
  }

  /** From every state of a stopped pool all workers can return, whatever the manager does. */
  lemma {:induction false} WorkersReturn(l: Limits, p: Pool) returns (evs: seq<Event>)
    requires p.stop && Locked(p)
    ensures From(l, p, evs).Some? && AllReturned(From(l, p, evs).value)
    decreases Steps(p)
  {
    if t :| 0 <= t < |p.workers| && p.workers[t].pc != Retired && p.workers[t].pc != Stopped {
      var u := SomebodyCanWork(p, t);
      OneStepLess(p, u);
      SumAtLeastZero(Worked(p, u).workers, Weight);
      evs := WorkersReturn(l, Worked(p, u));
      FromCons(l, p, Work(u), evs);
      evs := [Work(u)] + evs;
    } else {
      evs := [];
    }
  }

  function Steps(p: Pool): nat {
    var n := Sum(p.workers, Weight);
    if n >= 0 then n else 0
  }

  /** So no reachable state of a stopped pool is a deadlock of its workers. */
  lemma StoppedWorkersReturn(l: Limits, evs: seq<Event>) returns (more: seq<Event>)
    requires After(l, evs).Some? && After(l, evs).value.stop
    ensures From(l, After(l, evs).value, more).Some? && AllReturned(From(l, After(l, evs).value, more).value)
  {
    RunInvariant(l, evs);
    more := WorkersReturn(l, After(l, evs).value);
  }

  // ---- The manager ----

  predicate WillOrder(l: Limits, idle: int, cur: int) { idle > Half(cur) && cur > l.min }

  /** The manager waits, or is bound to, for an id that nobody is left to enter. */
  predicate Doomed(l: Limits, p: Pool) {
    p.ids == []
    && match p.manager
      case SampleIdle => WillOrder(l, p.idle, p.cur)
      case SampleCur(idle) => WillOrder(l, idle, p.cur)
      case Decide(idle, cur) => WillOrder(l, idle, cur)
      case StoreExit(_) => true
      case WaitIds => p.exit > 0
      case _ => false
  }

  lemma DoomedStep(l: Limits, p: Pool, ev: Event)
    requires AllReturned(p) && Doomed(l, p) && Enabled(p, ev)
    ensures AllReturned(Next(l, p, ev)) && Doomed(l, Next(l, p, ev))
  {
  }

  lemma {:induction false} DoomedForever(l: Limits, p: Pool, evs: seq<Event>)
    requires AllReturned(p) && Doomed(l, p) && From(l, p, evs).Some?
    ensures AllReturned(From(l, p, evs).value) && Doomed(l, From(l, p, evs).value)
  {
    if evs != [] {
      var front := evs[..|evs| - 1];
      DoomedForever(l, p, front);
      DoomedStep(l, From(l, p, front).value, evs[|evs| - 1]);
    }
  }

  /** How many steps the manager of a stopped pool is from its end, at most. */
  function Distance(m: ManagerPc): nat {
    match m
    case ManagerDone => 0
    case ManagerLoop => 1
    case Cleanup => 2
    case IncIdle => 2
    case IncCur(_) => 3
    case Spawn(_) => 4
    case WaitIds => 3
    case StoreExit(_) => 4
    case Decide(_, _) => 5
    case SampleCur(_) => 6
    case SampleIdle => 7
  }

  /** A manager that is not doomed can walk to its end on its own. */
  lemma {:induction false} CanFinish(l: Limits, p: Pool) returns (evs: seq<Event>)
    requires p.stop && !Doomed(l, p)
    ensures From(l, p, evs).Some? && From(l, p, evs).value.manager == ManagerDone
    decreases Distance(p.manager)
  {
    if p.manager == ManagerDone {
      evs := [];
    } else {
      var p' := Managed(l, p);
      evs := CanFinish(l, p');
      FromCons(l, p, Manage, evs);
      evs := [Manage] + evs;
    }
  }

  lemma {:induction false} FromCons(l: Limits, p: Pool, ev: Event, evs: seq<Event>)
    requires Enabled(p, ev)
    ensures From(l, p, [ev] + evs) == From(l, Next(l, p, ev), evs)
  {
    if evs == [] {
      assert [ev] + evs == [ev] && [ev][..0] == [];
    } else {
      var front := evs[..|evs| - 1];
      assert ([ev] + evs)[..|evs|] == [ev] + front;
      FromCons(l, p, ev, front);
    }
  }

  /** Once every worker has returned: the manager can finish exactly if it is not doomed; else no run lets it. */
  lemma ManagerFinishes(l: Limits, p: Pool)
    requires AllReturned(p)
    ensures (exists evs :: From(l, p, evs).Some? && From(l, p, evs).value.manager == ManagerDone) <==> !Doomed(l, p)
  {
    if Doomed(l, p) {
      forall evs | From(l, p, evs).Some? ensures From(l, p, evs).value.manager != ManagerDone {
        DoomedForever(l, p, evs);
      }
    } else {
      var evs := CanFinish(l, p);
    }
  }

  // ---- Which pools can hang ----

  /** The first `k` of a busy crew finish, and are about to test `m_stop`. */
  lemma {:induction false} FirstFree(l: Limits, p: Pool, n: nat, k: nat) returns (p': Pool)
    requires Reached(l, p, Team(n, 0, [], Crew(0, n, n, Running(JOB), Running(JOB)))) && k <= n
    ensures Reached(l, p', Team(n, k, [], Crew(0, k, n, LoopTest, Running(JOB))))
    decreases k
  {
    if k == 0 {
      p' := p;
      assert p.workers == Crew(0, 0, n, LoopTest, Running(JOB));
    } else {
      p' := FirstFree(l, p, n, k - 1);
      p' := Finish(l, p', Look(p'), k - 1);
      CrewPut(0, k - 1, n, LoopTest, Running(JOB));
    }
  }

  /** A stopped pool whose workers from `k` on are about to test `m_stop`: they return. */
  lemma {:induction false} TheyReturn(l: Limits, p: Pool, k: nat) returns (p': Pool)
    requires Reachable(l, p) && p.stop && p.lock.None? && k <= |p.workers|
    requires forall t :: 0 <= t < k ==> p.workers[t].pc == Stopped
    requires forall t :: k <= t < |p.workers| ==> p.workers[t].pc == LoopTest
    ensures Reachable(l, p') && AllReturned(p')
    ensures p'.ids == p.ids && p'.manager == p.manager && p'.exit == p.exit
    decreases |p.workers| - k
  {
    if k == |p.workers| {
      p' := p;
    } else {
      p' := Go(l, p, Work(k));
      p' := TheyReturn(l, p', k + 1);
    }
  }

  /** The manager orders two to retire just before the pool is stopped; the workers see `m_stop` first. */
  lemma Hangs(l: Limits) returns (p: Pool)
    requires !NeverGrows(l)
    ensures Reachable(l, p) && AllReturned(p) && Doomed(l, p)
  {
    var n: nat := l.min + 1;
    p := OneMore(l);
    p := FirstFree(l, p, n, n);
    p := DecideToRetire(l, p, Look(p));
    p := Store(l, p, Look(p));
    p := Go(l, p, SetStop);
    p := TheyReturn(l, p, 0);
  }

  /** A pool can be stopped so that its destructor never returns, exactly if it can ever grow. */
  lemma ShutdownCanHang(l: Limits)
    ensures (exists p :: Reachable(l, p) && AllReturned(p) && Doomed(l, p)) <==> !NeverGrows(l)
  {
    if NeverGrows(l) {
      forall p | Reachable(l, p) ensures !Doomed(l, p) {
        var evs :| After(l, evs) == Some(p);
        StaysFrozen(l, evs);
      }
    } else {
      var p := Hangs(l);
    }
  }
}
