/** When the pool keeps its minimum: exactly when it can never grow; and for all limits the lowest count there is. */
module PoolMinimum {
  import opened Common
  import opened ThreadPool
  import opened PoolInvariants
  import opened PoolLaws

  ghost predicate Reachable(l: Limits, p: Pool) { exists evs :: After(l, evs) == Some(p) }

  lemma Go(l: Limits, p: Pool, ev: Event) returns (p': Pool)
    requires Reachable(l, p) && Enabled(p, ev)
    ensures Reachable(l, p') && p' == Next(l, p, ev)
  {
    var evs :| After(l, evs) == Some(p);
    p' := Next(l, p, ev);
    assert (evs + [ev])[..|evs|] == evs;
    assert After(l, evs + [ev]) == Some(p');
  }

  // ---- A pool that never grows ----

  predicate NeverGrows(l: Limits) { l.min < 0 || l.max <= l.min }

  predicate Untouched(th: Thread) { th.pc !in {DecCur, DecIdle, DecExit, PushId, Retired} }

  predicate Frozen(l: Limits, p: Pool) {
    && p.cur == l.min && p.exit == 0
    && (p.manager in {ManagerLoop, SampleIdle, ManagerDone} || p.manager.SampleCur? || p.manager.Decide?)
    && (p.manager.Decide? ==> p.manager.cur == l.min)
    && (forall t :: 0 <= t < |p.workers| ==> Untouched(p.workers[t]))
    && (l.min < 0 ==> p.workers == [] && p.idle == l.min)
    && (l.min < 0 && (p.manager.SampleCur? || p.manager.Decide?) ==> p.manager.idle == l.min)
  }

  lemma FrozenWork(l: Limits, p: Pool, t: nat)
    requires Frozen(l, p) && CanWork(p, t)
    ensures Frozen(l, Worked(p, t))
  {
    assert Untouched(p.workers[t]);
  }

  lemma FrozenStep(l: Limits, p: Pool, ev: Event)
    requires NeverGrows(l) && Frozen(l, p) && Enabled(p, ev)
    ensures Frozen(l, Next(l, p, ev))
  {
    if ev.Work? {
      FrozenWork(l, p, ev.t);
    }
  }

  lemma {:induction false} StaysFrozen(l: Limits, evs: seq<Event>)
    requires NeverGrows(l) && After(l, evs).Some?
    ensures Frozen(l, After(l, evs).value)
  {
    if evs != [] {
      var front := evs[..|evs| - 1];
      StaysFrozen(l, front);
      FrozenStep(l, After(l, front).value, evs[|evs| - 1]);
    }
  }

  // ---- Stretches of a run ----

  /** What a schedule has to know of a state; the history and the container follow. */
  datatype Brief = Brief(
    cur: int, idle: int, exit: int, lock: Option<nat>, ids: seq<nat>, manager: ManagerPc, workers: seq<Thread>)

  function Look(p: Pool): Brief { Brief(p.cur, p.idle, p.exit, p.lock, p.ids, p.manager, p.workers) }

  predicate Calm(p: Pool) { p.tasks == [] && !p.stop }

  ghost predicate Reached(l: Limits, p: Pool, b: Brief) { Reachable(l, p) && Calm(p) && Look(p) == b }

  function Put(b: Brief, t: nat, pc: WorkerPc): Brief
    requires t < |b.workers|
  {
    b.(workers := b.workers[t := Thread(pc, 0)])
  }

  predicate Sits(b: Brief, t: nat, pc: WorkerPc) { t < |b.workers| && b.workers[t] == Thread(pc, 0) }

  const JOB: Job := Job(0)

  /** A worker takes up a task. */
  lemma Begin(l: Limits, p: Pool, b: Brief, t: nat) returns (p': Pool)
    requires Reached(l, p, b) && Sits(b, t, LoopTest) && b.lock.None?
    ensures Reached(l, p', Put(b, t, Running(JOB)).(idle := b.idle - 1))
  {
    p' := Go(l, p, AddTask(JOB));
    p' := Go(l, p', Work(t));
    p' := Go(l, p', Work(t));
    p' := Go(l, p', Work(t));
    p' := Go(l, p', Work(t));
  }

  /** A waiting worker takes up a task, when no order to retire is out. */
  lemma Engage(l: Limits, p: Pool, b: Brief, t: nat) returns (p': Pool)
    requires Reached(l, p, b) && Sits(b, t, Waiting) && b.lock.None? && b.exit == 0
    ensures Reached(l, p', Put(b, t, Running(JOB)).(idle := b.idle - 1))
  {
    p' := Go(l, p, AddTask(JOB));
    p' := Go(l, p', Work(t));
    p' := Go(l, p', Work(t));
    p' := Go(l, p', Work(t));
    p' := Go(l, p', Work(t));
  }

  /** ... or finds none, and waits. */
  lemma Rest(l: Limits, p: Pool, b: Brief, t: nat) returns (p': Pool)
    requires Reached(l, p, b) && Sits(b, t, LoopTest) && b.lock.None?
    ensures Reached(l, p', Put(b, t, Waiting))
  {
    p' := Go(l, p, Work(t));
    p' := Go(l, p', Work(t));
    p' := Go(l, p', Work(t));
  }

  lemma Finish(l: Limits, p: Pool, b: Brief, t: nat) returns (p': Pool)
    requires Reached(l, p, b) && Sits(b, t, Running(JOB))
    ensures Reached(l, p', Put(b, t, LoopTest).(idle := b.idle + 1))
  {
    p' := Go(l, p, Work(t));
    p' := Go(l, p', Work(t));
  }

  lemma FinishAndRest(l: Limits, p: Pool, b: Brief, t: nat) returns (p': Pool)
    requires Reached(l, p, b) && Sits(b, t, Running(JOB)) && b.lock.None?
    ensures Reached(l, p', Put(b, t, Waiting).(idle := b.idle + 1))
  {
    p' := Finish(l, p, b, t);
    p' := Rest(l, p', Put(b, t, LoopTest).(idle := b.idle + 1), t);
  }

  /** A worker retires, up to the entry in `m_ids`. */
  lemma Leave(l: Limits, p: Pool, b: Brief, t: nat) returns (p': Pool)
    requires Reached(l, p, b) && Sits(b, t, Waiting) && b.lock.None? && b.exit > 0
    ensures
      Reached(l, p', Put(b, t, PushId).(cur := b.cur - 1, idle := b.idle - 1, exit := b.exit - 1, lock := Some(t)))
  {
    p' := Go(l, p, Work(t));
    p' := Go(l, p', Work(t));
    p' := Go(l, p', Work(t));
    p' := Go(l, p', Work(t));
    p' := Go(l, p', Work(t));
  }

  lemma Sign(l: Limits, p: Pool, b: Brief, t: nat) returns (p': Pool)
    requires Reached(l, p, b) && Sits(b, t, PushId)
    ensures Reached(l, p', Put(b, t, Retired).(ids := b.ids + [t], lock := None))
  {
    p' := Go(l, p, Work(t));
  }

  lemma Retire(l: Limits, p: Pool, b: Brief, t: nat) returns (p': Pool)
    requires Reached(l, p, b) && Sits(b, t, Waiting) && b.lock.None? && b.exit > 0
    ensures
      Reached(
        l, p',
        Put(b, t, Retired).(cur := b.cur - 1, idle := b.idle - 1, exit := b.exit - 1, ids := b.ids + [t]))
  {
    p' := Leave(l, p, b, t);
    p' := Sign(l, p', Look(p'), t);
  }

  /** The manager up to its decision. */
  lemma Sample(l: Limits, p: Pool, b: Brief) returns (p': Pool)
    requires Reached(l, p, b) && b.manager == ManagerLoop
    ensures Reached(l, p', b.(manager := Decide(b.idle, b.cur)))
  {
    p' := Go(l, p, Manage);
    p' := Go(l, p', Manage);
    p' := Go(l, p', Manage);
  }

  lemma DecideToRetire(l: Limits, p: Pool, b: Brief) returns (p': Pool)
    requires Reached(l, p, b) && b.manager == ManagerLoop && b.idle > Half(b.cur) && b.cur > l.min
    ensures Reached(l, p', b.(manager := StoreExit(b.cur)))
  {
    p' := Sample(l, p, b);
    p' := Go(l, p', Manage);
  }

  lemma Store(l: Limits, p: Pool, b: Brief) returns (p': Pool)
    requires Reached(l, p, b) && b.manager.StoreExit?
    ensures Reached(l, p', b.(manager := WaitIds, exit := 2))
  {
    p' := Go(l, p, Manage);
  }

  lemma Clean(l: Limits, p: Pool, b: Brief) returns (p': Pool)
    requires Reached(l, p, b) && b.manager == WaitIds && b.ids != []
    ensures Reached(l, p', b.(manager := ManagerLoop, ids := []))
  {
    p' := Go(l, p, Manage);
    p' := Go(l, p', Manage);
  }

  /** The manager starts a worker and has not yet counted it. */
  lemma StartWorker(l: Limits, p: Pool, b: Brief) returns (p': Pool)
    requires Reached(l, p, b) && b.manager == ManagerLoop && b.idle == 0 && 0 <= b.cur < l.max
    ensures Reached(l, p', b.(manager := IncCur(b.cur), workers := b.workers + [Thread(LoopTest, 0)]))
  {
    p' := Sample(l, p, b);
    p' := Go(l, p', Manage);
    p' := Go(l, p', Manage);
  }

  lemma CountWorker(l: Limits, p: Pool, b: Brief) returns (p': Pool)
    requires Reached(l, p, b) && b.manager.IncCur?
    ensures Reached(l, p', b.(manager := ManagerLoop, cur := b.cur + 1, idle := b.idle + 1))
  {
    p' := Go(l, p, Manage);
    p' := Go(l, p', Manage);
  }

  /** ... and that worker takes up a task at once. */
  lemma Grow(l: Limits, p: Pool, b: Brief) returns (p': Pool)
    requires Reached(l, p, b) && b.manager == ManagerLoop && b.lock.None? && b.idle == 0 && 0 <= b.cur < l.max
    ensures Reached(l, p', b.(cur := b.cur + 1, workers := b.workers + [Thread(Running(JOB), 0)]))
  {
    p' := StartWorker(l, p, b);
    p' := CountWorker(l, p', Look(p'));
    p' := Begin(l, p', Look(p'), |b.workers|);
    assert p'.workers == b.workers + [Thread(Running(JOB), 0)];
  }

  // ---- A pool of any size ----

  /** After `r` retired workers, the first `k` of `n` more at `a`, the others at `b`. */
  function Crew(r: nat, k: nat, n: nat, a: WorkerPc, b: WorkerPc): seq<Thread> {
    seq(r + n, i => Thread(if i < r then Retired else if i < r + k then a else b, 0))
  }

  lemma CrewPut(r: nat, k: nat, n: nat, a: WorkerPc, b: WorkerPc)
    requires k < n
    ensures Crew(r, k, n, a, b)[r + k := Thread(a, 0)] == Crew(r, k + 1, n, a, b)
  {
  }

  /** Everybody counted, no order out, the manager at its loop. */
  function Team(n: nat, idle: int, ids: seq<nat>, workers: seq<Thread>): Brief {
    Brief(n, idle, 0, None, ids, ManagerLoop, workers)
  }

  lemma {:induction false} FirstBusy(l: Limits, k: nat) returns (p: Pool)
    requires k <= l.min
    ensures Reached(l, p, Team(l.min, l.min - k, [], Crew(0, k, l.min, Running(JOB), LoopTest)))
  {
    if k == 0 {
      p := Start(l);
      assert After(l, []) == Some(p);
      assert p.workers == Crew(0, 0, l.min, Running(JOB), LoopTest);
    } else {
      p := FirstBusy(l, k - 1);
      p := Begin(l, p, Look(p), k - 1);
      CrewPut(0, k - 1, l.min, Running(JOB), LoopTest);
    }
  }

  /** The pool grown by one over its minimum, all of it busy. */
  lemma OneMore(l: Limits) returns (p: Pool)
    requires !NeverGrows(l)
    ensures
      var n := l.min + 1;
      Reached(l, p, Team(n, 0, [], Crew(0, n, n, Running(JOB), Running(JOB))))
  {
    p := FirstBusy(l, l.min);
    p := Grow(l, p, Look(p));
    assert p.workers == Crew(0, l.min + 1, l.min + 1, Running(JOB), Running(JOB));
  }

  /** The first `k` of a busy crew finish, and wait. */
  lemma {:induction false} FirstWaiting(l: Limits, p: Pool, r: nat, n: nat, ids: seq<nat>, k: nat) returns (p': Pool)
    requires Reached(l, p, Team(n, 0, ids, Crew(r, n, n, Running(JOB), Running(JOB)))) && k <= n
    ensures Reached(l, p', Team(n, k, ids, Crew(r, k, n, Waiting, Running(JOB))))
    decreases k
  {
    if k == 0 {
      p' := p;
      assert p.workers == Crew(r, 0, n, Waiting, Running(JOB));
    } else {
      p' := FirstWaiting(l, p, r, n, ids, k - 1);
      p' := FinishAndRest(l, p', Look(p'), r + k - 1);
      CrewPut(r, k - 1, n, Waiting, Running(JOB));
    }
  }

  /** The first `k` of a waiting crew take up tasks. */
  lemma {:induction false} FirstEngaged(l: Limits, p: Pool, r: nat, n: nat, ids: seq<nat>, k: nat) returns (p': Pool)
    requires Reached(l, p, Team(n, n, ids, Crew(r, n, n, Waiting, Waiting))) && k <= n
    ensures Reached(l, p', Team(n, n - k, ids, Crew(r, k, n, Running(JOB), Waiting)))
    decreases k
  {
    if k == 0 {
      p' := p;
      assert p.workers == Crew(r, 0, n, Running(JOB), Waiting);
    } else {
      p' := FirstEngaged(l, p, r, n, ids, k - 1);
      p' := Engage(l, p', Look(p'), r + k - 1);
      CrewPut(r, k - 1, n, Running(JOB), Waiting);
    }
  }

  // ---- Below the minimum ----

  lemma AllWaiting(l: Limits) returns (p: Pool)
    requires !NeverGrows(l)
    ensures
      var n := l.min + 1;
      Reached(l, p, Team(n, n, [], Crew(0, n, n, Waiting, Waiting)))
  {
    var n: nat := l.min + 1;
    p := OneMore(l);
    p := FirstWaiting(l, p, 0, n, [], n);
    assert p.workers == Crew(0, n, n, Waiting, Waiting);
  }

  /** A pool that can grow can be caught below its minimum. */
  lemma FallsBelow(l: Limits) returns (p: Pool)
    requires !NeverGrows(l)
    ensures Reachable(l, p) && p.cur == l.min - 1
  {
    p := AllWaiting(l);
    p := DecideToRetire(l, p, Look(p));
    p := Store(l, p, Look(p));
    p := Retire(l, p, Look(p), 0);
    if l.min > 0 {
      p := Retire(l, p, Look(p), 1);
    } else {
      p := Clean(l, p, Look(p));
      p := LastOneRetires(l, p, Look(p));
    }
  }

  /** With nobody left and an order out, the next worker retires before it is counted. */
  lemma LastOneRetires(l: Limits, p: Pool, b: Brief) returns (p': Pool)
    requires Reached(l, p, b) && b.manager == ManagerLoop && b.lock.None? && b.exit > 0
    requires b.idle == 0 && b.cur == 0 < l.max
    ensures Reachable(l, p') && p'.cur == -1
  {
    p' := StartWorker(l, p, b);
    p' := Rest(l, p', Look(p'), |b.workers|);
    p' := Leave(l, p', Look(p'), |b.workers|);
  }

  /** `m_curThread >= m_minThread` holds throughout every run exactly if the pool can never grow. */
  lemma MinimumKept(l: Limits)
    ensures (forall evs :: After(l, evs).Some? ==> After(l, evs).value.cur >= l.min) <==> NeverGrows(l)
  {
    if NeverGrows(l) {
      forall evs | After(l, evs).Some? ensures After(l, evs).value.cur >= l.min {
        StaysFrozen(l, evs);
      }
    } else {
      var p := FallsBelow(l);
      var evs :| After(l, evs) == Some(p);
      assert After(l, evs).Some?;
    }
  }

  // ---- The lowest count ----

  /** Two have retired, the second after the manager looked, so that its id lies ready in `m_ids`. */
  lemma TwoRetired(l: Limits) returns (p: Pool)
    requires !NeverGrows(l) && l.min > 0
    ensures
      var n := l.min - 1;
      Reached(l, p, Team(n, n, [1], Crew(2, n, n, Waiting, Waiting)))
  {
    p := AllWaiting(l);
    p := DecideToRetire(l, p, Look(p));
    p := Store(l, p, Look(p));
    p := Retire(l, p, Look(p), 0);
    p := Clean(l, p, Look(p));
    p := Retire(l, p, Look(p), 1);
    assert p.workers == Crew(2, l.min - 1, l.min - 1, Waiting, Waiting);
  }

  /** The pool has grown again, and that id still lies there. */
  lemma GrownAgain(l: Limits) returns (p: Pool)
    requires !NeverGrows(l) && l.min > 0
    ensures
      var n := l.min + 1;
      Reached(l, p, Team(n, n, [1], Crew(2, n, n, Waiting, Waiting)))
  {
    var n: nat := l.min - 1;
    p := TwoRetired(l);
    p := FirstEngaged(l, p, 2, n, [1], n);
    assert p.workers == Crew(2, n, n, Running(JOB), Running(JOB));
    p := Grow(l, p, Look(p));
    p := Grow(l, p, Look(p));
    assert p.workers == Crew(2, n + 2, n + 2, Running(JOB), Running(JOB));
    p := FirstWaiting(l, p, 2, n + 2, [1], n + 2);
    assert p.workers == Crew(2, n + 2, n + 2, Waiting, Waiting);
  }

  /**
   * The manager orders two to retire, finds that id at once, and samples again; the two retire before it
   * orders another two.
   */
  lemma OrderedTwice(l: Limits) returns (p: Pool)
    requires !NeverGrows(l) && l.min > 0
    ensures
      var n := l.min - 1;
      Reached(l, p, Brief(n, n, 2, None, [2, 3], WaitIds, Crew(4, n, n, Waiting, Waiting)))
  {
    var n: nat := l.min - 1;
    p := GrownAgain(l);
    p := DecideToRetire(l, p, Look(p));
    p := Store(l, p, Look(p));
    p := Clean(l, p, Look(p));
    p := DecideToRetire(l, p, Look(p));
    p := Retire(l, p, Look(p), 2);
    p := Retire(l, p, Look(p), 3);
    p := Store(l, p, Look(p));
    assert p.workers == Crew(4, n, n, Waiting, Waiting) && p.ids == [2, 3];
  }

  /** Three below the minimum, or one uncounted worker below nobody. */
  function Lowest(l: Limits): int {
    if NeverGrows(l) then l.min else Max(l.min - 3, -1)
  }

  lemma LowestIsAttained(l: Limits) returns (p: Pool)
    ensures Reachable(l, p) && p.cur == Lowest(l)
  {
    if NeverGrows(l) {
      p := Start(l);
      assert After(l, []) == Some(p);
    } else if l.min == 0 {
      p := FallsBelow(l);
    } else {
      p := OrderedTwice(l);
      if l.min >= 3 {
        p := Retire(l, p, Look(p), 4);
        p := Retire(l, p, Look(p), 5);
      } else {
        if l.min == 2 {
          p := Retire(l, p, Look(p), 4);
        }
        p := Clean(l, p, Look(p));
        p := LastOneRetires(l, p, Look(p));
      }
    }
  }

  lemma NeverBelowLowest(l: Limits, evs: seq<Event>)
    requires After(l, evs).Some?
    ensures After(l, evs).value.cur >= Lowest(l)
  {
    if NeverGrows(l) {
      StaysFrozen(l, evs);
    } else {
      NeverTooFew(l, evs);
      RunInvariant(l, evs);
      SumAtLeastZero(After(l, evs).value.workers, CurWeight);
    }
  }

  /** For all limits: the lowest `m_curThread` over all runs. */
  lemma LowestCount(l: Limits)
    ensures forall evs :: After(l, evs).Some? ==> After(l, evs).value.cur >= Lowest(l)
    ensures exists evs :: After(l, evs).Some? && After(l, evs).value.cur == Lowest(l)
  {
    forall evs | After(l, evs).Some? ensures After(l, evs).value.cur >= Lowest(l) {
      NeverBelowLowest(l, evs);
    }
    var p := LowestIsAttained(l);
    var evs :| After(l, evs) == Some(p);
    assert After(l, evs).Some?;
  }
}
