/** What every step of the thread pool keeps. */
module PoolInvariants {
  import opened Common
  import opened ThreadPool

  // ---- Sums over the workers ----

  function Sum(ws: seq<Thread>, weight: Thread -> int): int {
    if ws == [] then 0 else Sum(ws[..|ws| - 1], weight) + weight(ws[|ws| - 1])
  }

  lemma {:induction false} SumUpdate(ws: seq<Thread>, weight: Thread -> int, t: nat, x: Thread)
    requires t < |ws|
    ensures Sum(ws[t := x], weight) == Sum(ws, weight) - weight(ws[t]) + weight(x)
  {
    var n := |ws| - 1;
    if t < n {
      SumUpdate(ws[..n], weight, t, x);
      assert ws[t := x][..n] == ws[..n][t := x];
    } else {
      assert ws[t := x][..n] == ws[..n];
    }
  }

  lemma SumAppend(ws: seq<Thread>, weight: Thread -> int, x: Thread)
    ensures Sum(ws + [x], weight) == Sum(ws, weight) + weight(x)
  {
    assert (ws + [x])[..|ws|] == ws;
  }

  lemma {:induction false} SumUniform(ws: seq<Thread>, weight: Thread -> int, k: int)
    requires forall i :: 0 <= i < |ws| ==> weight(ws[i]) == k
    ensures Sum(ws, weight) == k * |ws|
  {
    if ws != [] {
      SumUniform(ws[..|ws| - 1], weight, k);
    }
  }

  /** A weight that is zero for all but the owner. */
  lemma {:induction false} SumOwner(ws: seq<Thread>, weight: Thread -> int, owner: Option<nat>)
    requires owner.Some? ==> owner.value < |ws|
    requires forall i :: 0 <= i < |ws| && owner != Some(i) ==> weight(ws[i]) == 0
    ensures Sum(ws, weight) == if owner.Some? then weight(ws[owner.value]) else 0
  {
    if ws != [] {
      var n := |ws| - 1;
      SumOwner(ws[..n], weight, if owner == Some(n) then None else owner);
    }
  }

  lemma {:induction false} SumOrder(ws: seq<Thread>, small: Thread -> int, large: Thread -> int)
    requires forall i :: 0 <= i < |ws| ==> small(ws[i]) <= large(ws[i])
    ensures Sum(ws, small) <= Sum(ws, large)
  {
    if ws != [] {
      SumOrder(ws[..|ws| - 1], small, large);
    }
  }

  lemma {:induction false} SumSplit(ws: seq<Thread>, a: Thread -> int, b: Thread -> int, c: Thread -> int)
    requires forall i :: 0 <= i < |ws| ==> a(ws[i]) == b(ws[i]) + c(ws[i])
    ensures Sum(ws, a) == Sum(ws, b) + Sum(ws, c)
  {
    if ws != [] {
      SumSplit(ws[..|ws| - 1], a, b, c);
    }
  }

  // ---- The queue's lock and the exit tokens ----

  predicate Holding(pc: WorkerPc) {
    pc == QueueTest || pc == ExitTest || pc == DecCur || pc == DecIdle || pc == DecExit || pc == PushId
  }

  predicate Locked(p: Pool) {
    && (p.lock.Some? ==> p.lock.value < |p.workers|)
    && forall t :: 0 <= t < |p.workers| ==> (Holding(p.workers[t].pc) <==> p.lock == Some(t))
  }

  lemma LockedWork(p: Pool, t: nat)
    requires Locked(p) && CanWork(p, t)
    ensures Locked(Worked(p, t))
  {
    var p' := Worked(p, t);
    assert forall i :: 0 <= i < |p.workers| && i != t ==> p'.workers[i] == p.workers[i];
  }

  lemma LockedStep(l: Limits, p: Pool, ev: Event)
    requires Locked(p) && Enabled(p, ev)
    ensures Locked(Next(l, p, ev))
  {
    if ev.Work? {
      LockedWork(p, ev.t);
    }
  }

  /** Where the holder of the queue's lock is. */
  function HolderPc(p: Pool): WorkerPc
    requires Locked(p)
  {
    if p.lock.Some? then p.workers[p.lock.value].pc else LoopTest
  }

  predicate Tokens(p: Pool) {
    Locked(p) && 0 <= p.exit <= 2 && (HolderPc(p) in {DecCur, DecIdle, DecExit} ==> p.exit > 0)
  }

  lemma TokensWork(p: Pool, t: nat)
    requires Tokens(p) && CanWork(p, t)
    ensures Tokens(Worked(p, t))
  {
    LockedWork(p, t);
  }

  lemma TokensStep(l: Limits, p: Pool, ev: Event)
    requires Tokens(p) && Enabled(p, ev)
    ensures Tokens(Next(l, p, ev))
  {
    if ev.Work? {
      TokensWork(p, ev.t);
    } else {
      LockedStep(l, p, ev);
    }
  }

  // ---- Counters ----

  function B(b: bool): int { if b then 1 else 0 }

  /** A worker that `m_curThread` counts: it has not started to retire. */
  function CurWeight(th: Thread): int { B(th.pc !in {DecIdle, DecExit, PushId, Retired}) }

  /** A worker that `m_idleThread` counts. */
  function IdleWeight(th: Thread): int {
    B(!th.pc.Running? && th.pc !in {DecExit, PushId, Retired, Finished})
  }

  function BusyWeight(th: Thread): int { B(th.pc.Running? || th.pc.Finished?) }

  /** The counters start at `min`, even where that is negative and no thread is started. */
  function Offset(l: Limits): int { if l.min < 0 then l.min else 0 }

  /** A worker the manager has started and not yet counted. */
  function UncountedCur(p: Pool): int { B(p.manager.IncCur?) }

  function UncountedIdle(p: Pool): int { B(p.manager.IncCur? || p.manager.IncIdle?) }

  predicate Counted(l: Limits, p: Pool) {
    && p.cur == Sum(p.workers, CurWeight) + Offset(l) - UncountedCur(p)
    && p.idle == Sum(p.workers, IdleWeight) + Offset(l) - UncountedIdle(p)
  }

  /** A worker's step changes its own entry only. */
  lemma OneWorker(p: Pool, t: nat, weight: Thread -> int)
    requires CanWork(p, t)
    ensures |Worked(p, t).workers| == |p.workers| && Worked(p, t).manager == p.manager
    ensures
      Sum(Worked(p, t).workers, weight) ==
        Sum(p.workers, weight) - weight(p.workers[t]) + weight(Worked(p, t).workers[t])
  {
    var p' := Worked(p, t);
    assert p'.workers == p.workers[t := p'.workers[t]];
    SumUpdate(p.workers, weight, t, p'.workers[t]);
  }

  lemma CurWork(p: Pool, t: nat)
    requires CanWork(p, t)
    ensures |Worked(p, t).workers| == |p.workers|
    ensures Worked(p, t).cur - p.cur == CurWeight(Worked(p, t).workers[t]) - CurWeight(p.workers[t])
  {
  }

  lemma IdleWork(p: Pool, t: nat)
    requires CanWork(p, t)
    ensures |Worked(p, t).workers| == |p.workers|
    ensures Worked(p, t).idle - p.idle == IdleWeight(Worked(p, t).workers[t]) - IdleWeight(p.workers[t])
  {
  }

  lemma CountedStep(l: Limits, p: Pool, ev: Event)
    requires Counted(l, p) && Enabled(p, ev)
    ensures Counted(l, Next(l, p, ev))
  {
    match ev
    case Work(t) =>
      OneWorker(p, t, CurWeight);
      OneWorker(p, t, IdleWeight);
      CurWork(p, t);
      IdleWork(p, t);
    case Manage =>
      CountedManage(l, p);
    case _ =>
  }

  lemma CountedManage(l: Limits, p: Pool)
    requires Counted(l, p) && CanManage(p)
    ensures Counted(l, Managed(l, p))
  {
    if p.manager.Spawn? {
      NewWorker(l, p, CurWeight);
      NewWorker(l, p, IdleWeight);
    }
  }

  lemma NewWorker(l: Limits, p: Pool, weight: Thread -> int)
    requires p.manager.Spawn?
    ensures Sum(Managed(l, p).workers, weight) == Sum(p.workers, weight) + weight(Thread(LoopTest, 0))
  {
    SumAppend(p.workers, weight, Thread(LoopTest, 0));
  }

  // ---- Size ----

  /** What the manager has read of `m_curThread` and not yet used up. */
  function Sampled(m: ManagerPc): Option<int> {
    match m
    case Decide(_, cur) => Some(cur)
    case StoreExit(cur) => Some(cur)
    case Spawn(cur) => Some(cur)
    case IncCur(cur) => Some(cur)
    case _ => None
  }

  predicate Capped(l: Limits, p: Pool) {
    && p.cur <= Max(l.min, l.max)
    && (Sampled(p.manager).Some? ==> p.cur <= Sampled(p.manager).value)
    && (p.manager.Spawn? || p.manager.IncCur? ==> Sampled(p.manager).value < l.max)
  }

  lemma CappedStep(l: Limits, p: Pool, ev: Event)
    requires Capped(l, p) && Enabled(p, ev)
    ensures Capped(l, Next(l, p, ev))
  {
  }

  /** One for a retirement that has left `m_curThread` and not yet given back its exit token. */
  function Owed(p: Pool): int
    requires Locked(p)
  {
    B(HolderPc(p) in {DecIdle, DecExit})
  }

  /** The size that remains once every exit token out has been used. */
  function Floor(p: Pool): int
    requires Locked(p)
  {
    p.cur - p.exit + Owed(p)
  }

  /**
   * Every token out is taken off a `cur` above `min`; up to `slack` more leave between the manager's sample and its
   * store.
   */
  predicate Floored(l: Limits, p: Pool, slack: nat) {
    && Tokens(p)
    && Floor(p) >= l.min - 1 - slack
    && (p.manager.Decide? || p.manager.StoreExit? ==> Floor(p) >= Sampled(p.manager).value - 2)
    && (p.manager.StoreExit? ==> Sampled(p.manager).value > l.min)
  }

  /** How many workers have left `m_curThread` between the manager's sample and its store of `m_exitThread`. */
  function Slipped(p: Pool): int
    requires p.manager.StoreExit?
  {
    p.manager.cur - p.cur
  }

  lemma FloorWork(p: Pool, t: nat)
    requires Tokens(p) && CanWork(p, t)
    ensures Tokens(Worked(p, t)) && Floor(Worked(p, t)) == Floor(p)
  {
    TokensWork(p, t);
  }

  lemma FlooredStep(l: Limits, p: Pool, ev: Event, slack: nat)
    requires Floored(l, p, slack) && Enabled(p, ev)
    requires ev == Manage && p.manager.StoreExit? ==> Slipped(p) <= slack
    ensures Floored(l, Next(l, p, ev), slack)
  {
    if ev.Work? {
      FloorWork(p, ev.t);
    } else {
      TokensStep(l, p, ev);
    }
  }

  // ---- Tasks ----

  predicate Holds(th: Thread, job: Job) { th.pc == HasTask(job) || th.pc == Running(job) }

  /** One if the worker holds `job`. */
  function Held(job: Job): Thread -> int { (th: Thread) => B(Holds(th, job)) }

  predicate Queued(p: Pool) { p.submitted == p.dequeued + p.tasks }

  lemma QueuedStep(l: Limits, p: Pool, ev: Event)
    requires Queued(p) && Enabled(p, ev)
    ensures Queued(Next(l, p, ev))
  {
    match ev
    case AddTask(task) =>
      assert p.dequeued + (p.tasks + [task]) == p.submitted + [task];
    case Work(t) =>
      if p.workers[t].pc == QueueTest && p.tasks != [] {
        assert p.dequeued + p.tasks == (p.dequeued + [p.tasks[0]]) + p.tasks[1..];
      }
    case _ =>
  }

  predicate Accounted(p: Pool, job: Job) {
    multiset(p.dequeued)[job] == Sum(p.workers, Held(job)) + multiset(p.completed)[job]
  }

  /** Taking a task off the queue puts it into the taker's hands, unless it is empty. */
  lemma AccountedTake(p: Pool, t: nat, job: Job)
    requires job != NullJob && Accounted(p, job) && CanWork(p, t) && p.workers[t].pc == QueueTest && p.tasks != []
    ensures Accounted(Worked(p, t), job)
  {
    var p' := Worked(p, t);
    OneWorker(p, t, Held(job));
    assert multiset(p'.dequeued)[job] == multiset(p.dequeued)[job] + B(p.tasks[0] == job);
    assert B(Holds(p'.workers[t], job)) == B(p.tasks[0] == job) && !Holds(p.workers[t], job);
  }

  lemma AccountedWork(p: Pool, t: nat, job: Job)
    requires job != NullJob && Accounted(p, job) && CanWork(p, t)
    ensures Accounted(Worked(p, t), job)
  {
    if p.workers[t].pc == QueueTest && p.tasks != [] {
      AccountedTake(p, t, job);
    } else {
      var p' := Worked(p, t);
      OneWorker(p, t, Held(job));
      assert p'.dequeued == p.dequeued;
      assert multiset(p'.completed)[job] == multiset(p.completed)[job] + B(p.workers[t].pc == Running(job));
      assert B(Holds(p'.workers[t], job)) == B(Holds(p.workers[t], job)) - B(p.workers[t].pc == Running(job));
    }
  }

  lemma AccountedStep(l: Limits, p: Pool, ev: Event, job: Job)
    requires job != NullJob && Accounted(p, job) && Enabled(p, ev)
    ensures Accounted(Next(l, p, ev), job)
  {
    if ev.Work? {
      AccountedWork(p, ev.t, job);
    } else if ev == Manage && p.manager.Spawn? {
      NewWorker(l, p, Held(job));
    }
  }

  /** An empty function is never held, let alone called. */
  predicate NoNulls(p: Pool) {
    && NullJob !in p.completed
    && forall t :: 0 <= t < |p.workers| ==> !Holds(p.workers[t], NullJob)
  }

  lemma NoNullsStep(l: Limits, p: Pool, ev: Event)
    requires NoNulls(p) && Enabled(p, ev)
    ensures NoNulls(Next(l, p, ev))
  {
    if ev.Work? {
      assert Holds(p.workers[ev.t], NullJob) || !Holds(p.workers[ev.t], NullJob);
    }
  }

  // ---- After `m_stop` ----

  predicate PastQueue(pc: WorkerPc) { pc.HasTask? || pc.Running? || pc == Finished || pc == LoopTest || pc == Stopped }

  /** A worker that took a task since `m_stop` was set will not come back to the queue. */
  predicate Lateness(p: Pool, th: Thread) {
    && th.late <= 1
    && (th.late == 1 ==> p.stop && PastQueue(th.pc))
    && (th.pc == Stopped ==> p.stop)
  }

  predicate OnTime(p: Pool) { forall t :: 0 <= t < |p.workers| ==> Lateness(p, p.workers[t]) }

  lemma OnTimeStep(l: Limits, p: Pool, ev: Event)
    requires OnTime(p) && Enabled(p, ev)
    ensures OnTime(Next(l, p, ev))
  {
    if ev.Work? {
      assert Lateness(p, p.workers[ev.t]);
    }
  }

  function Late(th: Thread): int { th.late }

  /** The workers' counts are the queue's: once `m_stop` is set each task taken is one of theirs. */
  lemma LateStep(l: Limits, p: Pool, ev: Event)
    requires p.stop && Enabled(p, ev)
    ensures
      var p' := Next(l, p, ev);
      p'.stop && |p'.dequeued| - |p.dequeued| == Sum(p'.workers, Late) - Sum(p.workers, Late)
  {
    match ev
    case Work(t) =>
      OneWorker(p, t, Late);
    case Manage =>
      if p.manager.Spawn? {
        NewWorker(l, p, Late);
      }
    case _ =>
  }

  // ---- The threads' own records ----

  /** `m_workers` holds the threads that have not retired and those listed in `m_ids`, which lists none twice. */
  predicate Recorded(p: Pool) {
    && (forall i :: 0 <= i < |p.ids| ==> p.ids[i] < |p.workers| && p.workers[p.ids[i]].pc == Retired)
    && (forall i, j :: 0 <= i < j < |p.ids| ==> p.ids[i] != p.ids[j])
    && (forall t :: 0 <= t < |p.workers| ==> (t in p.container <==> p.workers[t].pc != Retired || t in p.ids))
    && (forall t <- p.container :: t < |p.workers|)
  }

  lemma RecordedRetire(p: Pool, t: nat)
    requires Recorded(p) && t < |p.workers| && p.workers[t].pc == PushId
    ensures Recorded(Worked(p, t))
  {
    var p' := Worked(p, t);
    assert t !in p.ids && t in p.container;
    assert forall i :: i in p'.ids <==> i in p.ids || i == t;
  }

  lemma RecordedWork(p: Pool, t: nat)
    requires Recorded(p) && CanWork(p, t)
    ensures Recorded(Worked(p, t))
  {
    if p.workers[t].pc == PushId {
      RecordedRetire(p, t);
    } else {
      var p' := Worked(p, t);
      assert p'.ids == p.ids && p'.container == p.container && p'.workers[t].pc != Retired;
      assert forall i :: 0 <= i < |p.workers| && i != t ==> p'.workers[i] == p.workers[i];
    }
  }

  lemma RecordedManage(l: Limits, p: Pool)
    requires Recorded(p) && CanManage(p)
    ensures Recorded(Managed(l, p))
  {
    var p' := Managed(l, p);
    if p.manager.Spawn? {
      assert |p.workers| !in p.ids;
    }
  }

  lemma RecordedStep(l: Limits, p: Pool, ev: Event)
    requires Recorded(p) && Enabled(p, ev)
    ensures Recorded(Next(l, p, ev))
  {
    if ev.Work? {
      RecordedWork(p, ev.t);
    } else if ev == Manage {
      RecordedManage(l, p);
    }
  }

  // ---- All of it ----

  predicate Invariant(l: Limits, p: Pool) {
    && Counted(l, p) && Capped(l, p) && Floored(l, p, 2)
    && Queued(p) && NoNulls(p) && OnTime(p) && Recorded(p)
  }

  lemma StartInvariant(l: Limits)
    ensures Invariant(l, Start(l))
  {
    var p := Start(l);
    SumUniform(p.workers, CurWeight, 1);
    SumUniform(p.workers, IdleWeight, 1);
  }

  lemma SlippedAtMostTwo(l: Limits, p: Pool)
    requires Floored(l, p, 2) && p.manager.StoreExit?
    ensures Slipped(p) <= 2
  {
  }

  lemma StepInvariant(l: Limits, p: Pool, ev: Event)
    requires Invariant(l, p) && Enabled(p, ev)
    ensures Invariant(l, Next(l, p, ev))
  {
    CountedStep(l, p, ev);
    CappedStep(l, p, ev);
    if p.manager.StoreExit? {
      SlippedAtMostTwo(l, p);
    }
    FlooredStep(l, p, ev, 2);
    QueuedStep(l, p, ev);
    NoNullsStep(l, p, ev);
    OnTimeStep(l, p, ev);
    RecordedStep(l, p, ev);
  }
}
