/** Safety of the thread pool over every interleaving: its counters, its size, and the fate of every task. */
module PoolLaws {
  import opened Common
  import opened ThreadPool
  import opened PoolInvariants

  // ---- Runs ----

  /** The state after a sequence of steps from the end of construction, if they can happen in that order. */
  function After(l: Limits, evs: seq<Event>): Option<Pool> {
    if evs == [] then Some(Start(l))
    else
      var before, ev := After(l, evs[..|evs| - 1]), evs[|evs| - 1];
      if before.Some? && Enabled(before.value, ev) then Some(Next(l, before.value, ev)) else None
  }

  lemma {:induction false} RunInvariant(l: Limits, evs: seq<Event>)
    requires After(l, evs).Some?
    ensures Invariant(l, After(l, evs).value)
  {
    if evs == [] {
      StartInvariant(l);
    } else {
      var front := evs[..|evs| - 1];
      RunInvariant(l, front);
      StepInvariant(l, After(l, front).value, evs[|evs| - 1]);
    }
  }

  // ---- Counters ----

  /** A thread whose function has not returned. */
  function LiveWeight(th: Thread): int { B(th.pc != Retired && th.pc != Stopped) }

  function Live(p: Pool): int { Sum(p.workers, LiveWeight) }

  /** A worker that left its loop after `m_stop`, without a word to `m_curThread`. */
  function LeftWeight(th: Thread): int { B(th.pc == Stopped) }

  function Left(p: Pool): int { Sum(p.workers, LeftWeight) }

  /** The workers between `m_idleThread--` and `m_idleThread++`. */
  function Busy(p: Pool): int { Sum(p.workers, BusyWeight) }

  function RetiringWeight(th: Thread): int { B(th.pc in {DecIdle, DecExit, PushId}) }

  /** One for the worker, if any, that has left `m_curThread` and not yet returned. */
  function Retiring(p: Pool): int
    requires Locked(p)
  {
    B(HolderPc(p) in {DecIdle, DecExit, PushId})
  }

  lemma RetiringIsHolder(p: Pool)
    requires Locked(p)
    ensures Sum(p.workers, RetiringWeight) == Retiring(p)
  {
    forall i | 0 <= i < |p.workers| && p.lock != Some(i) ensures RetiringWeight(p.workers[i]) == 0 {
      assert !Holding(p.workers[i].pc);
    }
    SumOwner(p.workers, RetiringWeight, p.lock);
  }

  function HalfwayWeight(th: Thread): int { B(th.pc == DecIdle) }

  lemma HalfwayIsHolder(p: Pool)
    requires Locked(p)
    ensures Sum(p.workers, HalfwayWeight) == B(HolderPc(p) == DecIdle)
  {
    forall i | 0 <= i < |p.workers| && p.lock != Some(i) ensures HalfwayWeight(p.workers[i]) == 0 {
      assert !Holding(p.workers[i].pc);
    }
    SumOwner(p.workers, HalfwayWeight, p.lock);
  }

  function CountedOrHalfway(th: Thread): int { CurWeight(th) + HalfwayWeight(th) }

  lemma BusyAndIdle(p: Pool)
    requires Locked(p)
    ensures Sum(p.workers, CurWeight) + B(HolderPc(p) == DecIdle) == Sum(p.workers, IdleWeight) + Busy(p)
  {
    HalfwayIsHolder(p);
    SumSplit(p.workers, CountedOrHalfway, CurWeight, HalfwayWeight);
    SumSplit(p.workers, CountedOrHalfway, IdleWeight, BusyWeight);
  }

  function CountedOrRetiring(th: Thread): int { CurWeight(th) + RetiringWeight(th) }

  lemma LiveAndLeft(p: Pool)
    requires Locked(p)
    ensures Live(p) + Left(p) == Sum(p.workers, CurWeight) + Retiring(p)
  {
    RetiringIsHolder(p);
    SumSplit(p.workers, CountedOrRetiring, CurWeight, RetiringWeight);
    SumSplit(p.workers, CountedOrRetiring, LiveWeight, LeftWeight);
  }

  /**
   * What the counters say in every reachable state: `m_curThread` is the number of running workers and of those
   * that have left after `m_stop`, less one that the manager has started and not yet counted, less one that is
   * retiring; `m_idleThread` is `m_curThread` less the workers busy with a task, again up to one update in
   * flight on either side.
   */
  lemma CounterAccounting(l: Limits, evs: seq<Event>)
    requires After(l, evs).Some?
    ensures
      var p := After(l, evs).value;
      && Locked(p) && 0 <= p.exit <= 2
      && p.cur == Live(p) + Left(p) + Offset(l) - B(p.manager.IncCur?) - Retiring(p)
      && p.idle == p.cur - Busy(p) + B(HolderPc(p) == DecIdle) - B(p.manager.IncIdle?)
  {
    var p := After(l, evs).value;
    RunInvariant(l, evs);
    BusyAndIdle(p);
    LiveAndLeft(p);
  }

  /** Until `m_stop` is set, no worker has left but by retiring. */
  lemma NoneLeftBeforeStop(l: Limits, evs: seq<Event>)
    requires After(l, evs).Some? && !After(l, evs).value.stop
    ensures Left(After(l, evs).value) == 0
  {
    var p := After(l, evs).value;
    RunInvariant(l, evs);
    forall t | 0 <= t < |p.workers| ensures LeftWeight(p.workers[t]) == 0 {
      assert Lateness(p, p.workers[t]);
    }
    SumUniform(p.workers, LeftWeight, 0);
  }

  /** Nobody is between two updates of the counters that belong together. */
  predicate Settled(p: Pool) {
    && (forall t :: 0 <= t < |p.workers| ==> p.workers[t].pc !in {DecIdle, DecExit, PushId})
    && !p.manager.IncCur? && !p.manager.IncIdle?
  }

  lemma SettledCounters(l: Limits, evs: seq<Event>)
    requires After(l, evs).Some? && Settled(After(l, evs).value)
    ensures
      var p := After(l, evs).value;
      && p.idle == p.cur - Busy(p)
      && p.cur == Live(p) + Left(p) + Offset(l)
      && (p.cur == Live(p) + Offset(l) <==> forall t :: 0 <= t < |p.workers| ==> p.workers[t].pc != Stopped)
      && (l.min >= 0 ==> 0 <= p.idle <= p.cur)
  {
    var p := After(l, evs).value;
    RunInvariant(l, evs);
    CounterAccounting(l, evs);
    SumAtLeastZero(p.workers, IdleWeight);
    SumAtLeastZero(p.workers, BusyWeight);
    NoneLeft(p.workers);
  }

  lemma {:induction false} NoneLeft(ws: seq<Thread>)
    ensures Sum(ws, LeftWeight) == 0 <==> forall t :: 0 <= t < |ws| ==> ws[t].pc != Stopped
    ensures Sum(ws, LeftWeight) >= 0
  {
    if ws != [] {
      NoneLeft(ws[..|ws| - 1]);
    }
  }

  lemma {:induction false} SumAtLeastZero(ws: seq<Thread>, weight: Thread -> int)
    requires forall i :: 0 <= i < |ws| ==> 0 <= weight(ws[i])
    ensures 0 <= Sum(ws, weight)
  {
    if ws != [] {
      SumAtLeastZero(ws[..|ws| - 1], weight);
    }
  }

  // ---- Size ----

  /**
   * The count never exceeds the larger limit, and the threads really running exceed it by at most the one that is
   * retiring.
   */
  lemma NeverTooMany(l: Limits, evs: seq<Event>)
    requires After(l, evs).Some?
    ensures
      var p := After(l, evs).value;
      && p.cur <= Max(l.min, l.max)
      && (l.min >= 0 ==> Live(p) <= Max(l.min, l.max) + 1)
  {
    RunInvariant(l, evs);
    LiveAndLeft(After(l, evs).value);
    NoneLeft(After(l, evs).value.workers);
  }

  /** Every store of `m_exitThread` comes with at most `slack` retirements since the manager read `m_curThread`. */
  predicate Prompt(l: Limits, evs: seq<Event>, slack: nat)
    requires After(l, evs).Some?
  {
    evs != [] ==>
      var front := evs[..|evs| - 1];
      var p := After(l, front).value;
      && Prompt(l, front, slack)
      && (evs[|evs| - 1] == Manage && p.manager.StoreExit? ==> Slipped(p) <= slack)
  }

  /**
   * Retirement takes the pool below the minimum by one, plus what leaves between the manager's sample and its
   * store.
   */
  lemma {:induction false} PromptFloor(l: Limits, evs: seq<Event>, slack: nat)
    requires After(l, evs).Some? && Prompt(l, evs, slack)
    ensures Floored(l, After(l, evs).value, slack)
  {
    if evs != [] {
      var front := evs[..|evs| - 1];
      PromptFloor(l, front, slack);
      FlooredStep(l, After(l, front).value, evs[|evs| - 1], slack);
    }
  }

  /** With the manager's sample and store in one piece the tokens out leave at least `min - 1`. */
  lemma NeverTooFewWhenPrompt(l: Limits, evs: seq<Event>)
    requires After(l, evs).Some? && Prompt(l, evs, 0)
    ensures
      var p := After(l, evs).value;
      && Locked(p) && p.cur - p.exit + Owed(p) >= l.min - 1 && p.cur >= l.min - 1
  {
    PromptFloor(l, evs, 0);
  }

  /** At the grain of single atomic operations they leave at least `min - 3`. */
  lemma NeverTooFew(l: Limits, evs: seq<Event>)
    requires After(l, evs).Some?
    ensures
      var p := After(l, evs).value;
      && Locked(p) && p.cur - p.exit + Owed(p) >= l.min - 3 && p.cur >= l.min - 3
  {
    RunInvariant(l, evs);
  }

  // ---- Tasks ----

  lemma {:induction false} RunAccounts(l: Limits, evs: seq<Event>, job: Job)
    requires job != NullJob && After(l, evs).Some?
    ensures Accounted(After(l, evs).value, job)
  {
    if evs == [] {
      SumUniform(Start(l).workers, Held(job), 0);
    } else {
      var front := evs[..|evs| - 1];
      RunAccounts(l, front, job);
      AccountedStep(l, After(l, front).value, evs[|evs| - 1], job);
    }
  }

  /** The tasks given to `addTask`, in the order of the calls. */
  function Jobs(evs: seq<Event>): seq<Job> {
    if evs == [] then []
    else
      var ev := evs[|evs| - 1];
      Jobs(evs[..|evs| - 1]) + if ev.AddTask? then [ev.job] else []
  }

  lemma {:induction false} EveryJobIsSubmitted(l: Limits, evs: seq<Event>)
    requires After(l, evs).Some?
    ensures After(l, evs).value.submitted == Jobs(evs)
  {
    if evs != [] {
      EveryJobIsSubmitted(l, evs[..|evs| - 1]);
    }
  }

  /** How many workers hold `job`. */
  function Holders(p: Pool, job: Job): int { Sum(p.workers, Held(job)) }

  /**
   * Tasks leave the queue in the order of the calls to `addTask`, and every one that is not empty is still
   * queued, held by a worker, or completed, as often as it was given. Empty ones are never called.
   */
  lemma TaskConservation(l: Limits, evs: seq<Event>, job: Job)
    requires job != NullJob && After(l, evs).Some?
    ensures
      var p := After(l, evs).value;
      && Jobs(evs) == p.dequeued + p.tasks
      && multiset(Jobs(evs))[job] == multiset(p.tasks)[job] + Holders(p, job) + multiset(p.completed)[job]
      && NullJob !in p.completed && Holders(p, job) >= 0
  {
    var p := After(l, evs).value;
    RunInvariant(l, evs);
    RunAccounts(l, evs, job);
    EveryJobIsSubmitted(l, evs);
    SumAtLeastZero(p.workers, Held(job));
  }

  /** A task given once, as behind a future, is in exactly one place; it never runs twice. */
  lemma OneTaskOnePlace(l: Limits, evs: seq<Event>, job: Job)
    requires job != NullJob && After(l, evs).Some? && multiset(Jobs(evs))[job] == 1
    ensures
      var p := After(l, evs).value;
      || (job in p.tasks && Holders(p, job) == 0 && job !in p.completed)
      || (job !in p.tasks && Holders(p, job) == 1 && job !in p.completed)
      || (job !in p.tasks && Holders(p, job) == 0 && multiset(p.completed)[job] == 1)
  {
    TaskConservation(l, evs, job);
  }

  /** Once every worker has returned, the tasks never run are exactly those still in the queue. */
  lemma LeftInTheQueue(l: Limits, evs: seq<Event>, job: Job)
    requires job != NullJob && After(l, evs).Some?
    requires
      var p := After(l, evs).value;
      forall t :: 0 <= t < |p.workers| ==> p.workers[t].pc == Retired || p.workers[t].pc == Stopped
    ensures
      var p := After(l, evs).value;
      multiset(Jobs(evs))[job] == multiset(p.completed)[job] + multiset(p.tasks)[job]
  {
    var p := After(l, evs).value;
    TaskConservation(l, evs, job);
    SumUniform(p.workers, Held(job), 0);
  }

  /** A worker with the queue's lock takes the first task there is, stopped or not, and waits only if there is none. */
  lemma QueueIsServed(l: Limits, p: Pool, t: nat)
    requires t < |p.workers| && p.workers[t].pc == QueueTest
    ensures
      var q := Next(l, p, Work(t));
      && q.lock == None && |q.workers| == |p.workers|
      && (if p.tasks != [] then
            && p.tasks == [p.tasks[0]] + q.tasks && q.dequeued == p.dequeued + [p.tasks[0]]
            && q.workers[t].pc == (if p.tasks[0] == NullJob then LoopTest else HasTask(p.tasks[0]))
          else q.tasks == [] && q.dequeued == p.dequeued && q.workers[t].pc == if p.stop then LoopTest else Waiting)
  {
  }

  /** Where each step takes a worker, stopped or not, ... */
  lemma WorkerSteps(l: Limits, p: Pool, t: nat)
    requires CanWork(p, t)
    ensures
      var q := Next(l, p, Work(t));
      |q.workers| == |p.workers|
      && var next := q.workers[t].pc;
      match p.workers[t].pc
      case LoopTest => next == if p.stop then Stopped else Locking
      case Locking => next == QueueTest && q.lock == Some(t)
      case QueueTest => q.lock == None
      case Waiting => next == ExitTest && q.lock == Some(t)
      case ExitTest => next == if p.exit > 0 then DecCur else QueueTest
      case DecCur => next == DecIdle && q.cur == p.cur - 1
      case DecIdle => next == DecExit && q.idle == p.idle - 1
      case DecExit => next == PushId && q.exit == p.exit - 1
      case PushId => next == Retired && q.ids == p.ids + [t] && q.lock == None
      case HasTask(job) => next == Running(job) && q.idle == p.idle - 1
      case Running(job) => next == Finished && q.completed == p.completed + [job]
      case Finished => next == LoopTest && q.idle == p.idle + 1
  {
  }

  /** ... and that it leaves everybody else, and what it is not about, alone. */
  lemma WorkerStepsAreSmall(l: Limits, p: Pool, t: nat)
    requires CanWork(p, t)
    ensures
      var pc, q := p.workers[t].pc, Next(l, p, Work(t));
      && (forall u :: 0 <= u < |p.workers| && u != t ==> q.workers[u] == p.workers[u])
      && q.stop == p.stop && q.manager == p.manager && q.container == p.container && q.submitted == p.submitted
      && (pc != DecCur ==> q.cur == p.cur) && (pc != DecExit ==> q.exit == p.exit)
      && (pc != DecIdle && !pc.HasTask? && pc != Finished ==> q.idle == p.idle)
      && (pc != PushId ==> q.ids == p.ids) && (!pc.Running? ==> q.completed == p.completed)
      && (pc != QueueTest ==> q.tasks == p.tasks && q.dequeued == p.dequeued)
      && (pc !in {Locking, QueueTest, Waiting, PushId} ==> q.lock == p.lock)
  {
  }

  /** Where each step takes the manager, other than its decision. */
  lemma ManagerSteps(l: Limits, p: Pool)
    requires CanManage(p) && !p.manager.Decide?
    ensures
      var q := Next(l, p, Manage);
      match p.manager
      case ManagerLoop => q == p.(manager := if p.stop then ManagerDone else SampleIdle)
      case SampleIdle => q == p.(manager := SampleCur(p.idle))
      case SampleCur(idle) => q == p.(manager := Decide(idle, p.cur))
      case StoreExit(_) => q == p.(manager := WaitIds, exit := 2)
      case WaitIds => q == p.(manager := Cleanup) && (p.ids != [] || p.exit <= 0)
      case Cleanup =>
        && q == p.(manager := ManagerLoop, ids := [], container := q.container)
        && forall t :: t in q.container <==> t in p.container && t !in p.ids
      case Spawn(cur) =>
        q == p.(
          manager := IncCur(cur), workers := p.workers + [Thread(LoopTest, 0)],
          container := p.container + {|p.workers|})
      case IncCur(_) => q == p.(manager := IncIdle, cur := p.cur + 1)
      case IncIdle => q == p.(manager := ManagerLoop, idle := p.idle + 1)
  {
  }

  /**
   * The manager's decision: retire when more than half are idle, rounded towards zero, and there are more than
   * the minimum; else start a worker when none is idle, there are fewer than the maximum and nobody stopped it.
   */
  lemma ManagerDecides(l: Limits, p: Pool)
    requires p.manager.Decide?
    ensures
      var idle, cur, next := p.manager.idle, p.manager.cur, Next(l, p, Manage).manager;
      && (next.StoreExit? <==> cur > l.min && (if cur >= 0 then 2 * idle > cur else 2 * idle > cur + 1))
      && (next.Spawn? <==> !next.StoreExit? && idle == 0 && cur < l.max && !p.stop)
      && (next != ManagerLoop ==> next.StoreExit? || next.Spawn?)
  {
  }

  // ---- After `m_stop` ----

  lemma {:induction false} RunAfterStop(l: Limits, evs: seq<Event>, more: seq<Event>)
    requires After(l, evs).Some? && After(l, evs + more).Some? && After(l, evs).value.stop
    ensures
      var p, q := After(l, evs).value, After(l, evs + more).value;
      q.stop && |q.dequeued| - |p.dequeued| == Sum(q.workers, Late) - Sum(p.workers, Late)
  {
    if more == [] {
      assert evs + more == evs;
    } else {
      var front := more[..|more| - 1];
      assert (evs + more)[..|evs + more| - 1] == evs + front;
      RunAfterStop(l, evs, front);
      LateStep(l, After(l, evs + front).value, more[|more| - 1]);
    }
  }

  function One(th: Thread): int { 1 }

  /** After `m_stop` is set each worker takes at most one more task, so all of them together at most one each. */
  lemma AtMostOneLateTaskEach(l: Limits, evs: seq<Event>, more: seq<Event>)
    requires After(l, evs).Some? && After(l, evs + more).Some? && After(l, evs).value.stop
    ensures
      var p, q := After(l, evs).value, After(l, evs + more).value;
      && (forall t :: 0 <= t < |q.workers| ==> q.workers[t].late <= 1)
      && |q.dequeued| - |p.dequeued| <= |q.workers|
  {
    var p, q := After(l, evs).value, After(l, evs + more).value;
    RunInvariant(l, evs + more);
    RunAfterStop(l, evs, more);
    SumAtLeastZero(p.workers, Late);
    assert forall t :: 0 <= t < |q.workers| ==> Lateness(q, q.workers[t]);
    SumOrder(q.workers, Late, One);
    SumUniform(q.workers, One, 1);
  }

  // ---- Retired threads ----

  /** The manager joins only threads that have returned, each exactly once, and forgets no other. */
  lemma CleanupJoinsTheRetired(l: Limits, evs: seq<Event>)
    requires After(l, evs).Some? && After(l, evs).value.manager == Cleanup
    ensures
      var p := After(l, evs).value;
      var q := Next(l, p, Manage);
      && (forall i :: 0 <= i < |p.ids| ==>
            p.ids[i] in p.container && p.ids[i] < |p.workers| && p.workers[p.ids[i]].pc == Retired)
      && (forall i, j :: 0 <= i < j < |p.ids| ==> p.ids[i] != p.ids[j])
      && (forall t: nat :: t in q.container <==> t < |q.workers| && q.workers[t].pc != Retired)
  {
    RunInvariant(l, evs);
  }
}
