/**
 * The pool of log_system/log_src/ThreadPool.cpp as a system of atomic steps: any number of submitters in
 * `addTask`, workers that come and go, the manager that spawns and retires them, and whoever sets `m_stop`.
 * A step is one access to an atomic field, or one section of a lock between two such accesses.
 */
module ThreadPool {
  import opened Common

  datatype Limits = Limits(min: int, max: int)

  /** A `std::function`, which may be empty. */
  datatype Job = NullJob | Job(id: nat)

  datatype WorkerPc =
    | LoopTest            // while (!m_stop)
    | Locking             // about to lock m_queueMutex
    | QueueTest           // locked: while (m_tasks.empty() && !m_stop)
    | Waiting             // in m_condition.wait
    | ExitTest            // locked: if (m_exitThread > 0)
    | DecCur              // locked: m_curThread--
    | DecIdle             // locked: m_idleThread--
    | DecExit             // locked: m_exitThread--
    | PushId              // locked: m_ids.emplace_back, return
    | Retired
    | HasTask(job: Job)   // m_idleThread--
    | Running(job: Job)   // task()
    | Finished            // m_idleThread++
    | Stopped

  /** A worker; `late` counts the tasks it has taken from the queue since `m_stop` was set. */
  datatype Thread = Thread(pc: WorkerPc, late: nat)

  datatype ManagerPc =
    | ManagerLoop                 // while (!m_stop), sleep
    | SampleIdle
    | SampleCur(idle: int)
    | Decide(idle: int, cur: int)
    | StoreExit(cur: int)         // m_exitThread.store(2)
    | WaitIds                     // while (m_ids.empty() && m_exitThread > 0)
    | Cleanup
    | Spawn(cur: int)
    | IncCur(cur: int)
    | IncIdle
    | ManagerDone

  /**
   * `workers` lists every thread ever started, by thread id; `container` the keys of `m_workers`; `lock` the
   * holder of `m_queueMutex`. The last three record what was submitted, dequeued and completed, in that order.
   */
  datatype Pool = Pool(
    tasks: seq<Job>, stop: bool, cur: int, idle: int, exit: int, lock: Option<nat>,
    ids: seq<nat>, container: set<nat>, workers: seq<Thread>, manager: ManagerPc,
    submitted: seq<Job>, dequeued: seq<Job>, completed: seq<Job>)

  datatype Event =
    | AddTask(job: Job)
    | SetStop
    | Work(t: nat)   // worker `t` takes its next step
    | Manage         // the manager takes its next step

  function Initial(min: int): nat { if min > 0 then min else 0 }

  /** The first `n` thread ids. */
  function Keys(n: nat): (s: set<nat>)
    ensures forall t: nat :: t in s <==> t < n
  {
    if n == 0 then {} else Keys(n - 1) + {n - 1}
  }

  function Listed(ids: seq<nat>): set<nat> { set id | id in ids }

  function Start(l: Limits): Pool {
    var n := Initial(l.min);
    Pool([], false, l.min, l.min, 0, None, [], Keys(n), seq(n, _ => Thread(LoopTest, 0)), ManagerLoop, [], [], [])
  }

  // ---- Steps ----

  function At(p: Pool, t: nat, pc: WorkerPc): Pool
    requires t < |p.workers|
  {
    p.(workers := p.workers[t := p.workers[t].(pc := pc)])
  }

  /** Take the first task; an empty one is dropped. */
  function Dequeue(p: Pool, t: nat): Pool
    requires t < |p.workers| && p.tasks != []
  {
    var job := p.tasks[0];
    var pc := if job == NullJob then LoopTest else HasTask(job);
    var late := if p.stop then p.workers[t].late + 1 else p.workers[t].late;
    p.(tasks := p.tasks[1..], dequeued := p.dequeued + [job], lock := None, workers := p.workers[t := Thread(pc, late)])
  }

  predicate CanWork(p: Pool, t: nat) {
    t < |p.workers|
    && match p.workers[t].pc
      case Locking => p.lock.None?
      case Waiting => p.lock.None?
      case Retired => false
      case Stopped => false
      case _ => true
  }

  function Worked(p: Pool, t: nat): Pool
    requires CanWork(p, t)
  {
    match p.workers[t].pc
    case LoopTest => At(p, t, if p.stop then Stopped else Locking)
    case Locking => At(p.(lock := Some(t)), t, QueueTest)
    case QueueTest =>
      if p.tasks == [] then At(p.(lock := None), t, if p.stop then LoopTest else Waiting)
      else Dequeue(p, t)
    case Waiting => At(p.(lock := Some(t)), t, ExitTest)
    case ExitTest => At(p, t, if p.exit > 0 then DecCur else QueueTest)
    case DecCur => At(p.(cur := p.cur - 1), t, DecIdle)
    case DecIdle => At(p.(idle := p.idle - 1), t, DecExit)
    case DecExit => At(p.(exit := p.exit - 1), t, PushId)
    case PushId => At(p.(ids := p.ids + [t], lock := None), t, Retired)
    case HasTask(job) => At(p.(idle := p.idle - 1), t, Running(job))
    case Running(job) => At(p.(completed := p.completed + [job]), t, Finished)
    case Finished => At(p.(idle := p.idle + 1), t, LoopTest)
  }

  /** Division of an int by two, rounding towards zero. */
  function Half(n: int): int { if n >= 0 then n / 2 else -(-n / 2) }

  predicate CanManage(p: Pool) {
    match p.manager
    case WaitIds => p.ids != [] || p.exit <= 0
    case ManagerDone => false
    case _ => true
  }

  function Managed(l: Limits, p: Pool): Pool
    requires CanManage(p)
  {
    match p.manager
    case ManagerLoop => p.(manager := if p.stop then ManagerDone else SampleIdle)
    case SampleIdle => p.(manager := SampleCur(p.idle))
    case SampleCur(idle) => p.(manager := Decide(idle, p.cur))
    case Decide(idle, cur) =>
      p.(manager :=
        if idle > Half(cur) && cur > l.min then StoreExit(cur)
        else if idle == 0 && cur < l.max && !p.stop then Spawn(cur)
        else ManagerLoop)
    case StoreExit(_) => p.(exit := 2, manager := WaitIds)
    case WaitIds => p.(manager := Cleanup)
    case Cleanup => p.(container := p.container - Listed(p.ids), ids := [], manager := ManagerLoop)
    case Spawn(cur) =>
      var t := |p.workers|;
      p.(workers := p.workers + [Thread(LoopTest, 0)], container := p.container + {t}, manager := IncCur(cur))
    case IncCur(_) => p.(cur := p.cur + 1, manager := IncIdle)
    case IncIdle => p.(idle := p.idle + 1, manager := ManagerLoop)
  }

  predicate Enabled(p: Pool, ev: Event) {
    match ev
    case AddTask(_) => p.lock.None?
    case SetStop => true
    case Work(t) => CanWork(p, t)
    case Manage => CanManage(p)
  }

  function Next(l: Limits, p: Pool, ev: Event): Pool
    requires Enabled(p, ev)
  {
    match ev
    case AddTask(job) => p.(tasks := p.tasks + [job], submitted := p.submitted + [job])
    case SetStop => p.(stop := true)
    case Work(t) => Worked(p, t)
    case Manage => Managed(l, p)
  }

  /** The pool's fields, its threads' positions, and the history. */
  class ThreadPool {
    const minThread: int
    const maxThread: int
    var tasks: seq<Job>
    var stop: bool
    var curThread: int
    var idleThread: int
    var exitThread: int
    var lock: Option<nat>
    var ids: seq<nat>
    var workers: set<nat>
    var threads: seq<Thread>
    var managerPc: ManagerPc
    ghost var submitted: seq<Job>
    ghost var dequeued: seq<Job>
    ghost var completed: seq<Job>

    function Range(): Limits { Limits(minThread, maxThread) }

    ghost function View(): Pool
      reads this
    {
      Pool(
        tasks, stop, curThread, idleThread, exitThread, lock, ids, workers, threads, managerPc,
        submitted, dequeued, completed)
    }

    constructor (min: int, max: int)
      ensures Range() == Limits(min, max) && View() == Start(Range())
    {
      minThread, maxThread, idleThread, curThread, stop := min, max, min, min, false;
      tasks, exitThread, lock, ids, submitted, dequeued, completed := [], 0, None, [], [], [], [];
      managerPc := ManagerLoop;
      workers, threads := {}, [];
      new;
      var i := 0;
      while i < min
        invariant 0 <= i <= Initial(min)
        invariant View() == Start(Range()).(container := Keys(i), workers := seq(i, _ => Thread(LoopTest, 0)))
      {
        workers := workers + {i};
        threads := threads + [Thread(LoopTest, 0)];
        i := i + 1;
      }
    }

    method AddTask(task: Job)
      requires Enabled(View(), Event.AddTask(task))
      modifies this
      ensures View() == Next(Range(), old(View()), Event.AddTask(task))
      ensures tasks == old(tasks) + [task] && submitted == old(submitted) + [task]
      ensures View() == old(View()).(tasks := tasks, submitted := submitted)
    {
      tasks := tasks + [task];
      submitted := submitted + [task];
    }

    method Stop()
      modifies this
      ensures View() == Next(Range(), old(View()), SetStop)
      ensures View() == old(View()).(stop := true)
    {
      stop := true;
    }

    method MoveTo(t: nat, pc: WorkerPc)
      requires t < |threads|
      modifies this`threads
      ensures View() == At(old(View()), t, pc)
    {
      threads := threads[t := threads[t].(pc := pc)];
    }

    /** The body of `worker()`, one step at a time. */
    method Worker(t: nat)
      requires Enabled(View(), Work(t))
      modifies this
      ensures View() == Next(Range(), old(View()), Work(t))
    {
      match threads[t].pc
      case LoopTest =>
        MoveTo(t, if !stop then Locking else Stopped);
      case Locking =>
        lock := Some(t);
        MoveTo(t, QueueTest);
      case QueueTest =>
        if |tasks| == 0 && !stop {
          lock := None;
          MoveTo(t, Waiting);
        } else {
          TakeTask(t);
        }
      case Waiting =>
        lock := Some(t);
        MoveTo(t, ExitTest);
      case ExitTest =>
        MoveTo(t, if exitThread > 0 then DecCur else QueueTest);
      case DecCur =>
        curThread := curThread - 1;
        MoveTo(t, DecIdle);
      case DecIdle =>
        idleThread := idleThread - 1;
        MoveTo(t, DecExit);
      case DecExit =>
        exitThread := exitThread - 1;
        MoveTo(t, PushId);
      case PushId =>
        ids := ids + [t];
        lock := None;
        MoveTo(t, Retired);
      case HasTask(task) =>
        idleThread := idleThread - 1;
        MoveTo(t, Running(task));
      case Running(task) =>
        completed := completed + [task];
        MoveTo(t, Finished);
      case Finished =>
        idleThread := idleThread + 1;
        MoveTo(t, LoopTest);
    }

    /** The rest of the queue's lock section, and `if (task)`. */
    method TakeTask(t: nat)
      requires t < |threads| && threads[t].pc == QueueTest && !(|tasks| == 0 && !stop)
      modifies this
      ensures View() == Worked(old(View()), t)
    {
      var task := NullJob;
      if |tasks| != 0 {
        task := tasks[0];
        tasks := tasks[1..];
        dequeued := dequeued + [task];
        if stop {
          threads := threads[t := threads[t].(late := threads[t].late + 1)];
        }
      }
      lock := None;
      MoveTo(t, if task != NullJob then HasTask(task) else LoopTest);
    }

    /** The body of `manager()`, one step at a time. */
    method Manager()
      requires Enabled(View(), Manage)
      modifies this
      ensures View() == Next(Range(), old(View()), Manage)
    {
      match managerPc
      case ManagerLoop =>
        managerPc := if !stop then SampleIdle else ManagerDone;
      case SampleIdle =>
        managerPc := SampleCur(idleThread);
      case SampleCur(idle) =>
        managerPc := Decide(idle, curThread);
      case Decide(idle, cur) =>
        if idle > Half(cur) && cur > minThread {
          managerPc := StoreExit(cur);
        } else if idle == 0 && cur < maxThread && !stop {
          managerPc := Spawn(cur);
        } else {
          managerPc := ManagerLoop;
        }
      case StoreExit(_) =>
        exitThread := 2;
        managerPc := WaitIds;
      case WaitIds =>
        managerPc := Cleanup;
      case Cleanup =>
        EraseRetired();
        managerPc := ManagerLoop;
      case Spawn(cur) =>
        workers := workers + {|threads|};
        threads := threads + [Thread(LoopTest, 0)];
        managerPc := IncCur(cur);
      case IncCur(_) =>
        curThread := curThread + 1;
        managerPc := IncIdle;
      case IncIdle =>
        idleThread := idleThread + 1;
        managerPc := ManagerLoop;
    }

    /** Under `m_idsMutex`: join and erase the threads that have retired. */
    method EraseRetired()
      modifies this`workers, this`ids
      ensures ids == [] && workers == old(workers) - Listed(old(ids))
    {
      var i := 0;
      while i < |ids|
        invariant 0 <= i <= |ids| && ids == old(ids)
        invariant workers == old(workers) - Listed(ids[..i])
      {
        var id := ids[i];
        assert ids[..i + 1] == ids[..i] + [id];
        if id in workers {
          workers := workers - {id};
        }
        i := i + 1;
      }
      assert ids[..i] == ids;
      ids := [];
    }
  }
}
