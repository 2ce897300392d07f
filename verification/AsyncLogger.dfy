/** `RealFlush` of log_system/log_src/AsyncLogger.hpp: the worker's callback, which hands each batch to every sink. */
module AsyncLogger {
  import opened Common
  import opened Messages
  import opened LogFlush
  import opened LogFiles
  import opened AsyncBuffer
  import opened AsyncWorker
  import WorkerLaws

  /** One of the three kinds of sink. */
  datatype LogSink = Rolling(roll: RollFileFlush) | Plain(stream: StreamFlush)

  function Target(s: LogSink): object {
    match s
    case Rolling(roll) => roll
    case Plain(stream) => stream
  }

  /**
   * A logger over sinks of any kind, the rolling ones in directories of their own, and the worker that calls it
   * back.
   */
  class AsyncLogger {
    const flushes: seq<LogSink>
    const worker: AsyncWorker
    ghost const disks: seq<map<Bytes, Bytes>>
    ghost var batches: seq<Bytes>
    ghost var times: seq<seq<Time>>

    ghost function Targets(): set<object> { set s | s in flushes :: Target(s) }

    /** The sink has flushed exactly `batches`, in that order. */
    ghost predicate HasFlushed(i: nat, batches: seq<Bytes>, times: seq<Time>)
      requires i < |flushes| == |disks|
      reads Target(flushes[i])
    {
      |times| == |batches|
      && match flushes[i]
        case Rolling(roll) => roll.View() == FlushAll(roll.cfg, disks[i], batches, times)
        case Plain(stream) => stream.written == if stream.open then Concat(batches) else []
    }

    /** What the sink has in its files, or in its stream. */
    ghost function LogOf(i: nat): Bytes
      requires i < |flushes| == |disks|
      reads Target(flushes[i])
    {
      match flushes[i]
      case Rolling(roll) => Concat(Log(disks[i], roll.View()))
      case Plain(stream) => stream.written
    }

    ghost predicate Configured(i: nat)
      requires i < |flushes|
    {
      flushes[i].Rolling? ==> flushes[i].roll.Configured()
    }

    ghost predicate AllConfigured() { forall i :: 0 <= i < |flushes| ==> Configured(i) }

    ghost predicate AllFlushed()
      reads this, Targets()
    {
      && AllConfigured()
      && |disks| == |flushes| == |times| && Distinct(flushes)
      && (forall i :: 0 <= i < |flushes| ==> HasFlushed(i, batches, times[i]))
    }

    /** Every sink has flushed exactly the batches of the worker's callbacks. */
    ghost predicate Valid()
      reads this, Targets(), worker, worker.bufferProducer, worker.bufferConsumer
    {
      AllFlushed() && worker.Valid() && batches == worker.batches
    }

    constructor (flushes: seq<LogSink>, setting: Setting, ghost disks: seq<map<Bytes, Bytes>>)
      requires |disks| == |flushes| && Distinct(flushes)
      requires forall i :: 0 <= i < |flushes| ==>
        match flushes[i]
        case Rolling(roll) => roll.View() == NewSink(disks[i]) && roll.Configured()
        case Plain(stream) => stream.written == []
      ensures Valid() && this.flushes == flushes && this.disks == disks
      ensures worker.setting == setting && worker.View() == Start(setting)
    {
      this.flushes := flushes;
      this.disks := disks;
      worker := new AsyncWorker(setting);
      batches, times := [], seq(|flushes|, i => []);
    }

    method FlushSink(i: nat, data: Bytes, now: Time, ghost batches: seq<Bytes>, ghost times: seq<Time>)
      requires AllConfigured() && i < |flushes| == |disks| && HasFlushed(i, batches, times)
      modifies Target(flushes[i])
      ensures HasFlushed(i, batches + [data], times + [now])
    {
      assert Configured(i);
      match flushes[i]
      case Rolling(roll) =>
        roll.Flush(data, now);
        FlushOneMore(roll.cfg, disks[i], batches, times, data, now);
      case Plain(stream) =>
        stream.Flush(data);
        ConcatSnoc(batches, data);
    }

    /** One turn of the loop over the sinks, which leaves the other sinks alone. */
    method FlushNext(
      i: nat, data: Bytes, now: Time, ghost batches: seq<Bytes>, ghost after: seq<Bytes>,
      ghost times: seq<seq<Time>>, ghost later: seq<seq<Time>>)
      requires AllConfigured() && i < |flushes| == |disks| == |times| == |later| && Distinct(flushes)
      requires after == batches + [data] && later[i] == times[i] + [now]
      requires forall k :: 0 <= k < i ==> HasFlushed(k, after, later[k])
      requires forall k :: i <= k < |flushes| ==> HasFlushed(k, batches, times[k])
      modifies Target(flushes[i])
      ensures forall k :: 0 <= k < i + 1 ==> HasFlushed(k, after, later[k])
      ensures forall k :: i + 1 <= k < |flushes| ==> HasFlushed(k, batches, times[k])
    {
      assert forall k :: 0 <= k < |flushes| && k != i ==> Target(flushes[k]) != Target(flushes[i]);
      FlushSink(i, data, now, batches, times[i]);
    }

    /** The loop over the sinks. */
    method FlushEach(
      buffer: Buffer, now: seq<Time>, ghost batches: seq<Bytes>, ghost after: seq<Bytes>,
      ghost times: seq<seq<Time>>, ghost later: seq<seq<Time>>)
      requires AllConfigured() && |flushes| == |disks| == |times| == |now| && Distinct(flushes)
      requires buffer.View().Valid() && after == batches + [buffer.View().Unread()] && later == Extended(times, now)
      requires forall k :: 0 <= k < |flushes| ==> HasFlushed(k, batches, times[k])
      modifies Targets()
      ensures forall k :: 0 <= k < |flushes| ==> HasFlushed(k, after, later[k])
    {
      var i := 0;
      while i < |flushes|
        invariant 0 <= i <= |flushes|
        invariant forall k :: 0 <= k < i ==> HasFlushed(k, after, later[k])
        invariant forall k :: i <= k < |flushes| ==> HasFlushed(k, batches, times[k])
      {
        var data := buffer.Contents();
        FlushNext(i, data, now[i], batches, after, times, later);
        i := i + 1;
      }
    }

    /** Every sink receives the whole batch once, at its own reading of the clock. */
    method RealFlush(buffer: Buffer, now: seq<Time>)
      requires AllFlushed() && buffer.View().Valid() && |now| == |flushes|
      modifies this, Targets()
      ensures AllFlushed() && batches == old(batches) + [buffer.View().Unread()]
      ensures times == Extended(old(times), now)
    {
      ghost var after, later := batches + [buffer.View().Unread()], Extended(times, now);
      Unrelated();
      if |flushes| != 0 {
        FlushEach(buffer, now, batches, after, times, later);
      }
      batches, times := after, later;
    }

    /** No sink is the worker or one of its buffers. */
    lemma Unrelated()
      ensures worker !in Targets() && this !in Targets()
      ensures worker.bufferProducer !in Targets() && worker.bufferConsumer !in Targets()
    {
    }

    /** The worker's callback is `RealFlush`. */
    method Deliver(now: seq<Time>)
      requires Valid() && |now| == |flushes| && Enabled(worker.setting, worker.View(), Call)
      modifies this, Targets(), worker
      ensures Valid() && worker.View() == Next(worker.setting, old(worker.View()), Call)
    {
      Unrelated();
      RealFlush(worker.bufferConsumer, now);
      var batch := worker.Callback();
    }

    /** The next step of the consumer. */
    method Consume(now: seq<Time>)
      requires Valid() && |now| == |flushes|
      requires ConsumerStep(worker.View().pc).Some?
      requires Enabled(worker.setting, worker.View(), ConsumerStep(worker.View().pc).value)
      modifies this, Targets(), worker, worker.bufferProducer, worker.bufferConsumer
      ensures Valid()
      ensures worker.View() == Next(worker.setting, old(worker.View()), ConsumerStep(old(worker.View().pc)).value)
    {
      if worker.pc == Calling {
        Deliver(now);
      } else {
        Unrelated();
        Advance();
      }
    }

    /** ... when it is not the callback. */
    method Advance()
      requires worker.Valid() && worker.pc != Calling && ConsumerStep(worker.View().pc).Some?
      requires Enabled(worker.setting, worker.View(), ConsumerStep(worker.View().pc).value)
      modifies worker, worker.bufferProducer, worker.bufferConsumer
      ensures worker.Valid() && worker.batches == old(worker.batches)
      ensures worker.View() == Next(worker.setting, old(worker.View()), ConsumerStep(old(worker.View().pc)).value)
    {
      match worker.pc
      case LoopTest => worker.LoopHead();
      case Waiting => worker.WakeUp();
      case Swapping => worker.SwapBuffers();
      case Resetting => worker.ResetConsumer();
      case StopTest => worker.TestForStop();
      case EmptyTest => worker.TestForEmpty();
    }

    /** `Flush` up to the write, and the rest of it: a producer's `Push`. */
    method Flush(data: Bytes) returns (admitted: Option<bool>)
      requires Valid() && worker.lock == Free
      requires worker.View().producer.Valid() && worker.View().consumer.Valid()
      modifies worker`lock
      ensures Valid()
      ensures admitted == Some(true) <==> Enabled(worker.setting, old(worker.View()), Enter(data))
      ensures admitted == Some(false) ==> worker.setting.mode == ASYNC_SAFE && worker.stop
      ensures worker.View() ==
        if Enabled(worker.setting, old(worker.View()), Enter(data))
        then Next(worker.setting, old(worker.View()), Enter(data)) else old(worker.View())
    {
      admitted := worker.EnterPush(data);
    }

    method FinishFlush()
      requires Valid() && Enabled(worker.setting, worker.View(), Write)
      modifies worker, worker.bufferProducer, worker.bufferProducer.buffer
      ensures Valid() && worker.View() == Next(worker.setting, old(worker.View()), Write)
    {
      worker.WritePush();
    }

    method Stop()
      requires Valid() && Enabled(worker.setting, worker.View(), SetStop)
      modifies worker`stop
      ensures Valid() && worker.View() == Next(worker.setting, old(worker.View()), SetStop)
    {
      worker.Stop();
    }
  }

  /** What the consumer does next, by its position. */
  function ConsumerStep(pc: ConsumerPc): Option<Event> {
    match pc
    case LoopTest => Some(TestLoop)
    case Waiting => Some(Wake)
    case Swapping => Some(Swap)
    case Calling => Some(Call)
    case Resetting => Some(Reset)
    case StopTest => Some(TestStop)
    case EmptyTest => Some(TestEmpty)
    case Returned => None
  }

  /** One more clock reading for each sink. */
  ghost function Extended(times: seq<seq<Time>>, now: seq<Time>): seq<seq<Time>>
    requires |times| == |now|
  {
    seq(|now|, i requires 0 <= i < |now| => times[i] + [now[i]])
  }

  lemma FlushOneMore(
    cfg: SinkConfig, disk: map<Bytes, Bytes>, batches: seq<Bytes>, times: seq<Time>, batch: Bytes, now: Time)
    requires |batches| == |times|
    ensures
      FlushAll(cfg, disk, batches + [batch], times + [now]) ==
        LogFlush.Flushed(cfg, FlushAll(cfg, disk, batches, times), batch, now)
  {
    assert (batches + [batch])[..|batches|] == batches && (times + [now])[..|times|] == times;
  }

  /**
   * From `Push` to disk: when the consumer of a logger has returned, each of its sinks holds in its files, in
   * the order of their creation, exactly the messages accepted, in the order of acceptance, exactly if every
   * message that is not empty was followed by a hand-over; so in particular after an orderly stop.
   */
  lemma EverySinkHoldsTheLog(logger: AsyncLogger, evs: seq<Event>, i: nat)
    requires logger.Valid() && i < |logger.flushes|
    requires WorkerLaws.After(logger.worker.setting, evs) == Some(logger.worker.View())
    requires logger.worker.pc == Returned && (logger.flushes[i].Plain? ==> logger.flushes[i].stream.open)
    ensures
      var log, w := logger.LogOf(i), logger.worker.View();
      && (log == Concat(w.accepted) <==> WorkerLaws.NoneStranded(logger.worker.setting, evs))
      && (StoppedInOrder(logger.worker.setting, evs, w) ==> log == Concat(w.accepted))
  {
    var s := logger.worker.setting;
    assert logger.HasFlushed(i, logger.batches, logger.times[i]) && logger.Configured(i);
    match logger.flushes[i]
    case Rolling(roll) =>
      AcceptedMessagesReachTheFiles(s, evs, roll.basename, roll.maxSize, logger.disks[i], logger.times[i]);
    case Plain(stream) =>
      AcceptedMessagesAreDelivered(s, evs);
  }
}
