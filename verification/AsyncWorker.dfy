/**
 * The double-buffered consumer of log_system/log_src/AsyncWorker.hpp as a system of interleaved steps:
 * any number of producers in `Push`, the consumer in `ThreadEntry`, and whoever calls `Stop`.
 */
module AsyncWorker {
  import opened Common
  import opened AsyncBuffer

  datatype AsyncType = ASYNC_SAFE | ASYNC_UNSAFE

  /** Who holds `mutex_`: a producer that has passed its tests and is about to write its message, or the consumer. */
  datatype Lock = Free | HeldByProducer(message: Bytes) | HeldByConsumer

  /** Where the consumer is in `ThreadEntry`. */
  datatype ConsumerPc =
    | LoopTest    // while (!stop_)
    | Waiting     // about to wait, or waiting, for the wake condition
    | Swapping    // holding the lock, before Swap
    | Calling     // before callback_
    | Resetting   // before Reset
    | StopTest    // if (stop_ && ...)
    | EmptyTest   // ... buffer_productor_.IsEmpty()
    | Returned

  /** The wake condition on producer and consumer buffer that precedes `|| stop_`. */
  type WakeGuard = (Buf, Buf) -> bool

  datatype Setting = Setting(mode: AsyncType, growth: GrowthConfig, wake: WakeGuard)

  /**
   * `entered` records that the loop test was once passed; `accepted` the messages written, in the order
   * of the lock; `batches` what each callback was given.
   */
  datatype Worker = Worker(
    producer: Buf, consumer: Buf, stop: bool, lock: Lock, pc: ConsumerPc,
    entered: bool, accepted: seq<Bytes>, batches: seq<Bytes>)

  datatype Event =
    | Enter(message: Bytes)   // a producer takes the lock, its wait is over and `stop_` does not turn it away
    | Write                   // that producer writes its message and releases the lock
    | SetStop
    | TestLoop
    | Wake
    | Swap
    | Call
    | Reset
    | TestStop
    | TestEmpty

  function Start(s: Setting): Worker {
    Worker(NewBuf(s.growth), NewBuf(s.growth), false, Free, LoopTest, false, [], [])
  }

  /** Whether the event can happen now. A write out of bounds is outside the model. */
  predicate Enabled(s: Setting, w: Worker, ev: Event) {
    && w.producer.Valid() && w.consumer.Valid()
    && match ev
      case Enter(message) =>
        && w.lock == Free
        && (s.mode == ASYNC_SAFE ==> |message| <= w.producer.WriteableSize() && !w.stop)
      case Write => w.lock.HeldByProducer? && w.producer.Fits(s.growth, |w.lock.message|)
      case SetStop => true
      case TestLoop => w.pc == LoopTest
      case Wake => w.pc == Waiting && w.lock == Free && (s.wake(w.producer, w.consumer) || w.stop)
      case Swap => w.pc == Swapping
      case Call => w.pc == Calling
      case Reset => w.pc == Resetting
      case TestStop => w.pc == StopTest
      case TestEmpty => w.pc == EmptyTest
  }

  function Next(s: Setting, w: Worker, ev: Event): Worker
    requires Enabled(s, w, ev)
  {
    match ev
    case Enter(message) => w.(lock := HeldByProducer(message))
    case Write =>
      w.(
        producer := w.producer.Pushed(s.growth, w.lock.message),
        accepted := w.accepted + [w.lock.message],
        lock := Free)
    case SetStop => w.(stop := true)
    case TestLoop => if w.stop then w.(pc := Returned) else w.(pc := Waiting, entered := true)
    case Wake => w.(lock := HeldByConsumer, pc := Swapping)
    case Swap => w.(producer := w.consumer, consumer := w.producer, lock := Free, pc := Calling)
    case Call => w.(batches := w.batches + [w.consumer.Unread()], pc := Resetting)
    case Reset => w.(consumer := w.consumer.Reset(), pc := StopTest)
    case TestStop => if w.stop then w.(pc := EmptyTest) else w.(pc := LoopTest)
    case TestEmpty => if w.producer.IsEmpty() then w.(pc := Returned) else w.(pc := LoopTest)
  }

  /** The worker's own fields; the lock's holder and the consumer's position stand for the threads. */
  class AsyncWorker {
    const setting: Setting
    const bufferProducer: Buffer
    const bufferConsumer: Buffer
    var stop: bool
    var lock: Lock
    var pc: ConsumerPc
    ghost var entered: bool
    ghost var accepted: seq<Bytes>
    ghost var batches: seq<Bytes>

    ghost predicate Valid()
      reads this, bufferProducer, bufferConsumer
    {
      && bufferProducer != bufferConsumer && bufferProducer.buffer != bufferConsumer.buffer
      && bufferProducer.cfg == bufferConsumer.cfg == setting.growth
    }

    ghost function View(): Worker
      reads this, bufferProducer, bufferConsumer, bufferProducer.buffer, bufferConsumer.buffer
    {
      Worker(bufferProducer.View(), bufferConsumer.View(), stop, lock, pc, entered, accepted, batches)
    }

    constructor (setting: Setting)
      ensures Valid() && this.setting == setting && View() == Start(setting)
    {
      this.setting := setting;
      bufferProducer := new Buffer(setting.growth);
      bufferConsumer := new Buffer(setting.growth);
      stop, lock, pc := false, Free, LoopTest;
      entered, accepted, batches := false, [], [];
    }

    /** `Push` up to the write: `None` while the wait goes on, `Some(false)` when `stop_` turned the message away. */
    method EnterPush(message: Bytes) returns (admitted: Option<bool>)
      requires Valid() && lock == Free
      requires View().producer.Valid() && View().consumer.Valid()
      modifies this`lock
      ensures Valid()
      ensures admitted == Some(true) <==> Enabled(setting, old(View()), Enter(message))
      ensures admitted == Some(true) <==>
        (setting.mode == ASYNC_SAFE ==> !stop && |message| <= View().producer.WriteableSize())
      ensures lock == if admitted == Some(true) then HeldByProducer(message) else Free
      ensures View() == if admitted == Some(true) then Next(setting, old(View()), Enter(message)) else old(View())
      ensures admitted == Some(false) ==> setting.mode == ASYNC_SAFE && stop
      ensures admitted == None ==> setting.mode == ASYNC_SAFE && !stop && |message| > View().producer.WriteableSize()
    {
      if setting.mode == ASYNC_SAFE {
        if !(|message| <= bufferProducer.WriteableSize() || stop) {
          return None;
        }
        if stop {
          return Some(false);
        }
      }
      lock := HeldByProducer(message);
      return Some(true);
    }

    /** The rest of `Push`. */
    method WritePush()
      requires Valid() && Enabled(setting, View(), Write)
      modifies this, bufferProducer, bufferProducer.buffer
      ensures Valid() && View() == Next(setting, old(View()), Write)
      ensures lock == Free && accepted == old(accepted) + [old(lock).message]
    {
      bufferProducer.Push(lock.message);
      accepted := accepted + [lock.message];
      lock := Free;
    }

    method Stop()
      requires Valid() && Enabled(setting, View(), SetStop)
      modifies this`stop
      ensures Valid() && View() == Next(setting, old(View()), SetStop)
    {
      stop := true;
    }

    method LoopHead()
      requires Valid() && Enabled(setting, View(), TestLoop)
      modifies this
      ensures Valid() && View() == Next(setting, old(View()), TestLoop)
      ensures pc == if stop then Returned else Waiting
    {
      if !stop {
        pc, entered := Waiting, true;
      } else {
        pc := Returned;
      }
    }

    method WakeUp()
      requires Valid() && Enabled(setting, View(), Wake)
      modifies this
      ensures Valid() && View() == Next(setting, old(View()), Wake)
      ensures lock == HeldByConsumer && pc == Swapping
    {
      lock, pc := HeldByConsumer, Swapping;
    }

    method SwapBuffers()
      requires Valid() && Enabled(setting, View(), Swap)
      modifies this, bufferProducer, bufferConsumer
      ensures Valid() && View() == Next(setting, old(View()), Swap)
      ensures lock == Free && pc == Calling
      ensures View().producer == old(View()).consumer && View().consumer == old(View()).producer
    {
      bufferProducer.Swap(bufferConsumer);
      lock, pc := Free, Calling;
    }

    /** `callback_(buffer_consumer_)`, returning what it is given. */
    method Callback() returns (batch: Bytes)
      requires Valid() && Enabled(setting, View(), Call)
      modifies this
      ensures Valid() && View() == Next(setting, old(View()), Call)
      ensures batch == old(View()).consumer.Unread() && batches == old(batches) + [batch] && pc == Resetting
    {
      batch := bufferConsumer.Contents();
      batches := batches + [batch];
      pc := Resetting;
    }

    method ResetConsumer()
      requires Valid() && Enabled(setting, View(), Reset)
      modifies this, bufferConsumer
      ensures Valid() && View() == Next(setting, old(View()), Reset)
      ensures View().consumer.IsEmpty() && View().consumer.data == old(View()).consumer.data && pc == StopTest
    {
      bufferConsumer.Reset();
      pc := StopTest;
    }

    method TestForStop()
      requires Valid() && Enabled(setting, View(), TestStop)
      modifies this
      ensures Valid() && View() == Next(setting, old(View()), TestStop)
      ensures pc == if stop then EmptyTest else LoopTest
    {
      pc := if stop then EmptyTest else LoopTest;
    }

    method TestForEmpty()
      requires Valid() && Enabled(setting, View(), TestEmpty)
      modifies this
      ensures Valid() && View() == Next(setting, old(View()), TestEmpty)
      ensures pc == if View().producer.IsEmpty() then Returned else LoopTest
    {
      pc := if bufferProducer.IsEmpty() then Returned else LoopTest;
    }
  }
}
