/**
 * Safety of the asynchronous worker over every interleaving: nothing lost, nothing split, and what shutdown
 * guarantees.
 */
module WorkerLaws {
  import opened Common
  import opened AsyncBuffer
  import opened AsyncWorker
  import opened Messages

  // ---- Runs ----

  /** The state after a sequence of events from the start, if they can happen in that order. */
  function After(s: Setting, evs: seq<Event>): Option<Worker> {
    if evs == [] then Some(Start(s))
    else
      var before, ev := After(s, evs[..|evs| - 1]), evs[|evs| - 1];
      if before.Some? && Enabled(s, before.value, ev) then Some(Next(s, before.value, ev)) else None
  }

  lemma Extend(s: Setting, evs: seq<Event>, ev: Event)
    requires After(s, evs).Some? && Enabled(s, After(s, evs).value, ev)
    ensures After(s, evs + [ev]) == Some(Next(s, After(s, evs).value, ev))
  {
    assert (evs + [ev])[..|evs|] == evs;
  }

  // ---- What was sent ----

  /** The last message to get past the tests of `Push` and not yet written, and those written, read off the events. */
  function Sent(evs: seq<Event>): (Option<Bytes>, seq<Bytes>) {
    if evs == [] then (None, [])
    else
      var (entered, written) := Sent(evs[..|evs| - 1]);
      match evs[|evs| - 1]
      case Enter(message) => (Some(message), written)
      case Write => (None, written + if entered.Some? then [entered.value] else [])
      case _ => (entered, written)
  }

  /** Every message that a producer got past the tests is accepted once it is written. */
  lemma {:induction false} EverySentIsAccepted(s: Setting, evs: seq<Event>)
    requires After(s, evs).Some?
    ensures
      var w := After(s, evs).value;
      && w.accepted == Sent(evs).1
      && (w.lock.HeldByProducer? <==> Sent(evs).0.Some?)
      && (w.lock.HeldByProducer? ==> Sent(evs).0 == Some(w.lock.message))
  {
    if evs != [] {
      EverySentIsAccepted(s, evs[..|evs| - 1]);
      RunConsistent(s, evs[..|evs| - 1]);
    }
  }

  // ---- Conservation ----

  /** What the lock protects, and that the consumer's buffer is empty outside a hand-over. */
  predicate Consistent(s: Setting, w: Worker) {
    && w.producer.Valid() && w.consumer.Valid()
    && (w.lock == HeldByConsumer <==> w.pc == Swapping)
    && (s.mode == ASYNC_SAFE && w.lock.HeldByProducer? ==> |w.lock.message| <= w.producer.WriteableSize())
    && (w.pc != Calling && w.pc != Resetting ==> w.consumer.IsEmpty())
  }

  /**
   * A division of the accepted messages into those delivered, batch by batch, those swapped out, and those still in
   * the producer's buffer.
   */
  ghost predicate Divided(w: Worker, groups: seq<seq<Bytes>>, taken: seq<Bytes>, pending: seq<Bytes>)
    requires w.producer.Valid() && w.consumer.Valid()
  {
    && w.accepted == Flatten(groups) + taken + pending
    && |groups| == |w.batches|
    && (forall i :: 0 <= i < |groups| ==> w.batches[i] == Concat(groups[i]))
    && (if w.pc == Calling then w.consumer.Unread() == Concat(taken) else taken == [])
    && w.producer.Unread() == Concat(pending)
  }

  lemma StepKeepsDivision(
    s: Setting, w: Worker, ev: Event, groups: seq<seq<Bytes>>, taken: seq<Bytes>, pending: seq<Bytes>)
    returns (groups': seq<seq<Bytes>>, taken': seq<Bytes>, pending': seq<Bytes>)
    requires Consistent(s, w) && Divided(w, groups, taken, pending) && Enabled(s, w, ev)
    ensures Consistent(s, Next(s, w, ev)) && Divided(Next(s, w, ev), groups', taken', pending')
  {
    groups', taken', pending' := groups, taken, pending;
    match ev
    case Write =>
      pending' := pending + [w.lock.message];
      PushAppends(s.growth, w.producer, w.lock.message);
      ConcatSnoc(pending, w.lock.message);
      assert Flatten(groups) + taken + pending' == w.accepted + [w.lock.message];
    case Swap =>
      taken', pending' := pending, [];
      assert Flatten(groups) + pending + [] == w.accepted;
    case Call =>
      groups', taken' := groups + [taken], [];
      FlattenSnoc(groups, taken);
      assert Flatten(groups') + [] + pending == w.accepted;
    case _ =>
  }

  lemma {:induction false} RunDivision(s: Setting, evs: seq<Event>)
    returns (groups: seq<seq<Bytes>>, taken: seq<Bytes>, pending: seq<Bytes>)
    requires After(s, evs).Some?
    ensures Consistent(s, After(s, evs).value) && Divided(After(s, evs).value, groups, taken, pending)
  {
    groups, taken, pending := [], [], [];
    if evs != [] {
      groups, taken, pending := RunDivision(s, evs[..|evs| - 1]);
      var before := After(s, evs[..|evs| - 1]).value;
      groups, taken, pending := StepKeepsDivision(s, before, evs[|evs| - 1], groups, taken, pending);
    }
  }

  /** The bytes the consumer has swapped out and not yet delivered. */
  function InHand(w: Worker): Bytes
    requires w.consumer.Valid()
  {
    if w.pc == Calling then w.consumer.Unread() else []
  }

  /**
   * For every mode, wake condition and interleaving of any number of producers: what was sent is what was
   * accepted, and is what was delivered, followed by what is in the consumer's hand, followed by what the
   * producers' buffer holds.
   */
  lemma Conservation(s: Setting, evs: seq<Event>)
    requires After(s, evs).Some?
    ensures
      var w := After(s, evs).value;
      && w.producer.Valid() && w.consumer.Valid() && w.accepted == Sent(evs).1
      && Concat(w.accepted) == Concat(w.batches) + InHand(w) + w.producer.Unread()
  {
    EverySentIsAccepted(s, evs);
    var w := After(s, evs).value;
    var groups, taken, pending := RunDivision(s, evs);
    ConcatGroups(groups, w.batches);
    ConcatAppend(Flatten(groups) + taken, pending);
    ConcatAppend(Flatten(groups), taken);
  }

  /** The batches are concatenations of consecutive groups of accepted messages, from the first one on. */
  predicate WholeMessages(w: Worker, groups: seq<seq<Bytes>>) {
    var delivered := Flatten(groups);
    && |groups| == |w.batches|
    && (forall i :: 0 <= i < |groups| ==> w.batches[i] == Concat(groups[i]))
    && |delivered| <= |w.accepted| && delivered == w.accepted[..|delivered|]
  }

  /** Every callback was given whole messages, consecutive in the order of acceptance. */
  lemma BatchesAreWholeMessages(s: Setting, evs: seq<Event>)
    requires After(s, evs).Some?
    ensures exists groups :: WholeMessages(After(s, evs).value, groups)
  {
    var groups, taken, pending := RunDivision(s, evs);
    assert WholeMessages(After(s, evs).value, groups);
  }

  // ---- What a returned consumer leaves behind ----

  /** The message that event `k` of a run writes, if it writes one. */
  function Written(s: Setting, evs: seq<Event>, k: nat): Option<Bytes>
    requires k < |evs|
  {
    var before := After(s, evs[..k]);
    if evs[k] == Write && before.Some? && before.value.lock.HeldByProducer? then Some(before.value.lock.message)
    else None
  }

  /** Event `k` writes a message that is not empty, and no hand-over follows. */
  predicate Stranded(s: Setting, evs: seq<Event>, k: nat) {
    && k < |evs| && Written(s, evs, k).Some? && Written(s, evs, k).value != []
    && forall j :: k < j < |evs| ==> evs[j] != Swap
  }

  lemma StrandedBefore(s: Setting, evs: seq<Event>, k: nat)
    requires k < |evs| - 1
    ensures Stranded(s, evs, k) <==> Stranded(s, evs[..|evs| - 1], k) && evs[|evs| - 1] != Swap
  {
    var front := evs[..|evs| - 1];
    assert evs[..k] == front[..k] && evs[k] == front[k];
    assert forall j :: k < j < |front| ==> front[j] == evs[j];
  }

  lemma BufferedByStep(s: Setting, w: Worker, ev: Event)
    requires Consistent(s, w) && Enabled(s, w, ev)
    ensures Consistent(s, Next(s, w, ev))
    ensures
      Next(s, w, ev).producer.Unread() ==
        if ev == Swap then [] else if ev == Write then w.producer.Unread() + w.lock.message else w.producer.Unread()
  {
    if ev == Write {
      PushAppends(s.growth, w.producer, w.lock.message);
    }
  }

  lemma RunConsistent(s: Setting, evs: seq<Event>)
    requires After(s, evs).Some?
    ensures Consistent(s, After(s, evs).value)
  {
    var groups, taken, pending := RunDivision(s, evs);
  }

  predicate NoneStranded(s: Setting, evs: seq<Event>) { forall k :: 0 <= k < |evs| ==> !Stranded(s, evs, k) }

  lemma StrandedStep(s: Setting, evs: seq<Event>)
    requires evs != []
    ensures
      var n := |evs| - 1;
      NoneStranded(s, evs) <==>
        evs[n] == Swap || (NoneStranded(s, evs[..n]) && (Written(s, evs, n).Some? ==> Written(s, evs, n).value == []))
  {
    var n := |evs| - 1;
    forall k | 0 <= k < n ensures Stranded(s, evs, k) <==> Stranded(s, evs[..n], k) && evs[n] != Swap {
      StrandedBefore(s, evs, k);
    }
    assert Stranded(s, evs, n) <==> Written(s, evs, n).Some? && Written(s, evs, n).value != [];
  }

  /** In ASYNC_SAFE mode no `Push` that was admitted writes out of bounds. */
  lemma SafeWritesInBounds(s: Setting, evs: seq<Event>)
    requires s.mode == ASYNC_SAFE && After(s, evs).Some? && After(s, evs).value.lock.HeldByProducer?
    ensures Enabled(s, After(s, evs).value, Write)
  {
    var w := After(s, evs).value;
    RunConsistent(s, evs);
    PushInBounds(s.growth, w.producer, |w.lock.message|);
  }

  /** The producers' buffer is empty exactly if every message that was not empty was followed by a hand-over. */
  lemma {:induction false} BufferedExactly(s: Setting, evs: seq<Event>)
    requires After(s, evs).Some?
    ensures
      var w := After(s, evs).value;
      w.producer.Valid() && (w.producer.Unread() == [] <==> NoneStranded(s, evs))
  {
    RunConsistent(s, evs);
    if evs != [] {
      var n := |evs| - 1;
      BufferedExactly(s, evs[..n]);
      RunConsistent(s, evs[..n]);
      BufferedByStep(s, After(s, evs[..n]).value, evs[n]);
      StrandedStep(s, evs);
    }
  }

  /**
   * For any wake condition, mode and interleaving: a consumer that has returned delivered everything accepted
   * exactly if every message that was not empty was followed by a hand-over.
   */
  lemma LeftBehind(s: Setting, evs: seq<Event>)
    requires After(s, evs).Some? && After(s, evs).value.pc == Returned
    ensures
      var w := After(s, evs).value;
      Concat(w.batches) == Concat(w.accepted) <==> NoneStranded(s, evs)
  {
    Conservation(s, evs);
    BufferedExactly(s, evs);
  }

  // ---- Shutdown, as written ----

  /** The source's wake condition looks at the consumer's own buffer. */
  ghost predicate AsWritten(s: Setting) {
    forall p, c :: s.wake(p, c) <==> !c.IsEmpty()
  }

  predicate AfterSwap(w: Worker) {
    || w.pc == Calling || w.pc == Resetting || w.pc == StopTest || w.pc == EmptyTest
    || ((w.pc == Returned || w.pc == LoopTest) && w.entered)
  }

  /** Nothing is swapped before `stop_`; in ASYNC_SAFE mode no producer gets in from the one swap on. */
  predicate ShutdownInvariant(s: Setting, w: Worker) {
    && w.producer.Valid()
    && (w.pc == Waiting || w.pc == Swapping ==> w.entered)
    && (w.pc == Swapping || w.pc == Returned || AfterSwap(w) ==> w.stop)
    && (AfterSwap(w) ==> w.entered)
    && (!AfterSwap(w) || w.pc == Calling ==> w.batches == [])
    && (s.mode == ASYNC_SAFE && AfterSwap(w) ==> w.lock == Free && w.producer.IsEmpty())
  }

  lemma ShutdownStep(s: Setting, w: Worker, ev: Event)
    requires AsWritten(s) && Consistent(s, w) && ShutdownInvariant(s, w) && Enabled(s, w, ev)
    ensures ShutdownInvariant(s, Next(s, w, ev))
    ensures AfterSwap(Next(s, w, ev)) <==> AfterSwap(w) || ev == Swap
    ensures ev == Swap ==> !AfterSwap(w)
  {
    BufferedByStep(s, w, ev);
  }

  lemma {:induction false} ShutdownHolds(s: Setting, evs: seq<Event>)
    requires AsWritten(s) && After(s, evs).Some?
    ensures Consistent(s, After(s, evs).value) && ShutdownInvariant(s, After(s, evs).value)
  {
    RunConsistent(s, evs);
    if evs != [] {
      var front := evs[..|evs| - 1];
      ShutdownHolds(s, front);
      ShutdownStep(s, After(s, front).value, evs[|evs| - 1]);
    }
  }

  /** In either mode the consumer delivers nothing until somebody calls `Stop`. */
  lemma NothingDeliveredBeforeStop(s: Setting, evs: seq<Event>)
    requires AsWritten(s) && After(s, evs).Some? && !After(s, evs).value.stop
    ensures After(s, evs).value.batches == []
  {
    ShutdownHolds(s, evs);
  }

  /** ... and then it hands over once at most. */
  lemma {:induction false} OneHandOver(s: Setting, evs: seq<Event>)
    requires AsWritten(s) && After(s, evs).Some?
    ensures Swap in evs <==> AfterSwap(After(s, evs).value)
    ensures forall i, j :: 0 <= i < j < |evs| ==> evs[i] != Swap || evs[j] != Swap
  {
    if evs != [] {
      var n := |evs| - 1;
      OneHandOver(s, evs[..n]);
      ShutdownHolds(s, evs[..n]);
      ShutdownStep(s, After(s, evs[..n]).value, evs[n]);
      assert evs == evs[..n] + [evs[n]];
    }
  }

  /**
   * In ASYNC_SAFE mode a returned consumer delivered everything, exactly if its loop was entered at all (or nothing
   * was sent).
   */
  lemma ShutdownComplete(s: Setting, evs: seq<Event>)
    requires s.mode == ASYNC_SAFE && AsWritten(s) && After(s, evs).Some? && After(s, evs).value.pc == Returned
    ensures
      var w := After(s, evs).value;
      && (Concat(w.batches) == Concat(w.accepted) <==> w.entered || Concat(w.accepted) == [])
      && (w.entered ==> w.producer.IsEmpty())
  {
    var w := After(s, evs).value;
    ShutdownHolds(s, evs);
    Conservation(s, evs);
  }

  /** ... and it stays so: after that return no message is accepted any more. */
  lemma {:induction false} ClosedAfterReturn(s: Setting, evs: seq<Event>, more: seq<Event>)
    requires s.mode == ASYNC_SAFE && AsWritten(s) && After(s, evs).Some? && After(s, evs + more).Some?
    requires After(s, evs).value.pc == Returned && After(s, evs).value.entered
    ensures After(s, evs + more) == After(s, evs)
  {
    ShutdownHolds(s, evs);
    if more == [] {
      assert evs + more == evs;
    } else {
      var front := more[..|more| - 1];
      assert (evs + more)[..|evs + more| - 1] == evs + front;
      ClosedAfterReturn(s, evs, front);
    }
  }

  /**
   * In either mode: a returned consumer that had entered its loop delivered everything exactly if nothing but
   * empty messages was written after its one hand-over; one that had not, exactly if nothing was sent.
   */
  lemma ShutdownExact(s: Setting, evs: seq<Event>)
    requires AsWritten(s) && After(s, evs).Some? && After(s, evs).value.pc == Returned
    ensures
      var w := After(s, evs).value;
      Concat(w.batches) == Concat(w.accepted) <==>
        if w.entered then
          forall j, k :: 0 <= j < k < |evs| && evs[j] == Swap && Written(s, evs, k).Some? ==>
            Written(s, evs, k).value == []
        else Concat(w.accepted) == []
  {
    var w := After(s, evs).value;
    ShutdownHolds(s, evs);
    OneHandOver(s, evs);
    if w.entered {
      LeftBehind(s, evs);
      var at :| 0 <= at < |evs| && evs[at] == Swap;
      EarlierIsHandedOver(s, evs, at);
    }
  }

  lemma EarlierIsHandedOver(s: Setting, evs: seq<Event>, at: nat)
    requires at < |evs| && evs[at] == Swap
    requires forall i, j :: 0 <= i < j < |evs| ==> evs[i] != Swap || evs[j] != Swap
    ensures NoneStranded(s, evs) <==>
      forall j, k :: 0 <= j < k < |evs| && evs[j] == Swap && Written(s, evs, k).Some? ==> Written(s, evs, k).value == []
  {
    assert forall k :: 0 <= k < at ==> !Stranded(s, evs, k);
    assert forall j :: 0 <= j < |evs| && evs[j] == Swap ==> j == at;
    forall k | at < k < |evs| && Written(s, evs, k).Some? && Written(s, evs, k).value != []
      ensures Stranded(s, evs, k)
    {
    }
  }

  /** No producer finishes a `Push` after somebody called `Stop`. */
  predicate Quiet(evs: seq<Event>) {
    forall j, k :: 0 <= j < k < |evs| && evs[j] == SetStop ==> evs[k] != Write
  }

  lemma {:induction false} StoppedBySetStop(s: Setting, evs: seq<Event>)
    requires After(s, evs).Some?
    ensures After(s, evs).value.stop <==> SetStop in evs
  {
    if evs != [] {
      var n := |evs| - 1;
      StoppedBySetStop(s, evs[..n]);
      assert evs == evs[..n] + [evs[n]];
    }
  }

  lemma {:induction false} QuietHolds(s: Setting, evs: seq<Event>)
    requires AsWritten(s) && After(s, evs).Some? && Quiet(evs)
    ensures AfterSwap(After(s, evs).value) ==> After(s, evs).value.producer.IsEmpty()
  {
    ShutdownHolds(s, evs);
    if evs != [] {
      var n := |evs| - 1;
      var front, w := evs[..n], After(s, evs[..n]).value;
      QuietHolds(s, front);
      ShutdownHolds(s, front);
      StoppedBySetStop(s, front);
      assert forall j :: 0 <= j < n && front[j] == SetStop ==> evs[j] == SetStop && evs[n] != Write;
      BufferedByStep(s, w, evs[n]);
      ShutdownStep(s, w, evs[n]);
    }
  }

  /**
   * In either mode: if every `Push` is over before `Stop`, a consumer that entered its loop returns only with
   * everything delivered.
   */
  lemma CompleteWhenQuiet(s: Setting, evs: seq<Event>)
    requires AsWritten(s) && After(s, evs).Some? && Quiet(evs)
    requires After(s, evs).value.pc == Returned && After(s, evs).value.entered
    ensures
      var w := After(s, evs).value;
      Concat(w.batches) == Concat(w.accepted) && w.producer.IsEmpty()
  {
    QuietHolds(s, evs);
    Conservation(s, evs);
  }

  // ---- Why those conditions ----

  /** One more event of a run. */
  lemma Step(s: Setting, evs: seq<Event>, w: Worker, ev: Event) returns (evs': seq<Event>, w': Worker)
    requires After(s, evs) == Some(w) && Enabled(s, w, ev)
    ensures After(s, evs') == Some(w') && w' == Next(s, w, ev)
  {
    evs', w' := evs + [ev], Next(s, w, ev);
    Extend(s, evs, ev);
  }

  /** A producer's whole `Push`, when the lock is free and there is room. */
  lemma PushWhole(s: Setting, evs: seq<Event>, w: Worker, message: Bytes) returns (evs': seq<Event>, w': Worker)
    requires After(s, evs) == Some(w) && Enabled(s, w, Enter(message)) && w.producer.Fits(s.growth, |message|)
    ensures After(s, evs') == Some(w') && w'.producer.Valid() && w'.producer.Unread() == w.producer.Unread() + message
    ensures |w'.producer.data| >= |w.producer.data|
    ensures w' == w.(producer := w'.producer, accepted := w.accepted + [message])
  {
    PushInBounds(s.growth, w.producer, |message|);
    evs', w' := Step(s, evs, w, Enter(message));
    evs', w' := Step(s, evs', w', Write);
    PushAppends(s.growth, w.producer, message);
  }

  /** The consumer's whole hand-over, from waking to `Reset`. */
  lemma HandOver(s: Setting, evs: seq<Event>, w: Worker) returns (evs': seq<Event>, w': Worker)
    requires After(s, evs) == Some(w) && Enabled(s, w, Wake)
    ensures After(s, evs') == Some(w') && w'.consumer.Valid()
    ensures w' == w.(
      producer := w.consumer, consumer := w.producer.Reset(), pc := StopTest,
      batches := w.batches + [w.producer.Unread()])
  {
    evs', w' := Step(s, evs, w, Wake);
    evs', w' := Step(s, evs', w', Swap);
    evs', w' := Step(s, evs', w', Call);
    evs', w' := Step(s, evs', w', Reset);
  }

  ghost predicate CanReach(s: Setting, w: Worker) { exists evs :: After(s, evs) == Some(w) }

  lemma FirstDelivery(s: Setting, first: Bytes) returns (evs: seq<Event>, w: Worker)
    requires s.mode == ASYNC_SAFE && forall p, c :: s.wake(p, c) <==> !p.IsEmpty()
    requires 0 < |first| <= s.growth.bufferSize
    ensures After(s, evs) == Some(w) && w.producer == NewBuf(s.growth) && w.consumer.Valid()
    ensures !w.stop && w.lock == Free && w.pc == LoopTest && w.entered
    ensures w.accepted == [first] && w.batches == [first]
  {
    w := Start(s);
    assert w.producer.Unread() == [] && [] + first == first;
    evs, w := PushWhole(s, [], w, first);
    evs, w := Step(s, evs, w, TestLoop);
    assert w.producer.Unread() == first;
    evs, w := HandOver(s, evs, w);
    assert w.batches == [first];
    evs, w := Step(s, evs, w, TestStop);
  }

  /** Waking on the producers' data instead: `Stop` just before the loop test strands the last message. */
  lemma ProducerGuardStrandsData(s: Setting, first: Bytes, second: Bytes) returns (w: Worker)
    requires s.mode == ASYNC_SAFE && forall p, c :: s.wake(p, c) <==> !p.IsEmpty()
    requires 0 < |first| <= s.growth.bufferSize && 0 < |second| <= s.growth.bufferSize
    ensures CanReach(s, w) && w.pc == Returned && w.entered
    ensures w.accepted == [first, second] && w.batches == [first]
  {
    var evs: seq<Event>;
    evs, w := FirstDelivery(s, first);
    evs, w := PushWhole(s, evs, w, second);
    evs, w := Step(s, evs, w, SetStop);
    evs, w := Step(s, evs, w, TestLoop);
  }

  /** A consumer stopped before any message came, after its hand-over. */
  lemma StoppedIdle(s: Setting) returns (evs: seq<Event>, w: Worker)
    requires AsWritten(s)
    ensures After(s, evs) == Some(w) && w.producer == NewBuf(s.growth) && w.consumer.Valid()
    ensures w.stop && w.lock == Free && w.pc == StopTest && w.entered && w.accepted == [] && w.batches == [[]]
  {
    w := Start(s);
    assert w.producer.Unread() == [];
    evs, w := Step(s, [], w, TestLoop);
    evs, w := Step(s, evs, w, SetStop);
    evs, w := HandOver(s, evs, w);
  }

  /** Where the consumer looks at the producers' buffer without the lock, with a producer in the middle of a write. */
  lemma WriteDuringEmptyTest(s: Setting) returns (evs: seq<Event>, w: Worker)
    requires AsWritten(s) && s.mode == ASYNC_UNSAFE
    ensures After(s, evs) == Some(w) && w.pc == EmptyTest && w.lock.HeldByProducer?
  {
    evs, w := StoppedIdle(s);
    evs, w := Step(s, evs, w, TestStop);
    evs, w := Step(s, evs, w, Enter([]));
  }

  /**
   * The consumer's unlocked look at the producers' buffer never meets a producer mid-write, exactly in ASYNC_SAFE
   * mode.
   */
  lemma EmptyTestIsRaceFree(s: Setting)
    requires AsWritten(s)
    ensures
      (forall evs :: After(s, evs).Some? && After(s, evs).value.pc == EmptyTest ==>
        !After(s, evs).value.lock.HeldByProducer?) <==> s.mode == ASYNC_SAFE
  {
    if s.mode == ASYNC_SAFE {
      forall evs | After(s, evs).Some? && After(s, evs).value.pc == EmptyTest
        ensures !After(s, evs).value.lock.HeldByProducer?
      {
        ShutdownHolds(s, evs);
      }
    } else {
      var evs, w := WriteDuringEmptyTest(s);
      assert After(s, evs).Some?;
    }
  }

  /** In ASYNC_UNSAFE mode `Push` does not look at `stop_`: a message can arrive after the consumer has gone. */
  lemma UnsafeModeAcceptsTooLate(s: Setting, message: Bytes) returns (w: Worker)
    requires s.mode == ASYNC_UNSAFE && AsWritten(s)
    requires message != [] && NewBuf(s.growth).Fits(s.growth, |message|)
    ensures CanReach(s, w) && w.pc == Returned && w.entered
    ensures w.accepted == [message] && Concat(w.batches) == []
  {
    var evs: seq<Event>;
    evs, w := StoppedIdle(s);
    evs, w := Step(s, evs, w, TestStop);
    evs, w := Step(s, evs, w, TestEmpty);
    evs, w := PushWhole(s, evs, w, message);
    assert [] + [message] == [message];
    ConcatSnoc([], []);
    assert [] + [[]] == w.batches;
  }
}
