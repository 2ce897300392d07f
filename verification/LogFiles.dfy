/** What the rolled files hold after any sequence of batches, and end to end from `Push` to disk. */
module LogFiles {
  import opened Common
  import opened Messages
  import opened LogFlush
  import opened AsyncWorker
  import WorkerLaws

  /** A new sink after a sequence of flushes, each at its own clock reading. */
  function FlushAll(cfg: SinkConfig, disk: map<Bytes, Bytes>, batches: seq<Bytes>, times: seq<Time>): (s: Sink)
    requires |batches| == |times|
    ensures Writable(s)
  {
    if batches == [] then NewSink(disk)
    else
      var n := |batches| - 1;
      Flushed(cfg, FlushAll(cfg, disk, batches[..n], times[..n]), batches[n], times[n])
  }

  function Size(batches: seq<Bytes>): nat { |Concat(batches)| }

  /** A file takes its first batch in any case, and another one only below `max`. */
  predicate NotFullBeforeLast(group: seq<Bytes>, max: nat) {
    group != [] && (|group| > 1 ==> Size(group[..|group| - 1]) < max)
  }

  /** How a log is cut into files: every file but the last is full, and none was full before its last batch. */
  predicate Rolled(groups: seq<seq<Bytes>>, max: nat) {
    && (forall i :: 0 <= i < |groups| ==> NotFullBeforeLast(groups[i], max))
    && (forall i :: 0 <= i < |groups| - 1 ==> Size(groups[i]) >= max)
  }

  // ---- Names ----

  /** The names opened so far, each built from its own counter. */
  predicate Numbered(cfg: SinkConfig, names: seq<Bytes>, stamps: seq<Time>) {
    |names| == |stamps| && forall i :: 0 <= i < |names| ==> names[i] == cfg.name(stamps[i], i + 1)
  }

  ghost predicate Named(cfg: SinkConfig, s: Sink, stamps: seq<Time>) {
    NamesDiffer(cfg) && Numbered(cfg, s.names, stamps) && s.cnt == |s.names| + 1
  }

  // ---- One flush ----

  function Before(disk: map<Bytes, Bytes>, name: Bytes): Bytes {
    if name in disk then disk[name] else []
  }

  /** Each opened file holds its group on top of what was there; no other file changed. */
  ghost predicate OnDisk(disk: map<Bytes, Bytes>, s: Sink, groups: seq<seq<Bytes>>) {
    && |s.names| == |groups|
    && (forall i :: 0 <= i < |groups| ==> FileHolds(disk, s, i, groups[i]))
    && (forall name :: name !in s.names ==> Before(s.disk, name) == Before(disk, name))
  }

  predicate FileHolds(disk: map<Bytes, Bytes>, s: Sink, i: nat, group: seq<Bytes>) {
    i < |s.names| && s.names[i] in s.disk && s.disk[s.names[i]] == Before(disk, s.names[i]) + Concat(group)
  }

  /** The open file is that of the last group, and `cur_size_` its size. */
  predicate Current(s: Sink, groups: seq<seq<Bytes>>) {
    if groups == [] then s.file.None? && s.names == []
    else |s.names| == |groups| && s.file == Some(s.names[|groups| - 1]) && s.curSize == Size(groups[|groups| - 1])
  }

  /** The files' contents, in batches, after one more flush. */
  function Regrouped(cfg: SinkConfig, s: Sink, groups: seq<seq<Bytes>>, data: Bytes): seq<seq<Bytes>> {
    if MustOpen(cfg, s) || groups == [] then groups + [[data]]
    else groups[..|groups| - 1] + [groups[|groups| - 1] + [data]]
  }

  lemma ConcatOne(data: Bytes)
    ensures Concat([data]) == data && Concat([]) == []
  {
    ConcatSnoc([], data);
    assert [] + [data] == [data] && [] + data == data;
  }

  lemma RolledOpen(groups: seq<seq<Bytes>>, data: Bytes, max: nat)
    requires Rolled(groups, max) && (groups != [] ==> Size(groups[|groups| - 1]) >= max)
    ensures Rolled(groups + [[data]], max)
  {
    ConcatOne(data);
    assert [data][..0] == [];
  }

  lemma RolledAppend(groups: seq<seq<Bytes>>, data: Bytes, max: nat)
    requires groups != [] && Rolled(groups, max) && Size(groups[|groups| - 1]) < max
    ensures Rolled(groups[..|groups| - 1] + [groups[|groups| - 1] + [data]], max)
  {
    var last := groups[|groups| - 1];
    assert (last + [data])[..|last|] == last;
  }

  lemma RegroupedFlatten(cfg: SinkConfig, s: Sink, groups: seq<seq<Bytes>>, data: Bytes)
    ensures Flatten(Regrouped(cfg, s, groups, data)) == Flatten(groups) + [data]
  {
    if MustOpen(cfg, s) || groups == [] {
      FlattenSnoc(groups, [data]);
    } else {
      var front, last := groups[..|groups| - 1], groups[|groups| - 1];
      FlattenSnoc(front, last + [data]);
      assert groups == front + [last];
      FlattenSnoc(front, last);
    }
  }

  /** The batch that opens a file under a name not used before. */
  lemma DiskOpen(disk: map<Bytes, Bytes>, s: Sink, groups: seq<seq<Bytes>>, name: Bytes, data: Bytes, s': Sink)
    requires OnDisk(disk, s, groups) && name !in s.names
    requires s'.names == s.names + [name] && s'.disk == s.disk[name := Before(s.disk, name) + data]
    ensures OnDisk(disk, s', groups + [[data]])
  {
    ConcatOne(data);
    forall i | 0 <= i < |groups| + 1 ensures FileHolds(disk, s', i, (groups + [[data]])[i]) {
      if i < |groups| {
        assert FileHolds(disk, s, i, groups[i]) && s'.names[i] == s.names[i];
      }
    }
    forall other | other !in s'.names ensures Before(s'.disk, other) == Before(disk, other) {
      assert name in s'.names && other !in s.names;
    }
  }

  /** The batch that goes into the open file. */
  lemma DiskAppend(disk: map<Bytes, Bytes>, s: Sink, groups: seq<seq<Bytes>>, data: Bytes, s': Sink)
    requires OnDisk(disk, s, groups) && groups != []
    requires Distinct(s.names)
    requires
      var name := s.names[|groups| - 1];
      name in s.disk && s'.names == s.names && s'.disk == s.disk[name := s.disk[name] + data]
    ensures OnDisk(disk, s', groups[..|groups| - 1] + [groups[|groups| - 1] + [data]])
  {
    var n := |groups| - 1;
    var name, last := s.names[n], groups[n] + [data];
    forall i | 0 <= i < n ensures FileHolds(disk, s', i, groups[i]) {
      assert FileHolds(disk, s, i, groups[i]) && s.names[i] != name;
    }
    assert FileHolds(disk, s', n, last) by {
      assert FileHolds(disk, s, n, groups[n]);
      ConcatSnoc(groups[n], data);
      assert Before(disk, name) + Concat(groups[n]) + data == Before(disk, name) + (Concat(groups[n]) + data);
    }
    assert forall other :: other !in s'.names ==> Before(s'.disk, other) == Before(s.disk, other) by {
      assert name in s.names;
    }
  }

  lemma FlushKeepsRolling(
    cfg: SinkConfig, s: Sink, s': Sink, groups: seq<seq<Bytes>>, groups': seq<seq<Bytes>>, data: Bytes, now: Time)
    requires Writable(s) && Rolled(groups, cfg.maxSize) && Current(s, groups)
    requires s' == Flushed(cfg, s, data, now) && groups' == Regrouped(cfg, s, groups, data)
    ensures Rolled(groups', cfg.maxSize) && Current(s', groups')
  {
    if MustOpen(cfg, s) {
      RolledOpen(groups, data, cfg.maxSize);
      ConcatOne(data);
    } else {
      RolledAppend(groups, data, cfg.maxSize);
      ConcatSnoc(groups[|groups| - 1], data);
    }
  }

  lemma FlushKeepsNames(cfg: SinkConfig, s: Sink, stamps: seq<Time>, data: Bytes, now: Time)
    requires Writable(s) && Named(cfg, s, stamps)
    ensures Named(cfg, Flushed(cfg, s, data, now), if MustOpen(cfg, s) then stamps + [now] else stamps)
  {
  }

  lemma FlushKeepsDisk(
    cfg: SinkConfig, disk: map<Bytes, Bytes>, s: Sink, groups: seq<seq<Bytes>>, stamps: seq<Time>,
    data: Bytes, now: Time)
    requires Writable(s) && OnDisk(disk, s, groups) && Current(s, groups) && Named(cfg, s, stamps)
    ensures OnDisk(disk, Flushed(cfg, s, data, now), Regrouped(cfg, s, groups, data))
  {
    var s' := Flushed(cfg, s, data, now);
    if MustOpen(cfg, s) {
      var name := cfg.name(now, s.cnt);
      assert s'.disk == s.disk[name := Before(s.disk, name) + data];
      DiskOpen(disk, s, groups, name, data, s');
    } else {
      DiskAppend(disk, s, groups, data, s');
    }
  }

  // ---- Whole logs ----

  /** How `FlushAll` divides the batches over its files. */
  function Groups(cfg: SinkConfig, disk: map<Bytes, Bytes>, batches: seq<Bytes>, times: seq<Time>): seq<seq<Bytes>>
    requires |batches| == |times|
  {
    if batches == [] then []
    else
      var n := |batches| - 1;
      var before := FlushAll(cfg, disk, batches[..n], times[..n]);
      Regrouped(cfg, before, Groups(cfg, disk, batches[..n], times[..n]), batches[n])
  }

  lemma {:induction false} GroupsHoldBatches(
    cfg: SinkConfig, disk: map<Bytes, Bytes>, batches: seq<Bytes>, times: seq<Time>)
    requires |batches| == |times|
    ensures Flatten(Groups(cfg, disk, batches, times)) == batches
  {
    if batches != [] {
      var n := |batches| - 1;
      GroupsHoldBatches(cfg, disk, batches[..n], times[..n]);
      var before, groups := FlushAll(cfg, disk, batches[..n], times[..n]), Groups(cfg, disk, batches[..n], times[..n]);
      RegroupedFlatten(cfg, before, groups, batches[n]);
    }
  }

  lemma {:induction false} FlushAllRolls(
    cfg: SinkConfig, disk: map<Bytes, Bytes>, batches: seq<Bytes>, times: seq<Time>)
    requires |batches| == |times|
    ensures Rolled(Groups(cfg, disk, batches, times), cfg.maxSize)
    ensures Current(FlushAll(cfg, disk, batches, times), Groups(cfg, disk, batches, times))
  {
    if batches != [] {
      var n := |batches| - 1;
      var before, groups := FlushAll(cfg, disk, batches[..n], times[..n]), Groups(cfg, disk, batches[..n], times[..n]);
      var s, groups' := FlushAll(cfg, disk, batches, times), Groups(cfg, disk, batches, times);
      FlushAllRolls(cfg, disk, batches[..n], times[..n]);
      FlushKeepsRolling(cfg, before, s, groups, groups', batches[n], times[n]);
    }
  }

  lemma {:induction false} FlushAllNames(
    cfg: SinkConfig, disk: map<Bytes, Bytes>, batches: seq<Bytes>, times: seq<Time>)
    returns (stamps: seq<Time>)
    requires NamesDiffer(cfg) && |batches| == |times|
    ensures Named(cfg, FlushAll(cfg, disk, batches, times), stamps)
  {
    stamps := [];
    if batches != [] {
      var n := |batches| - 1;
      var before := FlushAll(cfg, disk, batches[..n], times[..n]);
      stamps := FlushAllNames(cfg, disk, batches[..n], times[..n]);
      FlushKeepsNames(cfg, before, stamps, batches[n], times[n]);
      stamps := if MustOpen(cfg, before) then stamps + [times[n]] else stamps;
    }
  }

  lemma {:induction false} FlushAllOnDisk(
    cfg: SinkConfig, disk: map<Bytes, Bytes>, batches: seq<Bytes>, times: seq<Time>)
    requires NamesDiffer(cfg) && |batches| == |times|
    ensures OnDisk(disk, FlushAll(cfg, disk, batches, times), Groups(cfg, disk, batches, times))
  {
    if batches != [] {
      var n := |batches| - 1;
      var before, groups := FlushAll(cfg, disk, batches[..n], times[..n]), Groups(cfg, disk, batches[..n], times[..n]);
      FlushAllOnDisk(cfg, disk, batches[..n], times[..n]);
      FlushAllRolls(cfg, disk, batches[..n], times[..n]);
      var stamps := FlushAllNames(cfg, disk, batches[..n], times[..n]);
      FlushKeepsDisk(cfg, disk, before, groups, stamps, batches[n], times[n]);
    }
  }

  lemma FlushAllHolds(cfg: SinkConfig, disk: map<Bytes, Bytes>, batches: seq<Bytes>, times: seq<Time>)
    returns (groups: seq<seq<Bytes>>, stamps: seq<Time>)
    requires NamesDiffer(cfg) && |batches| == |times|
    ensures Rolled(groups, cfg.maxSize) && Flatten(groups) == batches
    ensures OnDisk(disk, FlushAll(cfg, disk, batches, times), groups)
    ensures Named(cfg, FlushAll(cfg, disk, batches, times), stamps)
  {
    groups := Groups(cfg, disk, batches, times);
    stamps := FlushAllNames(cfg, disk, batches, times);
    GroupsHoldBatches(cfg, disk, batches, times);
    FlushAllRolls(cfg, disk, batches, times);
    FlushAllOnDisk(cfg, disk, batches, times);
  }

  /** What a sink appended to the `i`-th file it opened. */
  function Appended(disk: map<Bytes, Bytes>, s: Sink, i: nat): Bytes
    requires i < |s.names|
  {
    var before, after := Before(disk, s.names[i]), Before(s.disk, s.names[i]);
    if |before| <= |after| then after[|before|..] else []
  }

  function Log(disk: map<Bytes, Bytes>, s: Sink): seq<Bytes> {
    seq(|s.names|, i requires 0 <= i < |s.names| => Appended(disk, s, i))
  }

  /**
   * No file name repeats, the files in the order of their creation hold the batches divided by `groups`, and
   * nothing else changed.
   */
  ghost predicate HoldsTheLog(
    disk: map<Bytes, Bytes>, s: Sink, groups: seq<seq<Bytes>>, batches: seq<Bytes>, maxSize: nat) {
    && Distinct(s.names)
    && |groups| == |s.names| && Flatten(groups) == batches && Rolled(groups, maxSize)
    && (forall i :: 0 <= i < |groups| ==> Log(disk, s)[i] == Concat(groups[i]))
    && Concat(Log(disk, s)) == Concat(batches)
    && (forall name :: name !in s.names ==> Before(s.disk, name) == Before(disk, name))
  }

  /**
   * For every sequence of batches: no file name repeats, the files in the order of their creation hold
   * exactly the log, and every closed file reached the maximum size only with its last batch.
   */
  lemma RolledFilesHoldTheLog(
    basename: Bytes, maxSize: nat, disk: map<Bytes, Bytes>, batches: seq<Bytes>, times: seq<Time>)
    returns (groups: seq<seq<Bytes>>)
    requires |batches| == |times|
    ensures HoldsTheLog(disk, FlushAll(RollConfig(basename, maxSize), disk, batches, times), groups, batches, maxSize)
  {
    LogFileNamesDiffer(basename, maxSize);
    groups := DistinctFilesHoldTheLog(RollConfig(basename, maxSize), disk, batches, times);
  }

  lemma DistinctFilesHoldTheLog(cfg: SinkConfig, disk: map<Bytes, Bytes>, batches: seq<Bytes>, times: seq<Time>)
    returns (groups: seq<seq<Bytes>>)
    requires NamesDiffer(cfg) && |batches| == |times|
    ensures HoldsTheLog(disk, FlushAll(cfg, disk, batches, times), groups, batches, cfg.maxSize)
  {
    var s := FlushAll(cfg, disk, batches, times);
    var stamps;
    groups, stamps := FlushAllHolds(cfg, disk, batches, times);
    LogOfGroups(disk, s, groups);
    ConcatGroups(groups, Log(disk, s));
  }

  lemma LogOfGroups(disk: map<Bytes, Bytes>, s: Sink, groups: seq<seq<Bytes>>)
    requires OnDisk(disk, s, groups)
    ensures forall i :: 0 <= i < |groups| ==> Log(disk, s)[i] == Concat(groups[i])
  {
    forall i | 0 <= i < |groups| ensures Log(disk, s)[i] == Concat(groups[i]) {
      assert FileHolds(disk, s, i, groups[i]);
    }
  }

  // ---- There is only one way to roll ----

  lemma {:induction false} SizePrefix(group: seq<Bytes>, k: nat)
    requires k <= |group|
    ensures Size(group[..k]) <= Size(group)
  {
    if k < |group| {
      SizePrefix(group[..|group| - 1], k);
      assert group[..|group| - 1][..k] == group[..k];
    } else {
      assert group[..k] == group;
    }
  }

  /** A full group cannot be a proper prefix of one that is not full before its last batch. */
  lemma NoShorter(a: seq<Bytes>, b: seq<Bytes>, max: nat)
    requires 0 < |a| < |b| && a == b[..|a|] && NotFullBeforeLast(b, max)
    ensures Size(a) < max
  {
    var front := b[..|b| - 1];
    assert front[..|a|] == a;
    SizePrefix(front, |a|);
  }

  /** There is only one way to divide the same batches. */
  lemma {:induction false} RollingIsUnique(g: seq<seq<Bytes>>, h: seq<seq<Bytes>>, max: nat)
    requires Rolled(g, max) && Rolled(h, max) && Flatten(g) == Flatten(h)
    ensures g == h
  {
    EmptyFlatten(g, max);
    EmptyFlatten(h, max);
    if g != [] {
      SameFirst(g, h, max);
      RollingIsUnique(g[1..], h[1..], max);
      Rejoin(g, h);
    }
  }

  lemma SameFirst(g: seq<seq<Bytes>>, h: seq<seq<Bytes>>, max: nat)
    requires g != [] && h != [] && Rolled(g, max) && Rolled(h, max) && Flatten(g) == Flatten(h)
    ensures g[0] == h[0] && Flatten(g[1..]) == Flatten(h[1..])
    ensures Rolled(g[1..], max) && Rolled(h[1..], max)
  {
    FirstGroupNoShorter(g, h, max);
    FirstGroupNoShorter(h, g, max);
    CutFirst(g);
    CutFirst(h);
  }

  lemma CutFirst(g: seq<seq<Bytes>>)
    requires g != []
    ensures |g[0]| <= |Flatten(g)| && g[0] == Flatten(g)[..|g[0]|] && Flatten(g[1..]) == Flatten(g)[|g[0]|..]
  {
    assert g == [g[0]] + g[1..];
    FlattenCons(g[0], g[1..]);
  }

  lemma Rejoin(g: seq<seq<Bytes>>, h: seq<seq<Bytes>>)
    requires g != [] && h != [] && g[0] == h[0] && g[1..] == h[1..]
    ensures g == h
  {
    assert g == [g[0]] + g[1..] && h == [h[0]] + h[1..];
  }

  lemma EmptyFlatten(g: seq<seq<Bytes>>, max: nat)
    requires Rolled(g, max)
    ensures Flatten(g) == [] <==> g == []
  {
    if g != [] {
      assert NotFullBeforeLast(g[|g| - 1], max);
    }
  }

  lemma FirstGroupNoShorter(g: seq<seq<Bytes>>, h: seq<seq<Bytes>>, max: nat)
    requires g != [] && h != [] && Rolled(g, max) && Rolled(h, max) && Flatten(g) == Flatten(h)
    ensures |g[0]| >= |h[0]|
  {
    var a, b, all := g[0], h[0], Flatten(g);
    CutFirst(g);
    CutFirst(h);
    if |a| < |b| {
      assert NotFullBeforeLast(a, max) && NotFullBeforeLast(b, max);
      assert a == b[..|a|] by { assert all[..|b|][..|a|] == all[..|a|]; }
      NoShorter(a, b, max);
      OnlyGroup(g);
      assert false;
    }
  }

  lemma OnlyGroup(g: seq<seq<Bytes>>)
    requires g != []
    ensures |g| == 1 ==> Flatten(g) == g[0]
  {
    if |g| == 1 {
      assert g == [] + [g[0]];
      FlattenSnoc([], g[0]);
    }
  }

  // ---- End to end ----

  /**
   * The consumer was stopped in a way that loses nothing: in ASYNC_SAFE mode, or with every `Push` over before
   * `Stop`.
   */
  ghost predicate StoppedInOrder(s: Setting, evs: seq<Event>, w: Worker) {
    WorkerLaws.AsWritten(s) && w.entered && (s.mode == ASYNC_SAFE || WorkerLaws.Quiet(evs))
  }

  /** What was delivered when the consumer has returned. */
  lemma AcceptedMessagesAreDelivered(s: Setting, evs: seq<Event>)
    requires WorkerLaws.After(s, evs).Some? && WorkerLaws.After(s, evs).value.pc == Returned
    ensures
      var w := WorkerLaws.After(s, evs).value;
      && (Concat(w.batches) == Concat(w.accepted) <==> WorkerLaws.NoneStranded(s, evs))
      && (StoppedInOrder(s, evs, w) ==> Concat(w.batches) == Concat(w.accepted))
  {
    var w := WorkerLaws.After(s, evs).value;
    WorkerLaws.LeftBehind(s, evs);
    if StoppedInOrder(s, evs, w) {
      if s.mode == ASYNC_SAFE {
        WorkerLaws.ShutdownComplete(s, evs);
      } else {
        WorkerLaws.CompleteWhenQuiet(s, evs);
      }
    }
  }

  /**
   * Once the consumer has returned, the files hold exactly the accepted messages, in order, exactly if every
   * message that is not empty was followed by a hand-over; so in particular after an orderly stop.
   */
  lemma AcceptedMessagesReachTheFiles(
    s: Setting, evs: seq<Event>, basename: Bytes, maxSize: nat, disk: map<Bytes, Bytes>, times: seq<Time>)
    requires WorkerLaws.After(s, evs).Some?
    requires
      var w := WorkerLaws.After(s, evs).value;
      w.pc == Returned && |times| == |w.batches|
    ensures
      var w := WorkerLaws.After(s, evs).value;
      var log := Concat(Log(disk, FlushAll(RollConfig(basename, maxSize), disk, w.batches, times)));
      && (log == Concat(w.accepted) <==> WorkerLaws.NoneStranded(s, evs))
      && (StoppedInOrder(s, evs, w) ==> log == Concat(w.accepted))
  {
    AcceptedMessagesAreDelivered(s, evs);
    var groups := RolledFilesHoldTheLog(basename, maxSize, disk, WorkerLaws.After(s, evs).value.batches, times);
  }
}
