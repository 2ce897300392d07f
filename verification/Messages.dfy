/** Sequences of log messages, and their grouping into batches and files. */
module Messages {
  import opened Common

  function Concat(ms: seq<Bytes>): Bytes {
    if ms == [] then [] else Concat(ms[..|ms| - 1]) + ms[|ms| - 1]
  }

  function Flatten(groups: seq<seq<Bytes>>): seq<Bytes> {
    if groups == [] then [] else Flatten(groups[..|groups| - 1]) + groups[|groups| - 1]
  }

  lemma ConcatSnoc(ms: seq<Bytes>, m: Bytes)
    ensures Concat(ms + [m]) == Concat(ms) + m
  {
    assert (ms + [m])[..|ms|] == ms;
  }

  lemma FlattenSnoc(groups: seq<seq<Bytes>>, g: seq<Bytes>)
    ensures Flatten(groups + [g]) == Flatten(groups) + g
  {
    assert (groups + [g])[..|groups|] == groups;
  }

  lemma {:induction false} ConcatAppend(a: seq<Bytes>, b: seq<Bytes>)
    ensures Concat(a + b) == Concat(a) + Concat(b)
  {
    if b == [] {
      assert a + b == a;
    } else {
      var front, last := b[..|b| - 1], b[|b| - 1];
      assert a + b == (a + front) + [last];
      ConcatAppend(a, front);
      ConcatSnoc(a + front, last);
      assert front + [last] == b;
      ConcatSnoc(front, last);
    }
  }

  lemma {:induction false} ConcatGroups(groups: seq<seq<Bytes>>, batches: seq<Bytes>)
    requires |groups| == |batches| && forall i :: 0 <= i < |groups| ==> batches[i] == Concat(groups[i])
    ensures Concat(batches) == Concat(Flatten(groups))
  {
    if groups != [] {
      var n := |groups| - 1;
      ConcatGroups(groups[..n], batches[..n]);
      ConcatAppend(Flatten(groups[..n]), groups[n]);
    }
  }

  lemma {:induction false} FlattenCons(g: seq<Bytes>, groups: seq<seq<Bytes>>)
    ensures Flatten([g] + groups) == g + Flatten(groups)
  {
    if groups == [] {
      assert [g] + groups == [] + [g];
      FlattenSnoc([], g);
    } else {
      var front, last := groups[..|groups| - 1], groups[|groups| - 1];
      assert [g] + groups == ([g] + front) + [last];
      FlattenCons(g, front);
      FlattenSnoc([g] + front, last);
      assert (g + Flatten(front)) + last == g + (Flatten(front) + last);
    }
  }
}
