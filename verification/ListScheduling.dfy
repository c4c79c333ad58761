/** Greedy list scheduling: every duration goes, in order, to the worker that is free first.

    `Run` is the schedule on sorted worker slots, to which the program's loop over a heap of
    slots is proved equal. The theorems are the ones the tail-fill comparison rests on. */
module ListScheduling {
  import opened Sorting
  import opened Sums

  datatype ScheduleError = PopFromEmptyHeap | MaximumOfNothing

  predicate Earlier(x: real, y: real) { x <= y }

  /** All workers free at time zero. */
  function Idle(workers: nat): (r: seq<real>)
    ensures |r| == workers
  {
    seq(workers, _ => 0.0)
  }

  /** The first free worker takes a job of duration `d`. Slots are sorted. */
  function Assign(slots: seq<real>, d: real): seq<real>
    requires slots != []
  {
    InsertSorted(slots[0] + d, slots[1..], Earlier)
  }

  function Run(slots: seq<real>, durations: seq<real>): (r: seq<real>)
    requires slots != []
    ensures |r| == |slots|
  {
    if durations == [] then slots
    else
      var n := |durations| - 1;
      var before := Run(slots, durations[..n]);
      InsertSortedPermutes(before[0] + durations[n], before[1..], Earlier);
      Assign(before, durations[n])
  }

  /** When the last worker becomes free. */
  function Span(durations: seq<real>, workers: nat): real
    requires workers >= 1
  {
    Run(Idle(workers), durations)[workers - 1]
  }

  /** When job `k` starts. */
  function Start(durations: seq<real>, workers: nat, k: nat): real
    requires workers >= 1 && k < |durations|
  {
    Run(Idle(workers), durations[..k])[0]
  }

  lemma {:induction false} RunSorted(slots: seq<real>, durations: seq<real>)
    requires slots != [] && SortedBy(slots, Earlier)
    ensures SortedBy(Run(slots, durations), Earlier)
  {
    hide InsertSorted;
    if durations != [] {
      var n := |durations| - 1;
      RunSorted(slots, durations[..n]);
      var before := Run(slots, durations[..n]);
      InsertSortedSorts(before[0] + durations[n], before[1..], Earlier);
    }
  }

  lemma {:induction false} RunConcat(slots: seq<real>, first: seq<real>, second: seq<real>)
    requires slots != []
    ensures Run(slots, first + second) == Run(Run(slots, first), second)
  {
    hide InsertSorted;
    if second == [] {
      assert first + second == first;
    } else {
      var n := |second| - 1;
      RunConcat(slots, first, second[..n]);
      assert (first + second)[..|first| + n] == first + second[..n];
    }
  }

  // ---------- Dominance: the invariant that greedy scheduling keeps ----------

  /** Slot by slot, `a` is free no later than `b`. */
  ghost predicate Dominates(a: seq<real>, b: seq<real>) {
    |a| == |b| && forall i :: 0 <= i < |a| ==> a[i] <= b[i]
  }

  lemma DominatesCons(x: real, a: seq<real>, y: real, b: seq<real>)
    requires x <= y && Dominates(a, b)
    ensures Dominates([x] + a, [y] + b)
  {
  }

  lemma {:induction false} InsertMonotone(x: real, a: seq<real>, y: real, b: seq<real>)
    requires x <= y && Dominates(a, b)
    requires SortedBy(a, Earlier) && SortedBy(b, Earlier)
    ensures Dominates(InsertSorted(x, a, Earlier), InsertSorted(y, b, Earlier))
    decreases |a|
  {
    if a != [] {
      var restA, restB := a[1..], b[1..];
      assert Dominates(restA, restB);
      if x <= a[0] && y <= b[0] {
        DominatesCons(x, a, y, b);
      } else if x <= a[0] {
        InsertFirst(a);
        InsertMonotone(a[0], restA, y, restB);
        DominatesCons(x, a, b[0], InsertSorted(y, restB, Earlier));
      } else if y <= b[0] {
        InsertFirst(b);
        InsertMonotone(x, restA, b[0], restB);
        DominatesCons(a[0], InsertSorted(x, restA, Earlier), y, b);
      } else {
        InsertMonotone(x, restA, y, restB);
        DominatesCons(a[0], InsertSorted(x, restA, Earlier), b[0], InsertSorted(y, restB, Earlier));
      }
    }
  }

  /** Earlier slots and shorter jobs stay ahead over a whole run. */
  lemma {:induction false} RunMonotone(a: seq<real>, shorter: seq<real>, b: seq<real>, longer: seq<real>)
    requires a != [] && Dominates(a, b) && Dominates(shorter, longer)
    requires SortedBy(a, Earlier) && SortedBy(b, Earlier)
    ensures Dominates(Run(a, shorter), Run(b, longer))
  {
    hide InsertSorted;
    if shorter != [] {
      var n := |shorter| - 1;
      RunMonotone(a, shorter[..n], b, longer[..n]);
      RunSorted(a, shorter[..n]);
      RunSorted(b, longer[..n]);
      var p, q := Run(a, shorter[..n]), Run(b, longer[..n]);
      InsertMonotone(p[0] + shorter[n], p[1..], q[0] + longer[n], q[1..]);
    }
  }

  function Shift(s: seq<real>, offset: real): (r: seq<real>)
    ensures |r| == |s|
  {
    seq(|s|, i requires 0 <= i < |s| => s[i] + offset)
  }

  lemma {:induction false} InsertShift(x: real, s: seq<real>, offset: real)
    ensures InsertSorted(x + offset, Shift(s, offset), Earlier) == Shift(InsertSorted(x, s, Earlier), offset)
  {
    if s == [] {
    } else if x <= s[0] {
      assert [x + offset] + Shift(s, offset) == Shift([x] + s, offset);
    } else {
      InsertShift(x, s[1..], offset);
      assert Shift(s, offset)[1..] == Shift(s[1..], offset);
      assert [s[0] + offset] + Shift(InsertSorted(x, s[1..], Earlier), offset)
          == Shift([s[0]] + InsertSorted(x, s[1..], Earlier), offset);
    }
  }

  /** Starting every worker later only moves the schedule. */
  lemma {:induction false} RunShift(slots: seq<real>, offset: real, durations: seq<real>)
    requires slots != []
    ensures Run(Shift(slots, offset), durations) == Shift(Run(slots, durations), offset)
  {
    hide InsertSorted;
    if durations != [] {
      var n := |durations| - 1;
      RunShift(slots, offset, durations[..n]);
      var before := Run(slots, durations[..n]);
      InsertShift(before[0] + durations[n], before[1..], offset);
      assert Shift(before, offset)[1..] == Shift(before[1..], offset);
      assert before[0] + offset + durations[n] == before[0] + durations[n] + offset;
    }
  }

  /** Tail filling: running two blocks merged is never slower than one after the other. */
  lemma TailFillNeverWorse(primary: seq<real>, successor: seq<real>, workers: nat)
    requires workers >= 1
    ensures Span(primary + successor, workers) <= Span(primary, workers) + Span(successor, workers)
  {
    hide InsertSorted;
    var idle, span := Idle(workers), Span(primary, workers);
    var after := Run(idle, primary);
    RunConcat(idle, primary, successor);
    RunSorted(idle, primary);
    forall i | 0 <= i < workers
      ensures after[i] <= span
    {
      assert i < workers - 1 ==> Earlier(after[i], after[workers - 1]);
    }
    RunMonotone(after, successor, Shift(idle, span), successor);
    RunShift(idle, span, successor);
  }

  /** Merged, neither block finishes before it would have finished alone. */
  lemma TailFillNoFreeLunch(primary: seq<real>, successor: seq<real>, workers: nat)
    requires workers >= 1 && NonNegative(primary) && NonNegative(successor)
    ensures Span(primary, workers) <= Span(primary + successor, workers)
    ensures Span(successor, workers) <= Span(primary + successor, workers)
  {
    hide InsertSorted;
    var idle := Idle(workers);
    RunConcat(idle, primary, successor);
    RunSorted(idle, primary);
    RunNeverEarlier(idle, primary);
    RunMonotone(idle, successor, Run(idle, primary), successor);
    RunNeverEarlier(Run(idle, primary), successor);
  }

  lemma InsertFirst(s: seq<real>)
    requires s != [] && SortedBy(s, Earlier)
    ensures InsertSorted(s[0], s[1..], Earlier) == s
  {
    assert |s| > 1 ==> Earlier(s[0], s[1]);
  }

  lemma {:induction false} RunNeverEarlier(slots: seq<real>, durations: seq<real>)
    requires slots != [] && SortedBy(slots, Earlier) && NonNegative(durations)
    ensures Dominates(slots, Run(slots, durations))
  {
    hide InsertSorted;
    if durations != [] {
      var n := |durations| - 1;
      RunNeverEarlier(slots, durations[..n]);
      RunSorted(slots, durations[..n]);
      var before := Run(slots, durations[..n]);
      InsertMonotone(before[0], before[1..], before[0] + durations[n], before[1..]);
      InsertFirst(before);
    }
  }

  // ---------- No anomalies ----------

  lemma AssignExtraWorkerAhead(more: seq<real>, fewer: seq<real>, d: real)
    requires fewer != [] && |more| == |fewer| + 1 && d >= 0.0
    requires SortedBy(more, Earlier) && SortedBy(fewer, Earlier)
    requires Dominates(more[1..], fewer)
    ensures Dominates(Assign(more, d)[1..], Assign(fewer, d))
  {
    var tail, x := more[1..], more[0] + d;
    assert Earlier(more[0], more[1]);
    assert SortedBy(tail, Earlier) && SortedBy(tail[1..], Earlier);
    if x <= tail[0] {
      InsertFirst(tail);
      assert InsertSorted(x, tail, Earlier) == [x] + tail;
      InsertMonotone(tail[0], tail[1..], fewer[0] + d, fewer[1..]);
    } else {
      assert InsertSorted(x, tail, Earlier) == [tail[0]] + InsertSorted(x, tail[1..], Earlier);
      InsertMonotone(x, tail[1..], fewer[0] + d, fewer[1..]);
    }
  }

  /** One more worker: without its earliest slot, the larger pool still dominates the smaller one. */
  lemma {:induction false} ExtraWorkerAhead(durations: seq<real>, workers: nat)
    requires workers >= 1 && NonNegative(durations)
    ensures Dominates(Run(Idle(workers + 1), durations)[1..], Run(Idle(workers), durations))
  {
    hide InsertSorted;
    if durations != [] {
      var n := |durations| - 1;
      ExtraWorkerAhead(durations[..n], workers);
      RunSorted(Idle(workers + 1), durations[..n]);
      RunSorted(Idle(workers), durations[..n]);
      AssignExtraWorkerAhead(Run(Idle(workers + 1), durations[..n]),
                             Run(Idle(workers), durations[..n]), durations[n]);
    }
  }

  lemma {:induction false} MoreWorkersNeverHurt(durations: seq<real>, more: nat, fewer: nat)
    requires 1 <= fewer <= more && NonNegative(durations)
    ensures Span(durations, more) <= Span(durations, fewer)
    ensures forall k :: 0 <= k < |durations| ==> Start(durations, more, k) <= Start(durations, fewer, k)
    decreases more
  {
    hide InsertSorted;
    if fewer < more {
      MoreWorkersNeverHurt(durations, more - 1, fewer);
      ExtraWorkerAhead(durations, more - 1);
      forall k | 0 <= k < |durations|
        ensures Start(durations, more, k) <= Start(durations, more - 1, k)
      {
        ExtraWorkerAhead(durations[..k], more - 1);
        RunSorted(Idle(more), durations[..k]);
        var slots := Run(Idle(more), durations[..k]);
        assert Earlier(slots[0], slots[1]);
      }
    }
  }

  /** Greedy scheduling in a fixed order has no anomalies: with more workers and shorter jobs,
      no job starts later and the schedule is no longer. */
  lemma NoAnomalies(shorter: seq<real>, longer: seq<real>, more: nat, fewer: nat)
    requires 1 <= fewer <= more && NonNegative(longer) && Dominates(shorter, longer)
    ensures Span(shorter, more) <= Span(longer, fewer)
    ensures forall k :: 0 <= k < |longer| ==> Start(shorter, more, k) <= Start(longer, fewer, k)
  {
    hide InsertSorted;
    MoreWorkersNeverHurt(longer, more, fewer);
    RunMonotone(Idle(more), shorter, Idle(more), longer);
    forall k | 0 <= k < |longer|
      ensures Start(shorter, more, k) <= Start(longer, more, k)
    {
      RunMonotone(Idle(more), shorter[..k], Idle(more), longer[..k]);
    }
  }
}
