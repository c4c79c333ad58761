/** The tail-fill benchmark: the scheduling loop over a heap of worker slots, and the
    comparison of two blocks run serially with the same blocks merged. */
module TailFill {
  import opened Results
  import opened Sorting
  import opened Sums
  import opened ListScheduling
  import opened GrahamBound
  import opened IdleTail
  import opened EqualBlocks

  ghost predicate IsEarliest(time: real, times: multiset<real>) {
    time in times && forall x :: x in times ==> time <= x
  }

  ghost predicate IsLatest(time: real, times: multiset<real>) {
    time in times && forall x :: x in times ==> x <= time
  }

  /** Taking out one slot that is no later than any other. */
  lemma RemoveOne(slots: seq<real>, at: nat)
    requires at < |slots| && forall j :: 0 <= j < |slots| ==> slots[at] <= slots[j]
    ensures IsEarliest(slots[at], multiset(slots))
    ensures multiset(slots[..at] + slots[at + 1..]) == multiset(slots) - multiset{slots[at]}
  {
    assert slots == slots[..at] + [slots[at]] + slots[at + 1..];
  }

  /** The heap of slot times. Only the order of removal is promised, not the layout. */
  class SlotHeap {
    var slots: seq<real>

    ghost function Times(): multiset<real>
      reads this
    {
      multiset(slots)
    }

    constructor (workers: nat)
      ensures Times() == multiset(Idle(workers)) && |slots| == workers
    {
      slots := Idle(workers);
    }

    method Pop() returns (earliest: real)
      requires slots != []
      modifies this
      ensures IsEarliest(earliest, old(Times()))
      ensures Times() == old(Times()) - multiset{earliest} && |slots| == |old(slots)| - 1
    {
      var at := 0;
      for i := 1 to |slots|
        invariant at < |slots|
        invariant forall j :: 0 <= j < i ==> slots[at] <= slots[j]
      {
        if slots[i] < slots[at] {
          at := i;
        }
      }
      earliest := slots[at];
      RemoveOne(slots, at);
      slots := slots[..at] + slots[at + 1..];
    }

    method Push(time: real)
      modifies this
      ensures Times() == old(Times()) + multiset{time} && |slots| == |old(slots)| + 1
    {
      slots := slots + [time];
    }

    method Latest() returns (latest: real)
      requires slots != []
      ensures IsLatest(latest, Times())
    {
      latest := slots[0];
      for i := 1 to |slots|
        invariant latest in slots
        invariant forall j :: 0 <= j < i ==> slots[j] <= latest
      {
        if latest < slots[i] {
          latest := slots[i];
        }
      }
    }
  }

  lemma EarliestIsFirst(slots: seq<real>, earliest: real)
    requires slots != [] && SortedBy(slots, Earlier) && IsEarliest(earliest, multiset(slots))
    ensures earliest == slots[0]
  {
    assert slots[0] in multiset(slots);
    var i :| 0 <= i < |slots| && slots[i] == earliest;
    assert i > 0 ==> Earlier(slots[0], slots[i]);
  }

  lemma LatestIsLast(slots: seq<real>, latest: real)
    requires slots != [] && SortedBy(slots, Earlier) && IsLatest(latest, multiset(slots))
    ensures latest == slots[|slots| - 1]
  {
    var last := |slots| - 1;
    assert slots[last] in multiset(slots);
    var i :| 0 <= i < |slots| && slots[i] == latest;
    assert i < last ==> Earlier(slots[i], slots[last]);
  }

  lemma AssignReplacesEarliest(slots: seq<real>, d: real)
    requires slots != []
    ensures multiset(Assign(slots, d)) == multiset(slots) - multiset{slots[0]} + multiset{slots[0] + d}
  {
    hide InsertSorted;
    var rest := slots[1..];
    assert slots == [slots[0]] + rest;
    InsertSortedPermutes(slots[0] + d, rest, Earlier);
  }

  /** The times held after the first `k` jobs. */
  ghost function HeldTimes(durations: seq<real>, workers: nat, k: nat): multiset<real>
    requires workers >= 1 && k <= |durations|
  {
    multiset(Run(Idle(workers), durations[..k]))
  }

  lemma HeldAtStart(durations: seq<real>, workers: nat)
    requires workers >= 1
    ensures HeldTimes(durations, workers, 0) == multiset(Idle(workers))
  {
    assert durations[..0] == [];
  }

  /** Popping the earliest slot and pushing the job's end is one step of the schedule. */
  lemma HeldAfterJob(durations: seq<real>, workers: nat, k: nat, earliest: real)
    requires workers >= 1 && k < |durations| && IsEarliest(earliest, HeldTimes(durations, workers, k))
    ensures HeldTimes(durations, workers, k + 1)
         == HeldTimes(durations, workers, k) - multiset{earliest} + multiset{earliest + durations[k]}
  {
    hide InsertSorted;
    var slots := Run(Idle(workers), durations[..k]);
    RunSorted(Idle(workers), durations[..k]);
    EarliestIsFirst(slots, earliest);
    AssignReplacesEarliest(slots, durations[k]);
    assert durations[..k + 1][..k] == durations[..k];
  }

  lemma HeldAtEnd(durations: seq<real>, workers: nat, latest: real)
    requires workers >= 1 && IsLatest(latest, HeldTimes(durations, workers, |durations|))
    ensures latest == Span(durations, workers)
  {
    assert durations[..|durations|] == durations;
    RunSorted(Idle(workers), durations);
    LatestIsLast(Run(Idle(workers), durations), latest);
  }

  method Makespan(durations: seq<real>, workers: int) returns (r: Result<real, ScheduleError>)
    ensures workers >= 1 ==> r == Success(Span(durations, workers))
    ensures workers < 1 ==> r == Failure(if durations == [] then MaximumOfNothing else PopFromEmptyHeap)
  {
    hide *;
    var heap := new SlotHeap(if workers < 0 then 0 else workers);
    if workers >= 1 {
      HeldAtStart(durations, workers);
    }
    for k := 0 to |durations|
      invariant |heap.slots| == if workers < 0 then 0 else workers
      invariant workers < 1 ==> k == 0
      invariant workers >= 1 ==> heap.Times() == HeldTimes(durations, workers, k)
    {
      if heap.slots == [] {
        return Failure(PopFromEmptyHeap);
      }
      var started := heap.Pop();
      heap.Push(started + durations[k]);
      HeldAfterJob(durations, workers, k, started);
    }
    if heap.slots == [] {
      return Failure(MaximumOfNothing);
    }
    var latest := heap.Latest();
    HeldAtEnd(durations, workers, latest);
    r := Success(latest);
  }

  datatype BenchmarkError = NotScheduled(error: ScheduleError) | DivisionByZero

  datatype Comparison = Comparison(
    singleBlockMinutes: real,
    tailFillMinutes: real,
    improvementPercent: real)

  /** The comparison of two blocks of cells, whatever their durations. */
  method Compare(primary: seq<real>, successor: seq<real>, workers: int) returns (r: Result<Comparison, BenchmarkError>)
    requires NonNegative(primary) && NonNegative(successor)
    ensures workers < 1 ==> r == Failure(NotScheduled(if primary == [] then MaximumOfNothing else PopFromEmptyHeap))
    ensures workers >= 1 ==>
      (r == Failure(DivisionByZero) <==> Span(primary, workers) + Span(successor, workers) == 0.0)
    ensures workers >= 1 && r.Failure? ==> r.error == DivisionByZero
    ensures r.Success? ==>
      && r.value.singleBlockMinutes == Span(primary, workers) + Span(successor, workers)
      && r.value.tailFillMinutes == Span(primary + successor, workers)
      && 0.0 <= r.value.improvementPercent <= 50.0
      && r.value.tailFillMinutes == r.value.singleBlockMinutes * (1.0 - r.value.improvementPercent / 100.0)
  {
    var first := Makespan(primary, workers);
    if first.Failure? { return Failure(NotScheduled(first.error)); }
    var second := Makespan(successor, workers);
    var merged := Makespan(primary + successor, workers);
    var serial, filled := first.value + second.value, merged.value;
    if serial == 0.0 { return Failure(DivisionByZero); }
    TailFillNeverWorse(primary, successor, workers);
    TailFillNoFreeLunch(primary, successor, workers);
    RunNeverEarlier(Idle(workers), primary);
    RunNeverEarlier(Idle(workers), successor);
    var saved := (serial - filled) / serial;
    ImprovementBounds(serial, filled, saved);
    r := Success(Comparison(serial, filled, saved * 100.0));
  }

  lemma ImprovementBounds(serial: real, filled: real, saved: real)
    requires serial > 0.0 && filled <= serial <= 2.0 * filled
    requires saved == (serial - filled) / serial
    ensures 0.0 <= saved <= 0.5 && filled == serial * (1.0 - saved)
  {
    assert saved * serial == serial - filled;
  }

  /** The shipped comparison: a primary block of 11 long cells and a successor of 36 short ones. */
  function PrimaryTail(): seq<real> { Equal(11, 120.0) }

  function Successor(): seq<real> { Equal(36, 10.0) }

  /** Both times for every worker count. From 14 workers on the merged blocks take as long as one long
      cell; with the default of 32 workers that saves a seventh. */
  method Benchmark(workers: int) returns (r: Result<Comparison, BenchmarkError>)
    ensures workers < 1 ==> r == Failure(NotScheduled(PopFromEmptyHeap))
    ensures workers >= 1 ==> r.Success?
    ensures r.Success? ==>
      && r.value.singleBlockMinutes == 120.0 * Rounds(11, workers) as real + 10.0 * Rounds(36, workers) as real
      && r.value.tailFillMinutes == 10.0 * FilledUnits(11, 12, 36, workers) as real
      && 0.0 <= r.value.improvementPercent <= 50.0
      && r.value.tailFillMinutes == r.value.singleBlockMinutes * (1.0 - r.value.improvementPercent / 100.0)
    ensures workers >= 14 ==> r.value.tailFillMinutes == 120.0
    ensures workers == 32 ==> r.value.singleBlockMinutes == 140.0 && 7.0 * r.value.improvementPercent == 100.0
  {
    hide Run, Rounds, FilledUnits;
    r := Compare(PrimaryTail(), Successor(), workers);
    if workers >= 1 {
      BlockSpans(workers);
      FilledSpanScaled(11, 12, 36, workers, 10.0);
    }
    if workers >= 14 {
      MergedIsOneCell(workers);
    }
    if workers == 32 {
      RoundsOfShippedBlocks();
    }
  }

  lemma BlockSpans(workers: nat)
    requires workers >= 1
    ensures Span(PrimaryTail(), workers) == 120.0 * Rounds(11, workers) as real
    ensures Span(Successor(), workers) == 10.0 * Rounds(36, workers) as real
  {
    hide Run, Rounds;
    EqualJobsSpan(11, 120.0, workers);
    EqualJobsSpan(36, 10.0, workers);
  }

  lemma RoundsOfShippedBlocks()
    ensures Rounds(11, 32) == 1 && Rounds(36, 32) == 2
  {
  }

  lemma MergedIsOneCell(workers: nat)
    requires workers >= 14
    ensures FilledUnits(11, 12, 36, workers) == 12
  {
  }

  /** Every job has ended when the schedule ends. */
  lemma {:induction false} JobEndsBySpan(durations: seq<real>, workers: nat, k: nat)
    requires workers >= 1 && k < |durations| && NonNegative(durations)
    ensures Start(durations, workers, k) + durations[k] <= Span(durations, workers)
  {
    hide InsertSorted;
    var n := |durations| - 1;
    RunSorted(Idle(workers), durations[..n]);
    var before := Run(Idle(workers), durations[..n]);
    InsertLast(before[0] + durations[n], before[1..]);
    if k < n {
      JobEndsBySpan(durations[..n], workers, k);
      assert durations[..n][..k] == durations[..k];
    }
  }
}
