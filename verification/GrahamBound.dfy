/** How far greedy list scheduling can be from the best assignment of jobs to workers. */
module GrahamBound {
  import opened Sorting
  import opened Sums
  import opened ListScheduling

  /** `Allot(ds, a, w)` is the time worker `w` is busy when job `i` goes to worker `a[i]`. */
  function Allot(durations: seq<real>, assignment: seq<nat>, worker: nat): real
    requires |assignment| == |durations|
  {
    if durations == [] then 0.0
    else
      var n := |durations| - 1;
      Allot(durations[..n], assignment[..n], worker) + if assignment[n] == worker then durations[n] else 0.0
  }

  /** An assignment to `workers` workers that keeps each of them busy for at most `limit`. */
  ghost predicate Achieves(durations: seq<real>, assignment: seq<nat>, workers: nat, limit: real) {
    && |assignment| == |durations|
    && (forall i :: 0 <= i < |assignment| ==> assignment[i] < workers)
    && (forall w :: 0 <= w < workers ==> Allot(durations, assignment, w) <= limit)
  }

  /** The loads of all workers, in worker order. */
  function Loads(durations: seq<real>, assignment: seq<nat>, workers: nat): (r: seq<real>)
    requires |assignment| == |durations|
    ensures |r| == workers
  {
    seq(workers, w requires 0 <= w < workers => Allot(durations, assignment, w))
  }

  lemma {:induction false} LoadsSum(durations: seq<real>, assignment: seq<nat>, workers: nat)
    requires |assignment| == |durations|
    requires forall i :: 0 <= i < |assignment| ==> assignment[i] < workers
    ensures Sum(Loads(durations, assignment, workers)) == Sum(durations)
  {
    if durations == [] {
      SumConstant(0.0, workers);
      assert Loads(durations, assignment, workers) == Idle(workers);
    } else {
      var n := |durations| - 1;
      LoadsSum(durations[..n], assignment[..n], workers);
      var before, w := Loads(durations[..n], assignment[..n], workers), assignment[n];
      assert Loads(durations, assignment, workers) == before[w := before[w] + durations[n]];
      SumUpdate(before, w, before[w] + durations[n]);
    }
  }

  /** Every job fits in its own worker's load. */
  lemma {:induction false} JobWithinLoad(durations: seq<real>, assignment: seq<nat>, i: nat)
    requires |assignment| == |durations| && NonNegative(durations) && i < |durations|
    ensures durations[i] <= Allot(durations, assignment, assignment[i])
  {
    var n := |durations| - 1;
    if i < n {
      JobWithinLoad(durations[..n], assignment[..n], i);
    } else {
      AllotNonNegative(durations[..n], assignment[..n], assignment[i]);
    }
  }

  lemma {:induction false} AllotNonNegative(durations: seq<real>, assignment: seq<nat>, worker: nat)
    requires |assignment| == |durations| && NonNegative(durations)
    ensures Allot(durations, assignment, worker) >= 0.0
  {
    if durations != [] {
      var n := |durations| - 1;
      AllotNonNegative(durations[..n], assignment[..n], worker);
    }
  }

  // ---------- The bound ----------

  lemma {:induction false} InsertSum(x: real, s: seq<real>)
    ensures Sum(InsertSorted(x, s, Earlier)) == x + Sum(s)
  {
    assert Sum([x]) == Sum([]) + x;
    SumConcat([x], s);
    if s != [] && x > s[0] {
      InsertSum(x, s[1..]);
      assert Sum([s[0]]) == Sum([]) + s[0];
      SumConcat([s[0]], InsertSorted(x, s[1..], Earlier));
      SumConcat([s[0]], s[1..]);
      assert s == [s[0]] + s[1..];
    }
  }

  lemma AssignSum(slots: seq<real>, d: real)
    requires slots != []
    ensures Sum(Assign(slots, d)) == Sum(slots) + d
  {
    hide InsertSorted;
    InsertSum(slots[0] + d, slots[1..]);
    assert slots == [slots[0]] + slots[1..];
    SumConcat([slots[0]], slots[1..]);
    assert Sum([slots[0]]) == Sum([]) + slots[0];
  }

  /** The latest slot after a job is the old latest slot or the job's own end. */
  lemma {:induction false} InsertLast(x: real, s: seq<real>)
    requires SortedBy(s, Earlier)
    ensures |InsertSorted(x, s, Earlier)| == |s| + 1
    ensures InsertSorted(x, s, Earlier)[|s|] == if s != [] && s[|s| - 1] > x then s[|s| - 1] else x
  {
    if s == [] {
    } else if x <= s[0] {
      assert |s| > 1 ==> Earlier(s[0], s[|s| - 1]);
    } else {
      InsertLast(x, s[1..]);
    }
  }

  /** Scheduling neither loses nor invents work. */
  lemma {:induction false} RunSum(durations: seq<real>, workers: nat)
    requires workers >= 1
    ensures Sum(Run(Idle(workers), durations)) == Sum(durations)
  {
    hide InsertSorted;
    if durations == [] {
      SumConstant(0.0, workers);
    } else {
      var n := |durations| - 1;
      RunSum(durations[..n], workers);
      AssignSum(Run(Idle(workers), durations[..n]), durations[n]);
    }
  }

  /** A job starts no later than the mean of the work before it. */
  lemma StartAtMostMean(durations: seq<real>, workers: nat, k: nat, m: real, start: real)
    requires workers >= 1 && k < |durations|
    requires m == workers as real && start == Start(durations, workers, k)
    ensures m * start <= Sum(durations[..k])
  {
    hide InsertSorted;
    var slots := Run(Idle(workers), durations[..k]);
    RunSorted(Idle(workers), durations[..k]);
    forall i | 0 <= i < workers ensures start <= slots[i] {
      assert i > 0 ==> Earlier(slots[0], slots[i]);
    }
    SumAtLeast(slots, m, start);
    RunSum(durations[..k], workers);
  }

  /** Some job ends exactly when the schedule ends. */
  lemma {:induction false} LastToEnd(durations: seq<real>, workers: nat) returns (k: nat)
    requires workers >= 1 && durations != [] && NonNegative(durations)
    ensures k < |durations| && Span(durations, workers) == Start(durations, workers, k) + durations[k]
  {
    hide InsertSorted;
    var n := |durations| - 1;
    var before := Run(Idle(workers), durations[..n]);
    RunSorted(Idle(workers), durations[..n]);
    InsertLast(before[0] + durations[n], before[1..]);
    k := n;
    if Span(durations, workers) != before[0] + durations[n] {
      if n > 0 {
        k := LastToEnd(durations[..n], workers);
        assert durations[..n][..k] == durations[..k];
      }
    }
  }

  lemma {:induction false} PrefixSum(durations: seq<real>, k: nat)
    requires k < |durations| && NonNegative(durations)
    ensures Sum(durations[..k]) + durations[k] <= Sum(durations)
  {
    assert durations == durations[..k] + [durations[k]] + durations[k + 1..];
    SumConcat(durations[..k] + [durations[k]], durations[k + 1..]);
    SumNonNegative(durations[k + 1..]);
    assert (durations[..k] + [durations[k]])[..k] == durations[..k];
  }

  /** Graham's bound: m times the greedy span is at most 2m-1 times the largest load
      of any assignment of the same jobs to the same workers. */
  lemma Graham(durations: seq<real>, workers: nat, assignment: seq<nat>, limit: real)
    requires workers >= 1 && NonNegative(durations)
    requires Achieves(durations, assignment, workers, limit)
    ensures workers as real * Span(durations, workers) <= (2 * workers - 1) as real * limit
  {
    var m, span, total := workers as real, Span(durations, workers), Sum(durations);
    if durations == [] {
      AllotNonNegative(durations, assignment, 0);
      assert span == 0.0 <= limit;
    } else {
      var k := LastToEnd(durations, workers);
      var start, d := Start(durations, workers, k), durations[k];
      assert m * start <= total - d by {
        StartAtMostMean(durations, workers, k, m, start);
        PrefixSum(durations, k);
      }
      assert total <= m * limit by {
        LoadsSum(durations, assignment, workers);
        SumAtMost(Loads(durations, assignment, workers), m, limit);
      }
      assert d <= limit by {
        JobWithinLoad(durations, assignment, k);
      }
      GrahamArithmetic(m, start, d, total, limit, span);
    }
  }

  lemma GrahamArithmetic(m: real, start: real, d: real, total: real, limit: real, span: real)
    requires m >= 1.0 && m * start <= total - d && total <= m * limit && d <= limit && span == start + d
    ensures m * span <= (2.0 * m - 1.0) * limit
  {
    assert m * span == m * start + d + (m - 1.0) * d;
    assert (m - 1.0) * d <= (m - 1.0) * limit;
  }

  /** The greedy span is itself the largest load of an assignment. */
  lemma GreedySpanIsAchieved(durations: seq<real>, workers: nat)
    requires workers >= 1
    ensures exists assignment ::
      && Achieves(durations, assignment, workers, Span(durations, workers))
      && Span(durations, workers) in Loads(durations, assignment, workers)
  {
    var assignment := GreedyAssignment(durations, workers);
    var slots, loads := Run(Idle(workers), durations), Loads(durations, assignment, workers);
    RunSorted(Idle(workers), durations);
    assert slots[workers - 1] in multiset(slots);
    assert slots[workers - 1] in loads;
    forall w | 0 <= w < workers
      ensures Allot(durations, assignment, w) <= slots[workers - 1]
    {
      assert loads[w] in multiset(slots);
      var i :| 0 <= i < workers && slots[i] == loads[w];
      assert i < workers - 1 ==> Earlier(slots[i], slots[workers - 1]);
    }
  }

  lemma LoadsAfter(durations: seq<real>, a: seq<nat>, w: nat, workers: nat)
    requires |durations| == |a| + 1 && w < workers
    ensures var loads := Loads(durations[..|a|], a, workers);
      Loads(durations, a + [w], workers) == loads[w := loads[w] + durations[|a|]]
  {
    assert (a + [w])[..|a|] == a;
  }

  lemma AssignPermutes(slots: seq<real>, loads: seq<real>, w: nat, d: real)
    requires slots != [] && w < |loads| && loads[w] == slots[0] && multiset(loads) == multiset(slots)
    ensures multiset(loads[w := loads[w] + d]) == multiset(Assign(slots, d))
  {
    hide InsertSorted;
    InsertSortedPermutes(slots[0] + d, slots[1..], Earlier);
    assert slots == [slots[0]] + slots[1..];
  }

  lemma {:induction false} GreedyAssignment(durations: seq<real>, workers: nat) returns (assignment: seq<nat>)
    requires workers >= 1
    ensures |assignment| == |durations|
    ensures forall i :: 0 <= i < |assignment| ==> assignment[i] < workers
    ensures multiset(Loads(durations, assignment, workers)) == multiset(Run(Idle(workers), durations))
  {
    hide InsertSorted;
    if durations == [] {
      assignment := [];
      assert Loads(durations, assignment, workers) == Idle(workers);
    } else {
      var n := |durations| - 1;
      var a := GreedyAssignment(durations[..n], workers);
      var slots, loads := Run(Idle(workers), durations[..n]), Loads(durations[..n], a, workers);
      var w := FirstFreeWorker(slots, loads);
      assignment := a + [w];
      LoadsAfter(durations, a, w, workers);
      AssignPermutes(slots, loads, w, durations[n]);
      assert Run(Idle(workers), durations) == Assign(slots, durations[n]);
    }
  }

  lemma FirstFreeWorker(slots: seq<real>, loads: seq<real>) returns (w: nat)
    requires slots != [] && multiset(loads) == multiset(slots)
    ensures w < |loads| && loads[w] == slots[0]
  {
    assert slots[0] in multiset(loads);
    w :| w < |loads| && loads[w] == slots[0];
  }

  // ---------- The bound is attained ----------

  /** m(m-1) unit jobs followed by one job of length m. */
  function WorstCase(workers: nat): seq<real>
    requires workers >= 1
  {
    Units((workers - 1) * workers) + [workers as real]
  }

  function Units(n: nat): seq<real> {
    seq(n, _ => 1.0)
  }

  /** `low` slots at `level`, then `high` slots one unit later. */
  function Levels(level: nat, low: nat, high: nat): seq<real> {
    seq(low, _ => level as real) + seq(high, _ => level as real + 1.0)
  }

  lemma {:induction false} InsertAboveLevel(level: nat, low: nat, high: nat)
    ensures InsertSorted(level as real + 1.0, Levels(level, low, high), Earlier) == Levels(level, low, high + 1)
  {
    if low == 0 {
      assert [level as real + 1.0] + Levels(level, 0, high) == Levels(level, 0, high + 1);
    } else {
      InsertAboveLevel(level, low - 1, high);
      assert Levels(level, low, high)[1..] == Levels(level, low - 1, high);
      assert [level as real] + Levels(level, low - 1, high + 1) == Levels(level, low, high + 1);
    }
  }

  lemma {:induction false} RunUnits(workers: nat, level: nat, high: nat, n: nat)
    requires workers >= 1 && high <= workers && n == level * workers + high
    ensures Run(Idle(workers), Units(n)) == Levels(level, workers - high, high)
    decreases level, high
  {
    hide InsertSorted;
    if high > 0 {
      RunUnits(workers, level, high - 1, n - 1);
      assert Units(n)[..n - 1] == Units(n - 1);
      assert Levels(level, workers - high + 1, high - 1)[1..] == Levels(level, workers - high, high - 1);
      InsertAboveLevel(level, workers - high, high - 1);
    } else if level > 0 {
      assert (level - 1) * workers + workers == n;
      RunUnits(workers, level - 1, workers, n);
      assert Levels(level - 1, 0, workers) == Levels(level, workers, 0);
    } else {
      assert n == 0 && Units(0) == [];
      assert Idle(workers) == Levels(0, workers, 0);
    }
  }

  /** The jobs of the worst case, shared out by hand: m unit jobs to each of the first workers. */
  function Shares(k: nat, size: nat): (r: seq<nat>)
    ensures |r| == k * size
    ensures forall i :: 0 <= i < |r| ==> r[i] < k
  {
    if k == 0 then [] else Shares(k - 1, size) + seq(size, _ => k - 1)
  }

  lemma {:induction false} AllotConcat(d1: seq<real>, a1: seq<nat>, d2: seq<real>, a2: seq<nat>, worker: nat)
    requires |d1| == |a1| && |d2| == |a2|
    ensures Allot(d1 + d2, a1 + a2, worker) == Allot(d1, a1, worker) + Allot(d2, a2, worker)
  {
    if d2 == [] {
      assert d1 + d2 == d1 && a1 + a2 == a1;
    } else {
      var n := |d2| - 1;
      AllotConcat(d1, a1, d2[..n], a2[..n], worker);
      assert (d1 + d2)[..|d1| + n] == d1 + d2[..n] && (a1 + a2)[..|a1| + n] == a1 + a2[..n];
    }
  }

  lemma {:induction false} AllotUnits(n: nat, owner: nat, worker: nat)
    ensures Allot(Units(n), seq(n, _ => owner), worker) == if owner == worker then n as real else 0.0
  {
    if n > 0 {
      AllotUnits(n - 1, owner, worker);
      assert Units(n)[..n - 1] == Units(n - 1);
      assert seq(n, _ => owner)[..n - 1] == seq(n - 1, _ => owner);
    }
  }

  lemma {:induction false} AllotShares(k: nat, size: nat, worker: nat)
    ensures Allot(Units(k * size), Shares(k, size), worker) == if worker < k then size as real else 0.0
  {
    if k > 0 {
      AllotShares(k - 1, size, worker);
      AllotUnits(size, k - 1, worker);
      assert Units(k * size) == Units((k - 1) * size) + Units(size);
      AllotConcat(Units((k - 1) * size), Shares(k - 1, size), Units(size), seq(size, _ => k - 1), worker);
    }
  }

  /** Graham's bound cannot be improved: for every number of workers m there are jobs that
      some assignment finishes in m while greedy scheduling needs 2m-1. */
  lemma GrahamIsTight(workers: nat) returns (assignment: seq<nat>)
    requires workers >= 1
    ensures Span(WorstCase(workers), workers) == (2 * workers - 1) as real
    ensures Achieves(WorstCase(workers), assignment, workers, workers as real)
  {
    var n := (workers - 1) * workers;
    assert WorstCase(workers)[..n] == Units(n);
    WorstCaseSpan(workers, n);
    var shares := Shares(workers - 1, workers);
    assignment := shares + [workers - 1];
    assert assignment[..n] == shares;
    forall w | 0 <= w < workers
      ensures Allot(WorstCase(workers), assignment, w) <= workers as real
    {
      AllotShares(workers - 1, workers, w);
    }
  }

  lemma WorstCaseSpan(workers: nat, n: nat)
    requires workers >= 1 && n == (workers - 1) * workers && WorstCase(workers)[..n] == Units(n)
    ensures Span(WorstCase(workers), workers) == (2 * workers - 1) as real
  {
    hide InsertSorted;
    var level := workers - 1;
    RunUnits(workers, level, 0, n);
    var slots := Levels(level, workers, 0);
    assert slots[0] == level as real && slots[1..] == Levels(level, level, 0);
    InsertLast(level as real + workers as real, slots[1..]);
  }
}
