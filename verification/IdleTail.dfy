/** When merging costs nothing: a successor that fits on the workers which the primary block leaves
    idle does not delay its end. And the span of a block of equal jobs. */
module IdleTail {
  import opened Sorting
  import opened Sums
  import opened ListScheduling
  import opened GrahamBound

  // ---------- Idle workers absorb a successor ----------

  /** The first slots of the larger pool are no later than those of the smaller one, and its last slot
      is no later than `top` or the smaller pool's last. */
  ghost predicate Absorbs(slots: seq<real>, alone: seq<real>, top: real) {
    && 1 <= |alone| <= |slots|
    && (forall i :: 0 <= i < |alone| ==> slots[i] <= alone[i])
    && (slots[|slots| - 1] <= top || slots[|slots| - 1] <= alone[|alone| - 1])
  }

  /** Inserting into a longer list puts no earlier place later. */
  lemma {:induction false} InsertPrefix(x: real, s: seq<real>, k: nat)
    requires k <= |s|
    ensures |InsertSorted(x, s, Earlier)| == |s| + 1
    ensures Dominates(InsertSorted(x, s, Earlier)[..k + 1], InsertSorted(x, s[..k], Earlier))
  {
    InsertSortedPermutes(x, s, Earlier);
    InsertSortedPermutes(x, s[..k], Earlier);
    if k > 0 && x > s[0] {
      InsertPrefix(x, s[1..], k - 1);
      assert s[..k][1..] == s[1..][..k - 1];
      DominatesCons(s[0], InsertSorted(x, s[1..], Earlier)[..k], s[0], InsertSorted(x, s[1..][..k - 1], Earlier));
      assert InsertSorted(x, s, Earlier)[..k + 1] == [s[0]] + InsertSorted(x, s[1..], Earlier)[..k];
    }
  }

  lemma AssignAbsorbs(slots: seq<real>, alone: seq<real>, top: real, d: real)
    requires Absorbs(slots, alone, top) && SortedBy(slots, Earlier) && SortedBy(alone, Earlier) && d >= 0.0
    ensures Absorbs(Assign(slots, d), Assign(alone, d), top)
  {
    hide InsertSorted;
    var m := |alone|;
    var x, y := slots[0] + d, alone[0] + d;
    InsertPrefix(x, slots[1..], m - 1);
    assert slots[1..][..m - 1] == slots[1..m];
    InsertMonotone(x, slots[1..m], y, alone[1..]);
    InsertLast(x, slots[1..]);
    InsertLast(y, alone[1..]);
    var next := Assign(slots, d);
    forall i | 0 <= i < m ensures next[i] <= Assign(alone, d)[i] {
      assert next[i] == next[..m][i];
    }
  }

  lemma {:induction false} RunAbsorbs(slots: seq<real>, alone: seq<real>, top: real, durations: seq<real>)
    requires Absorbs(slots, alone, top) && SortedBy(slots, Earlier) && SortedBy(alone, Earlier) && NonNegative(durations)
    ensures Absorbs(Run(slots, durations), Run(alone, durations), top)
  {
    assert slots != [] && alone != [];
    hide Assign, InsertSorted, Absorbs;
    if durations != [] {
      var n := |durations| - 1;
      RunAbsorbs(slots, alone, top, durations[..n]);
      RunSorted(slots, durations[..n]);
      RunSorted(alone, durations[..n]);
      AssignAbsorbs(Run(slots, durations[..n]), Run(alone, durations[..n]), top, durations[n]);
    }
  }

  /** With fewer jobs than workers, the remaining workers stay idle. */
  lemma {:induction false} StillIdle(durations: seq<real>, workers: nat, idle: nat)
    requires 1 <= idle && |durations| + idle <= workers && NonNegative(durations)
    ensures forall i :: 0 <= i < idle ==> Run(Idle(workers), durations)[i] == 0.0
  {
    hide InsertSorted;
    if durations != [] {
      var n := |durations| - 1;
      StillIdle(durations[..n], workers, idle + 1);
      var before := Run(Idle(workers), durations[..n]);
      InsertBehindZeros(before[0] + durations[n], before[1..], idle);
    }
  }

  lemma {:induction false} InsertBehindZeros(x: real, s: seq<real>, zeros: nat)
    requires x >= 0.0 && zeros <= |s| && forall i :: 0 <= i < zeros ==> s[i] == 0.0
    ensures |InsertSorted(x, s, Earlier)| == |s| + 1
    ensures forall i :: 0 <= i < zeros ==> InsertSorted(x, s, Earlier)[i] == 0.0
  {
    InsertSortedPermutes(x, s, Earlier);
    if zeros > 0 && x > s[0] {
      InsertBehindZeros(x, s[1..], zeros - 1);
    }
  }

  /** If the primary block leaves workers idle on which the successor, alone, ends no later than the
      primary does, then the merged blocks end exactly when the primary does. */
  lemma IdleWorkersAbsorb(primary: seq<real>, successor: seq<real>, workers: nat, idle: nat)
    requires 1 <= idle && |primary| + idle <= workers && NonNegative(primary) && NonNegative(successor)
    requires Span(successor, idle) <= Span(primary, workers)
    ensures Span(primary + successor, workers) == Span(primary, workers)
  {
    hide InsertSorted;
    var after := Run(Idle(workers), primary);
    StillIdle(primary, workers, idle);
    RunSorted(Idle(workers), primary);
    RunAbsorbs(after, Idle(idle), Span(primary, workers), successor);
    RunConcat(Idle(workers), primary, successor);
    TailFillNoFreeLunch(primary, successor, workers);
  }

  // ---------- Blocks of equal jobs ----------

  function Times(x: real, factor: real): real { x * factor }

  function Scale(s: seq<real>, factor: real): (r: seq<real>)
    ensures |r| == |s|
  {
    seq(|s|, i requires 0 <= i < |s| => Times(s[i], factor))
  }

  lemma TimesAdds(x: real, y: real, factor: real)
    ensures Times(x + y, factor) == Times(x, factor) + Times(y, factor)
  {
  }

  lemma TimesGrows(x: real, y: real, factor: real)
    requires factor > 0.0 && x < y
    ensures Times(x, factor) < Times(y, factor)
  {
    hide Times;
    TimesAdds(x, y - x, factor);
    assert x + (y - x) == y;
    PositiveProduct(y - x, factor);
  }

  lemma PositiveProduct(a: real, b: real)
    requires a > 0.0 && b > 0.0
    ensures Times(a, b) > 0.0
  {
  }

  lemma TimesFacts(x: real, y: real, factor: real)
    requires factor > 0.0
    ensures x <= y <==> Times(x, factor) <= Times(y, factor)
    ensures Times(x + y, factor) == Times(x, factor) + Times(y, factor)
  {
    hide Times;
    TimesAdds(x, y, factor);
    if x < y {
      TimesGrows(x, y, factor);
    } else if y < x {
      TimesGrows(y, x, factor);
    }
  }

  lemma {:induction false} InsertScale(x: real, s: seq<real>, factor: real)
    requires factor > 0.0
    ensures InsertSorted(Times(x, factor), Scale(s, factor), Earlier) == Scale(InsertSorted(x, s, Earlier), factor)
  {
    hide Times;
    if s == [] {
      assert Scale([x], factor) == [Times(x, factor)];
    } else {
      TimesFacts(x, s[0], factor);
      assert Scale(s, factor)[0] == Times(s[0], factor);
      if x <= s[0] {
        assert [Times(x, factor)] + Scale(s, factor) == Scale([x] + s, factor);
      } else {
        InsertScale(x, s[1..], factor);
        assert Scale(s, factor)[1..] == Scale(s[1..], factor);
        assert [Times(s[0], factor)] + Scale(InsertSorted(x, s[1..], Earlier), factor)
            == Scale([s[0]] + InsertSorted(x, s[1..], Earlier), factor);
      }
    }
  }

  /** Measuring time in another unit changes nothing else. */
  lemma {:induction false} RunScale(slots: seq<real>, durations: seq<real>, factor: real)
    requires slots != [] && factor > 0.0
    ensures Run(Scale(slots, factor), Scale(durations, factor)) == Scale(Run(slots, durations), factor)
  {
    hide InsertSorted, Times;
    if durations != [] {
      var n := |durations| - 1;
      RunScale(slots, durations[..n], factor);
      assert Scale(durations, factor)[..n] == Scale(durations[..n], factor);
      var before := Run(slots, durations[..n]);
      TimesFacts(before[0], durations[n], factor);
      InsertScale(before[0] + durations[n], before[1..], factor);
      assert Scale(before, factor)[1..] == Scale(before[1..], factor);
    }
  }

  function Equal(n: nat, duration: real): seq<real> {
    seq(n, _ => duration)
  }

  /** How many rounds `n` equal jobs take. */
  function Rounds(n: nat, workers: nat): (rounds: nat)
    requires n >= 1 && workers >= 1
    ensures rounds >= 1 && (rounds - 1) * workers < n <= rounds * workers
  {
    var full := (n - 1) / workers;
    assert full * workers <= n - 1 < full * workers + workers;
    full + 1
  }

  lemma LastSlot(level: nat, low: nat, high: nat)
    requires high >= 1
    ensures Levels(level, low, high)[low + high - 1] == level as real + 1.0
  {
  }

  /** Equal jobs take as long as their rounds. */
  lemma EqualJobsSpan(n: nat, duration: real, workers: nat)
    requires n >= 1 && workers >= 1 && duration > 0.0
    ensures Span(Equal(n, duration), workers) == Times(Rounds(n, workers) as real, duration)
  {
    hide Run, Times, Levels;
    var level := Rounds(n, workers) - 1;
    var high := n - level * workers;
    RunUnits(workers, level, high, n);
    RunScale(Idle(workers), Units(n), duration);
    ScaledInputs(n, duration, workers);
    LastSlot(level, workers - high, high);
  }

  lemma ScaledInputs(n: nat, duration: real, workers: nat)
    ensures Scale(Idle(workers), duration) == Idle(workers)
    ensures Scale(Units(n), duration) == Equal(n, duration)
  {
  }
}
