/** A block of equal long jobs filled up with a block of equal short ones: the workers that the last
    round of the long jobs leaves idle take short jobs until they catch up, and only what is left
    over then takes further rounds. */
module EqualBlocks {
  import opened Sorting
  import opened ListScheduling
  import opened GrahamBound
  import opened IdleTail

  /** `count` workers that become free at the same time. */
  function Row(count: nat, time: real): (r: seq<real>)
    ensures |r| == count
  {
    seq(count, _ => time)
  }

  /** Inserting something no later than all of `late` leaves `late` alone. */
  lemma {:induction false} InsertBelow(x: real, early: seq<real>, late: seq<real>)
    requires late != [] ==> x <= late[0]
    ensures InsertSorted(x, early + late, Earlier) == InsertSorted(x, early, Earlier) + late
  {
    if early == [] {
      assert early + late == late;
    } else if x > early[0] {
      InsertBelow(x, early[1..], late);
      assert (early + late)[1..] == early[1..] + late;
    } else {
      assert [x] + (early + late) == [x] + early + late;
    }
  }

  lemma JobBelow(slots: seq<real>, late: seq<real>, duration: real)
    requires slots != [] && (late != [] ==> slots[0] + duration <= late[0])
    ensures var all := slots + late;
      InsertSorted(all[0] + duration, all[1..], Earlier) == InsertSorted(slots[0] + duration, slots[1..], Earlier) + late
  {
    hide InsertSorted;
    InsertBelow(slots[0] + duration, slots[1..], late);
    assert (slots + late)[1..] == slots[1..] + late;
  }

  /** As long as jobs end no later than the late workers become free, only the early workers run. */
  lemma {:induction false} RunBelow(early: seq<real>, late: seq<real>, durations: seq<real>)
    requires early != []
    requires forall k :: 0 <= k < |durations| && late != [] ==> Run(early, durations[..k])[0] + durations[k] <= late[0]
    ensures Run(early + late, durations) == Run(early, durations) + late
  {
    hide InsertSorted;
    if durations != [] {
      var n := |durations| - 1;
      forall k | 0 <= k < n && late != []
        ensures Run(early, durations[..n][..k])[0] + durations[..n][k] <= late[0]
      {
        assert durations[..n][..k] == durations[..k];
      }
      RunBelow(early, late, durations[..n]);
      JobBelow(Run(early, durations[..n]), late, durations[n]);
    }
  }

  lemma RowIsShift(count: nat, time: real)
    ensures Shift(Idle(count), time) == Row(count, time)
  {
  }

  /** Unit jobs on workers that become free together at `time`. */
  lemma UnitsOnRow(count: nat, time: real, level: nat, high: nat)
    requires count >= 1 && high <= count
    ensures Run(Row(count, time), Units(level * count + high)) == Shift(Levels(level, count - high, high), time)
  {
    hide Run, Levels;
    RowIsShift(count, time);
    RunShift(Idle(count), time, Units(level * count + high));
    RunUnits(count, level, high, level * count + high);
  }

  lemma LastOfLevels(level: nat, low: nat, high: nat, time: real)
    requires low + high >= 1
    ensures Shift(Levels(level, low, high), time)[low + high - 1] == time + level as real + (if high > 0 then 1.0 else 0.0)
  {
  }

  /** How long unit jobs take on workers that are free together. */
  lemma SpanOnRow(n: nat, count: nat, time: real)
    requires count >= 1
    ensures Run(Row(count, time), Units(n))[count - 1] == time + (if n == 0 then 0.0 else Rounds(n, count) as real)
  {
    hide Run, Levels, Rounds;
    if n == 0 {
      UnitsOnRow(count, time, 0, 0);
      LastOfLevels(0, count, 0, time);
    } else {
      var level := Rounds(n, count) - 1;
      UnitsOnRow(count, time, level, n - level * count);
      LastOfLevels(level, count - (n - level * count), n - level * count, time);
    }
  }

  // ---------- Filling up ----------

  lemma FirstOfLevels(level: nat, low: nat, high: nat, time: real)
    requires low >= 1
    ensures Shift(Levels(level, low, high), time)[0] == time + level as real
  {
  }

  lemma RoundOf(j: nat, count: nat, k: nat) returns (level: nat, high: nat)
    requires count >= 1 && j < k * count
    ensures j == level * count + high && high < count && level < k
  {
    level, high := j / count, j % count;
    assert j == level * count + high;
    if level >= k {
      ProductGrows(k, level, count);
    }
  }

  lemma ProductGrows(a: nat, b: nat, c: nat)
    requires a <= b
    ensures a * c <= b * c
  {
  }

  /** Early workers, k units ahead of the others, take k rounds of unit jobs before these run any. */
  lemma FillRow(low: nat, high: nat, time: real, k: nat, jobs: nat)
    requires low >= 1 && jobs <= k * low
    ensures Run(Row(low, time) + Row(high, time + k as real), Units(jobs))
         == Run(Row(low, time), Units(jobs)) + Row(high, time + k as real)
  {
    hide Run, Levels;
    var durations := Units(jobs);
    forall j | 0 <= j < jobs && Row(high, time + k as real) != []
      ensures Run(Row(low, time), durations[..j])[0] + durations[j] <= Row(high, time + k as real)[0]
    {
      assert durations[..j] == Units(j);
      var level, rest := RoundOf(j, low, k);
      UnitsOnRow(low, time, level, rest);
      FirstOfLevels(level, low - rest, rest, time);
    }
    RunBelow(Row(low, time), Row(high, time + k as real), durations);
  }

  lemma FilledRow(low: nat, high: nat, time: real, k: nat)
    requires low >= 1
    ensures Run(Row(low, time) + Row(high, time + k as real), Units(k * low)) == Row(low + high, time + k as real)
  {
    hide Run;
    FillRow(low, high, time, k, k * low);
    UnitsOnRow(low, time, k, 0);
    assert Shift(Levels(k, low, 0), time) == Row(low, time + k as real);
    assert Row(low, time + k as real) + Row(high, time + k as real) == Row(low + high, time + k as real);
  }

  /** Unit jobs behind long ones: nothing until the early workers have caught up, then full rounds. */
  lemma SpanBehind(low: nat, high: nat, time: real, k: nat, jobs: nat)
    requires high >= 1
    ensures var slots := Row(low, time) + Row(high, time + k as real);
      Run(slots, Units(jobs))[low + high - 1] ==
        time + k as real + (if jobs <= k * low then 0.0 else Rounds(jobs - k * low, low + high) as real)
  {
    hide Run, Rounds;
    var top := time + k as real;
    var slots := Row(low, time) + Row(high, top);
    if low == 0 {
      assert slots == Row(high, top) && k * low == 0;
      SpanOnRow(jobs, high, top);
    } else if jobs <= k * low {
      FillRow(low, high, time, k, jobs);
    } else {
      FilledRow(low, high, time, k);
      var rest := jobs - k * low;
      assert Units(jobs) == Units(k * low) + Units(rest);
      RunConcat(slots, Units(k * low), Units(rest));
      SpanOnRow(rest, low + high, top);
    }
  }

  /** The slots that equal long jobs leave: the last round may leave workers idle. */
  lemma LongRounds(n: nat, k: nat, workers: nat)
    requires n >= 1 && k >= 1 && workers >= 1
    ensures var rounds := Rounds(n, workers);
      var low, time := rounds * workers - n, (k * (rounds - 1)) as real;
      low < workers && Run(Idle(workers), Equal(n, k as real)) == Row(low, time) + Row(workers - low, time + k as real)
  {
    hide Run, Rounds;
    var level := Rounds(n, workers) - 1;
    var high := n - level * workers;
    assert Rounds(n, workers) * workers == level * workers + workers;
    RunUnits(workers, level, high, n);
    RunScale(Idle(workers), Units(n), k as real);
    ScaledInputs(n, k as real, workers);
    ScaledLevels(level, workers - high, high, k);
  }

  lemma ScaledLevels(level: nat, low: nat, high: nat, k: nat)
    ensures Scale(Levels(level, low, high), k as real) == Row(low, (k * level) as real) + Row(high, (k * level) as real + k as real)
  {
    hide Times;
    TimesNat(level, k);
  }

  lemma TimesNat(level: nat, k: nat)
    ensures Times(level as real, k as real) == (k * level) as real
    ensures Times(level as real + 1.0, k as real) == (k * level) as real + k as real
  {
  }

  /** In units of a short job: the time that n jobs of k units and then m jobs of one unit take. */
  function FilledUnits(n: nat, k: nat, m: nat, workers: nat): nat
    requires n >= 1 && workers >= 1
  {
    var idle := k * (Rounds(n, workers) * workers - n);
    k * Rounds(n, workers) + if m <= idle then 0 else Rounds(m - idle, workers)
  }

  /** Merging n jobs of k units with m jobs of one unit wastes nothing: the idle part of the last
      long round is used up before any further round begins. */
  lemma FilledSpan(n: nat, k: nat, m: nat, workers: nat)
    requires n >= 1 && k >= 1 && workers >= 1
    ensures Span(Equal(n, k as real) + Units(m), workers) == FilledUnits(n, k, m, workers) as real
  {
    hide Run, Rounds;
    var rounds := Rounds(n, workers);
    var low, time := rounds * workers - n, (k * (rounds - 1)) as real;
    LongRounds(n, k, workers);
    RunConcat(Idle(workers), Equal(n, k as real), Units(m));
    SpanBehind(low, workers - low, time, k, m);
    assert k * rounds == k * (rounds - 1) + k;
  }

  /** The same in any unit. */
  lemma FilledSpanScaled(n: nat, k: nat, m: nat, workers: nat, unit: real)
    requires n >= 1 && k >= 1 && workers >= 1 && unit > 0.0
    ensures Span(Equal(n, Times(k as real, unit)) + Equal(m, unit), workers) == Times(FilledUnits(n, k, m, workers) as real, unit)
  {
    hide Run, FilledUnits;
    var merged := Equal(n, k as real) + Units(m);
    FilledSpan(n, k, m, workers);
    RunScale(Idle(workers), merged, unit);
    ScaledInputs(m, unit, workers);
    assert Scale(merged, unit) == Equal(n, Times(k as real, unit)) + Equal(m, unit);
  }
}
