/** What a published file was made of: the moments of a run at which its publisher read the source,
    and exactly when the tables it published are those of the source it records. */
module PublicationHistory {
  import opened Results
  import opened Sorting
  import opened Grouping
  import opened LaneCompaction
  import opened LaneChecks
  import opened Publication

  /** The source after some steps: what it was last changed to. */
  function SourceAfter(source: Source, steps: seq<Step>): Source {
    if steps == [] then source
    else if steps[|steps| - 1].SourceChanges? then steps[|steps| - 1].source
    else SourceAfter(source, steps[..|steps| - 1])
  }

  /** The source at the moment of step `k`. It depends on outside events only. */
  function SourceAt(w: World, steps: seq<Step>, k: nat): Source
    requires k <= |steps|
  {
    SourceAfter(w.source, steps[..k])
  }

  lemma StepKeepsSource(w: World, step: Step)
    ensures Next(w, step).source == if step.SourceChanges? then step.source else w.source
  {
    hide Compaction, SchemaHolds, PassesCounting, PreviewOf;
  }

  lemma {:induction false} SourceFollows(w: World, steps: seq<Step>)
    ensures Run(w, steps).source == SourceAfter(w.source, steps)
  {
    hide Next;
    if steps != [] {
      SourceFollows(w, steps[..|steps| - 1]);
      StepKeepsSource(Run(w, steps[..|steps| - 1]), steps[|steps| - 1]);
    }
  }

  // ---------- Moments of a run ----------

  /** Step `k` is publisher `p`'s own step in the given stage. */
  ghost predicate Happens(w: World, steps: seq<Step>, p: nat, stage: Stage, k: nat) {
    k < |steps| && steps[k] == Advance(p) && p < |w.publishers| && Run(w, steps[..k]).publishers[p].stage == stage
  }

  function Rank(stage: Stage): nat {
    match stage
    case Start => 0
    case Digesting => 1
    case Previewing => 2
    case Creating => 3
    case Closing => 4
    case Compacting => 5
    case Verifying => 6
    case CheckingIntegrity => 7
    case Rechecking => 8
    case Linking => 9
    case Cleaning => 10
    case Inspecting => 11
    case Finished(_) => 12
  }

  lemma RankRises(w: World, step: Step, p: nat)
    requires p < |w.publishers|
    ensures Rank(w.publishers[p].stage) <= Rank(Next(w, step).publishers[p].stage)
    ensures step == Advance(p) && !w.publishers[p].stage.Finished? ==>
      Rank(w.publishers[p].stage) < Rank(Next(w, step).publishers[p].stage)
  {
    hide Compaction, SchemaHolds, PassesCounting, PreviewOf;
    if step != Advance(p) && step != Fail(p) {
      OthersUntouched(w, step, p);
    }
  }

  lemma {:induction false} RankMonotone(w: World, steps: seq<Step>, p: nat, i: nat, j: nat)
    requires p < |w.publishers| && i <= j <= |steps|
    ensures Rank(Run(w, steps[..i]).publishers[p].stage) <= Rank(Run(w, steps[..j]).publishers[p].stage)
    decreases j - i
  {
    hide Next, Rank;
    if i < j {
      RankMonotone(w, steps, p, i, j - 1);
      assert steps[..j][..j - 1] == steps[..j - 1];
      RankRises(Run(w, steps[..j - 1]), steps[j - 1], p);
    }
  }

  /** The stages of a publisher come in order, and each at most once. */
  lemma MomentsInOrder(w: World, steps: seq<Step>, p: nat, first: Stage, i: nat, second: Stage, j: nat)
    requires Happens(w, steps, p, first, i) && Happens(w, steps, p, second, j) && !first.Finished? && !second.Finished?
    ensures Rank(first) < Rank(second) ==> i < j
    ensures first == second ==> i == j
  {
    if i < j {
      Later(w, steps, p, i, j);
    }
    if j < i {
      Later(w, steps, p, j, i);
    }
  }

  lemma RunOneMore(w: World, steps: seq<Step>, i: nat)
    requires i < |steps|
    ensures Run(w, steps[..i + 1]) == Next(Run(w, steps[..i]), steps[i])
  {
    hide Next;
    assert steps[..i + 1][..i] == steps[..i];
  }

  lemma Later(w: World, steps: seq<Step>, p: nat, i: nat, j: nat)
    requires p < |w.publishers| && i < j <= |steps| && steps[i] == Advance(p)
    requires !Run(w, steps[..i]).publishers[p].stage.Finished?
    ensures Rank(Run(w, steps[..i]).publishers[p].stage) < Rank(Run(w, steps[..j]).publishers[p].stage)
  {
    hide Next, Rank, Run;
    RunOneMore(w, steps, i);
    RankRises(Run(w, steps[..i]), steps[i], p);
    RankMonotone(w, steps, p, i + 1, j);
  }

  /** How far the publisher has come without failing: to linking, if it has published. */
  function Reached(me: Publisher): nat {
    if me.published then 10
    else if me.stage.Cleaning? || me.stage.Inspecting? || me.stage.Finished? then 0
    else Rank(me.stage)
  }

  /** The file that publisher `p` is working on or has published. */
  function OwnFile(w: World, p: nat): Database
    requires p < |w.publishers|
  {
    if w.publishers[p].published && w.output.Some? && w.output.value.Compacted? then w.output.value.database
    else Temporary(w, p)
  }

  /** What a publisher found: the source at five of its steps, and its own file when it linked it. */
  datatype Findings = Findings(
    digested: Source,
    previewed: Source,
    compacted: Source,
    verified: Source,
    rechecked: Source,
    linked: Database)

  /** What the publisher's state and file owe to its findings, as far as it has come. */
  ghost predicate MadeOf(w: World, p: nat, found: Findings)
    requires p < |w.publishers|
  {
    var me, file := w.publishers[p], OwnFile(w, p);
    var reached := Reached(me);
    && (reached > 1 ==> me.before == found.digested)
    && (reached > 2 ==> PreviewOf(found.previewed.raw) == Success(me.preview))
    && (reached > 5 ==>
          file.tables == Compaction(found.compacted.raw) && file.recorded == me.before && file.preview == me.preview)
    && (reached > 6 ==> PassesCounting(file.preview.rawObservations, found.verified.raw, file.tables))
    && (reached > 8 ==> found.rechecked == me.before)
    && (reached > 9 ==> w.output == Some(Compacted(found.linked)))
  }

  /** What a step in the given stage adds to the findings. */
  function Find(found: Findings, stage: Stage, source: Source, file: Database): Findings {
    match stage
    case Digesting => found.(digested := source)
    case Previewing => found.(previewed := source)
    case Compacting => found.(compacted := source)
    case Verifying => found.(verified := source)
    case Rechecking => found.(rechecked := source)
    case Linking => found.(linked := file)
    case _ => found
  }

  lemma OtherStepKeepsMade(w: World, step: Step, p: nat, found: Findings)
    requires p < |w.publishers| && step != Advance(p) && Consistent(w, p) && MadeOf(w, p, found)
    requires w.publishers[p].published ==> Published(w, w.publishers[p].before)
    ensures MadeOf(Next(w, step), p, found)
    ensures Reached(Next(w, step).publishers[p]) <= Reached(w.publishers[p])
  {
    hide Compaction, SchemaHolds, PassesCounting, PreviewOf;
    if step != Fail(p) {
      OthersUntouched(w, step, p);
    }
    if w.output.Some? {
      StepKeepsOutput(w, step);
    }
  }

  lemma OwnStepKeepsMade(w: World, p: nat, found: Findings)
    requires p < |w.publishers| && Consistent(w, p) && MadeOf(w, p, found)
    requires w.publishers[p].published ==> Published(w, w.publishers[p].before)
    ensures MadeOf(Next(w, Advance(p)), p, Find(found, w.publishers[p].stage, w.source, Temporary(w, p)))
  {
    hide Compaction, SchemaHolds, PreviewOf, Mismatches;
  }

  lemma OwnStepReaches(w: World, p: nat)
    requires p < |w.publishers| && Consistent(w, p)
    ensures var me, next := w.publishers[p], Next(w, Advance(p)).publishers[p];
      || Reached(next) == 0
      || (Reached(next) == Reached(me) && Rank(me.stage) >= 10)
      || (Reached(me) == Rank(me.stage) < 10 && Reached(next) == Rank(me.stage) + 1)
  {
    hide Compaction, SchemaHolds, PassesCounting, PreviewOf;
  }

  /** The steps at which a publisher made its findings. */
  datatype Moments = Moments(digested: nat, previewed: nat, compacted: nat, verified: nat, rechecked: nat, linked: nat)

  ghost predicate SourceSeen(w: World, steps: seq<Step>, p: nat, stage: Stage, k: nat, source: Source) {
    Happens(w, steps, p, stage, k) && SourceAt(w, steps, k) == source
  }

  ghost predicate FileLinked(w: World, steps: seq<Step>, p: nat, k: nat, file: Database) {
    Happens(w, steps, p, Linking, k) && Temporary(Run(w, steps[..k]), p) == file
  }

  /** When the findings were made, as far as the publisher has come. */
  ghost predicate Dated(w: World, steps: seq<Step>, p: nat, reached: nat, m: Moments, found: Findings) {
    && (reached > 1 ==> SourceSeen(w, steps, p, Digesting, m.digested, found.digested))
    && (reached > 2 ==> SourceSeen(w, steps, p, Previewing, m.previewed, found.previewed))
    && (reached > 5 ==> SourceSeen(w, steps, p, Compacting, m.compacted, found.compacted))
    && (reached > 6 ==> SourceSeen(w, steps, p, Verifying, m.verified, found.verified))
    && (reached > 8 ==> SourceSeen(w, steps, p, Rechecking, m.rechecked, found.rechecked))
    && (reached > 9 ==> FileLinked(w, steps, p, m.linked, found.linked))
  }

  function Mark(m: Moments, stage: Stage, k: nat): Moments {
    match stage
    case Digesting => m.(digested := k)
    case Previewing => m.(previewed := k)
    case Compacting => m.(compacted := k)
    case Verifying => m.(verified := k)
    case Rechecking => m.(rechecked := k)
    case Linking => m.(linked := k)
    case _ => m
  }

  lemma StillDated(w: World, steps: seq<Step>, p: nat, reached: nat, m: Moments, found: Findings)
    requires steps != [] && Dated(w, steps[..|steps| - 1], p, reached, m, found)
    ensures Dated(w, steps, p, reached, m, found)
  {
    hide Run, SourceAfter;
    forall k: nat | k < |steps| ensures steps[..|steps| - 1][..k] == steps[..k] {
    }
  }

  lemma OwnStepDated(w: World, steps: seq<Step>, p: nat, m: Moments, found: Findings)
    requires steps != [] && steps[|steps| - 1] == Advance(p) && p < |w.publishers|
    requires Consistent(Run(w, steps[..|steps| - 1]), p)
    requires Dated(w, steps[..|steps| - 1], p, Reached(Run(w, steps[..|steps| - 1]).publishers[p]), m, found)
    ensures var before := Run(w, steps[..|steps| - 1]);
      Dated(w, steps, p, Reached(Run(w, steps).publishers[p]), Mark(m, before.publishers[p].stage, |steps| - 1),
            Find(found, before.publishers[p].stage, before.source, Temporary(before, p)))
  {
    hide Next, Run, Consistent, Dated, Mark, Find, Reached, Rank, SourceSeen, FileLinked;
    var n := |steps| - 1;
    var before := Run(w, steps[..n]);
    var me := before.publishers[p];
    assert steps[..n + 1] == steps;
    RunOneMore(w, steps, n);
    OwnStepReaches(before, p);
    StillDated(w, steps, p, Reached(me), m, found);
    OwnStepSeen(w, steps, p);
    if Reached(Run(w, steps).publishers[p]) == 0 {
      NothingDated(w, steps, p, Mark(m, me.stage, n), Find(found, me.stage, before.source, Temporary(before, p)));
    } else if Rank(me.stage) >= 10 {
      NothingToMark(m, found, me.stage, n, before.source, Temporary(before, p));
    } else {
      MarkDated(w, steps, p, me.stage, n, before.source, Temporary(before, p), m, found);
    }
  }

  lemma OwnStepSeen(w: World, steps: seq<Step>, p: nat)
    requires steps != [] && steps[|steps| - 1] == Advance(p) && p < |w.publishers|
    ensures var n, before := |steps| - 1, Run(w, steps[..|steps| - 1]);
      && SourceSeen(w, steps, p, before.publishers[p].stage, n, before.source)
      && (before.publishers[p].stage.Linking? ==> FileLinked(w, steps, p, n, Temporary(before, p)))
  {
    hide Run, SourceAfter;
    SourceFollows(w, steps[..|steps| - 1]);
  }

  lemma NothingToMark(m: Moments, found: Findings, stage: Stage, k: nat, source: Source, file: Database)
    requires Rank(stage) >= 10
    ensures Mark(m, stage, k) == m && Find(found, stage, source, file) == found
  {
  }

  lemma NothingDated(w: World, steps: seq<Step>, p: nat, m: Moments, found: Findings)
    ensures Dated(w, steps, p, 0, m, found)
  {
  }

  lemma MarkDated(w: World, steps: seq<Step>, p: nat, stage: Stage, k: nat, source: Source, file: Database, m: Moments, found: Findings)
    requires Dated(w, steps, p, Rank(stage), m, found) && SourceSeen(w, steps, p, stage, k, source)
    requires stage.Linking? ==> FileLinked(w, steps, p, k, file)
    requires Rank(stage) < 10
    ensures Dated(w, steps, p, Rank(stage) + 1, Mark(m, stage, k), Find(found, stage, source, file))
  {
    hide SourceSeen, FileLinked;
  }

  /** Every publisher's file is made of what it found at the moments that it has come past. */
  lemma {:induction false} Remember(w: World, steps: seq<Step>, p: nat) returns (m: Moments, found: Findings)
    requires Initial(w) && p < |w.publishers|
    ensures Dated(w, steps, p, Reached(Run(w, steps).publishers[p]), m, found)
    ensures MadeOf(Run(w, steps), p, found)
  {
    hide Next, Dated, MadeOf, Consistent, Published;
    if steps == [] {
      m, found := NothingYet(w, p);
    } else {
      var n := |steps| - 1;
      m, found := Remember(w, steps[..n], p);
      RunKeepsInvariant(w, steps[..n]);
      var before := Run(w, steps[..n]);
      if steps[n] == Advance(p) {
        OwnStepDated(w, steps, p, m, found);
        OwnStepKeepsMade(before, p, found);
        m := Mark(m, before.publishers[p].stage, n);
        found := Find(found, before.publishers[p].stage, before.source, Temporary(before, p));
      } else {
        OtherStepKeepsMade(before, steps[n], p, found);
        StillDated(w, steps, p, Reached(before.publishers[p]), m, found);
        LessDated(w, steps, p, Reached(before.publishers[p]), Reached(Run(w, steps).publishers[p]), m, found);
      }
    }
  }

  lemma LessDated(w: World, steps: seq<Step>, p: nat, reached: nat, less: nat, m: Moments, found: Findings)
    requires Dated(w, steps, p, reached, m, found) && less <= reached
    ensures Dated(w, steps, p, less, m, found)
  {
  }

  lemma NothingYet(w: World, p: nat) returns (m: Moments, found: Findings)
    requires Initial(w) && p < |w.publishers|
    ensures Dated(w, [], p, Reached(w.publishers[p]), m, found) && MadeOf(w, p, found)
  {
    m := Moments(0, 0, 0, 0, 0, 0);
    found := Findings(NO_SOURCE, NO_SOURCE, NO_SOURCE, NO_SOURCE, NO_SOURCE, NEW_FILE);
  }

  // ---------- What is published ----------

  /** The database at the output path. */
  function OutputFile(w: World): Database {
    if w.output.Some? && w.output.value.Compacted? then w.output.value.database else NEW_FILE
  }

  /** The moments of a publisher that has published: it took the digest, previewed, compacted,
      verified, took the digest again and linked, in this order. */
  ghost predicate Sequenced(w: World, steps: seq<Step>, p: nat, m: Moments) {
    && m.digested < m.previewed < m.compacted < m.verified < m.rechecked < m.linked
    && Happens(w, steps, p, Digesting, m.digested) && Happens(w, steps, p, Previewing, m.previewed)
    && Happens(w, steps, p, Compacting, m.compacted) && Happens(w, steps, p, Verifying, m.verified)
    && Happens(w, steps, p, Rechecking, m.rechecked) && Happens(w, steps, p, Linking, m.linked)
  }

  /** A publisher that has published went through all moments, and what stands at the output is what
      it read at them: the digest, the same again at the recheck, the preview, the compaction of the
      source as it then was, verified against the source as it then was, and linked unchanged. */
  lemma PublishedHistory(w: World, steps: seq<Step>, p: nat) returns (m: Moments)
    requires Initial(w) && p < |w.publishers| && Run(w, steps).publishers[p].published
    ensures Sequenced(w, steps, p, m)
    ensures var f := OutputFile(Run(w, steps));
      && f.recorded == SourceAt(w, steps, m.digested) == SourceAt(w, steps, m.rechecked)
      && PreviewOf(SourceAt(w, steps, m.previewed).raw) == Success(f.preview)
      && f.tables == Compaction(SourceAt(w, steps, m.compacted).raw) && SchemaHolds(f.tables)
      && PassesCounting(f.preview.rawObservations, SourceAt(w, steps, m.verified).raw, f.tables)
      && f == Temporary(Run(w, steps[..m.linked]), p)
    ensures Run(w, steps).output == Some(Compacted(OutputFile(Run(w, steps))))
  {
    hide Run, SourceAfter, Compaction, PreviewOf, PassesCounting, SchemaHolds;
    var found;
    m, found := Remember(w, steps, p);
    PublishedIsSound(w, steps, p);
    MomentsInOrder(w, steps, p, Digesting, m.digested, Previewing, m.previewed);
    MomentsInOrder(w, steps, p, Previewing, m.previewed, Compacting, m.compacted);
    MomentsInOrder(w, steps, p, Compacting, m.compacted, Verifying, m.verified);
    MomentsInOrder(w, steps, p, Verifying, m.verified, Rechecking, m.rechecked);
    MomentsInOrder(w, steps, p, Rechecking, m.rechecked, Linking, m.linked);
  }

  /** The published tables rebuild the observations that the source held when it was compacted. They
      are the tables of the source that the file records exactly when the source held the same rows at
      that moment as when the digest was taken; both moments exist and are unique. */
  lemma RecordedTablesIff(w: World, steps: seq<Step>, p: nat, digested: nat, compacted: nat)
    requires Initial(w) && p < |w.publishers| && Run(w, steps).publishers[p].published
    requires Happens(w, steps, p, Digesting, digested) && Happens(w, steps, p, Compacting, compacted)
    ensures var f, early, late := OutputFile(Run(w, steps)), SourceAt(w, steps, digested), SourceAt(w, steps, compacted);
      && multiset(Rebuild(f.tables)) == multiset(late.raw.observations)
      && (f.tables == Compaction(f.recorded.raw) <==> SameRows(late.raw, early.raw))
      && (multiset(Rebuild(f.tables)) == multiset(f.recorded.raw.observations) <==>
            multiset(late.raw.observations) == multiset(early.raw.observations))
  {
    hide Run, SourceAfter, Compaction, PreviewOf, PassesCounting, SchemaHolds, SameRows, Rebuild, RelationshipsHold;
    var m := PublishedHistory(w, steps, p);
    MomentsInOrder(w, steps, p, Digesting, digested, Digesting, m.digested);
    MomentsInOrder(w, steps, p, Compacting, compacted, Compacting, m.compacted);
    var late := SourceAt(w, steps, compacted).raw;
    CompactionKeepsConstraints(late);
    RawSchemaIsWellFormed(late);
    SameTablesIffSameRows(late, SourceAt(w, steps, digested).raw);
    CompactionIsLossless(late);
  }

  lemma RawSchemaIsWellFormed(raw: Raw)
    requires RawSchemaHolds(raw)
    ensures WellFormed(raw)
  {
    assert forall i, j :: 0 <= i < j < |raw.observations| ==> ObservationId(raw.observations[i]) != ObservationId(raw.observations[j]);
    assert forall i, j :: 0 <= i < j < |raw.relationships| ==> RelationshipId(raw.relationships[i]) != RelationshipId(raw.relationships[j]);
  }

  /** Between two steps the source does not return to what it was: once it has changed, it never
      becomes again what it was before. */
  ghost predicate NeverReturns(w: World, steps: seq<Step>, from: nat, to: nat)
    requires to <= |steps|
  {
    forall i, j, k :: from <= i <= j <= k <= to && SourceAt(w, steps, i) == SourceAt(w, steps, k) ==>
      SourceAt(w, steps, j) == SourceAt(w, steps, i)
  }

  /** If the source does not return to an earlier state between the publisher's two digests, what is
      published is the compaction of the source that it records. */
  lemma PublishedFromRecordedSource(w: World, steps: seq<Step>, p: nat, digested: nat, rechecked: nat)
    requires Initial(w) && p < |w.publishers| && Run(w, steps).publishers[p].published
    requires Happens(w, steps, p, Digesting, digested) && Happens(w, steps, p, Rechecking, rechecked)
    requires NeverReturns(w, steps, digested, rechecked)
    ensures var f := OutputFile(Run(w, steps));
      f.tables == Compaction(f.recorded.raw) && multiset(Rebuild(f.tables)) == multiset(f.recorded.raw.observations)
  {
    hide Run, SourceAfter, Compaction, PreviewOf, PassesCounting, SchemaHolds, Rebuild;
    var m := PublishedHistory(w, steps, p);
    MomentsInOrder(w, steps, p, Digesting, digested, Digesting, m.digested);
    MomentsInOrder(w, steps, p, Rechecking, rechecked, Rechecking, m.rechecked);
    assert SourceAt(w, steps, m.compacted) == SourceAt(w, steps, digested);
    CompactionIsLossless(SourceAt(w, steps, digested).raw);
  }

  /** The number of observations that a published file records is that of its tables. The number of
      signatures is so exactly when the source held as many distinct ones at the preview as when it
      was compacted: no check compares it. */
  lemma RecordedCounts(w: World, steps: seq<Step>, p: nat, previewed: nat, compacted: nat)
    requires Initial(w) && p < |w.publishers| && Run(w, steps).publishers[p].published
    requires Happens(w, steps, p, Previewing, previewed) && Happens(w, steps, p, Compacting, compacted)
    ensures var f := OutputFile(Run(w, steps));
      && f.preview.rawObservations == |f.tables.occurrences|
      && (f.preview.uniqueSignatures == |f.tables.signatures| <==>
            |DistinctKeys(SourceAt(w, steps, previewed).raw.observations)| == |DistinctKeys(SourceAt(w, steps, compacted).raw.observations)|)
  {
    hide Run, SourceAfter, Compaction, PassesCounting, SchemaHolds, Sort;
    var m := PublishedHistory(w, steps, p);
    PublishedIsSound(w, steps, p);
    MomentsInOrder(w, steps, p, Previewing, previewed, Previewing, m.previewed);
    MomentsInOrder(w, steps, p, Compacting, compacted, Compacting, m.compacted);
    NumberedFromOne(SourceAt(w, steps, compacted).raw);
    PreviewAgrees(SourceAt(w, steps, previewed).raw);
    NumberedFromOne(SourceAt(w, steps, previewed).raw);
  }

  /** At most one publisher succeeds, and the output is the file that it linked. */
  lemma AtMostOneSucceeds(w: World, steps: seq<Step>, p: nat, q: nat) returns (linked: nat)
    requires Initial(w) && p < |w.publishers| && q < |w.publishers|
    requires Run(w, steps).publishers[p].stage == Finished(true) && Run(w, steps).publishers[q].stage == Finished(true)
    ensures p == q
    ensures Happens(w, steps, p, Linking, linked)
    ensures Run(w, steps).output == Some(Compacted(Temporary(Run(w, steps[..linked]), p)))
  {
    hide Run, Published;
    RunKeepsInvariant(w, steps);
    var end := Run(w, steps);
    assert Consistent(end, p) && Consistent(end, q);
    var m := PublishedHistory(w, steps, p);
    linked := m.linked;
  }

  // ---------- Runs that the checks do not notice ----------

  /** One publisher's whole run, with the source changed before its preview, changed again before it is
      compacted, and changed back before the second digest. */
  function ThereAndBack(original: Source, previewed: Source, compacted: Source): seq<Step> {
    [Advance(0), Advance(0), SourceChanges(previewed), Advance(0), SourceChanges(compacted), Advance(0), Advance(0), Advance(0),
     Advance(0), Advance(0), SourceChanges(original), Advance(0), Advance(0), Advance(0), Advance(0)]
  }

  /** A world with one publisher. */
  function Alone(source: Source, output: Option<File>, temporaries: map<nat, Database>, me: Publisher): World {
    World(source, output, temporaries, [me])
  }

  lemma RunMore(w: World, steps: seq<Step>, n: nat, step: Step, middle: World, next: World)
    requires n < |steps| && steps[n] == step && Run(w, steps[..n]) == middle && Next(middle, step) == next
    ensures Run(w, steps[..n + 1]) == next
  {
    RunOneMore(w, steps, n);
  }

  /** What a compactable source leads to. */
  lemma Compactable(raw: Raw)
    requires RawSchemaHolds(raw)
    ensures SchemaHolds(Compaction(raw)) && PassesCounting(|raw.observations|, raw, Compaction(raw))
  {
    hide Compaction, SchemaHolds, RelationshipsHold, Mismatches;
    CompactionKeepsConstraints(raw);
    RawSchemaIsWellFormed(raw);
    CompactionPasses(raw);
  }

  /** The previewed source announces as many observations as the compacted one holds, and either has one
      generation. */
  ghost predicate SameSize(previewed: Raw, compacted: Raw) {
    |previewed.generations| == |compacted.generations| == 1 && |previewed.observations| == |compacted.observations|
  }

  lemma PreviewAnnounces(previewed: Raw, compacted: Raw)
    requires SameSize(previewed, compacted)
    ensures PreviewOf(previewed).Success? && PreviewOf(previewed).value.rawObservations == |compacted.observations|
    ensures compacted.generations != []
  {
  }

  lemma UntilCreating(original: Source, previewed: Source, compacted: Source, steps: seq<Step>)
    requires PreviewOf(previewed.raw).Success? && steps == ThereAndBack(original, previewed, compacted)
    ensures Run(Alone(original, None, map[], FRESH), steps[..5])
         == Alone(compacted, None, map[], Publisher(Creating, original, PreviewOf(previewed.raw).value, false, false))
  {
    hide Run, Compaction, SchemaHolds, PreviewOf, PassesCounting;
    var w := Alone(original, None, map[], FRESH);
    assert steps[..0] == [];
    NoSteps(w);
    var begun, me := FRESH.(stage := Digesting), Publisher(Previewing, original, NO_PREVIEW, false, false);
    var ready := Publisher(Creating, original, PreviewOf(previewed.raw).value, false, false);
    RunMore(w, steps, 0, Advance(0), w, Alone(original, None, map[], begun));
    RunMore(w, steps, 1, Advance(0), Alone(original, None, map[], begun), Alone(original, None, map[], me));
    RunMore(w, steps, 2, SourceChanges(previewed), Alone(original, None, map[], me), Alone(previewed, None, map[], me));
    RunMore(w, steps, 3, Advance(0), Alone(previewed, None, map[], me), Alone(previewed, None, map[], ready));
    RunMore(w, steps, 4, SourceChanges(compacted), Alone(previewed, None, map[], ready), Alone(compacted, None, map[], ready));
  }

  lemma NoSteps(w: World)
    ensures Run(w, []) == w
  {
  }

  lemma UntilVerifying(original: Source, previewed: Source, compacted: Source, steps: seq<Step>)
    requires PreviewOf(previewed.raw).Success? && steps == ThereAndBack(original, previewed, compacted)
    requires compacted.raw.generations != [] && SchemaHolds(Compaction(compacted.raw))
    ensures var preview := PreviewOf(previewed.raw).value;
      Run(Alone(original, None, map[], FRESH), steps[..8])
         == Alone(compacted, None, map[0 := Database(original, preview, Compaction(compacted.raw), false, false)],
                  Publisher(Verifying, original, preview, false, false))
  {
    hide Run, Compaction, SchemaHolds, PreviewOf, PassesCounting;
    var w := Alone(original, None, map[], FRESH);
    UntilCreating(original, previewed, compacted, steps);
    var preview := PreviewOf(previewed.raw).value;
    var me := Publisher(Creating, original, preview, false, false);
    var draft := Database(original, preview, Compaction(compacted.raw), false, false);
    var created := Alone(compacted, None, map[0 := NEW_FILE], me.(stage := Closing));
    RunMore(w, steps, 5, Advance(0), Alone(compacted, None, map[], me), created);
    RunMore(w, steps, 6, Advance(0), created, Alone(compacted, None, map[0 := NEW_FILE], me.(stage := Compacting)));
    RunMore(w, steps, 7, Advance(0), Alone(compacted, None, map[0 := NEW_FILE], me.(stage := Compacting)),
            Alone(compacted, None, map[0 := draft], me.(stage := Verifying)));
  }

  lemma UntilRechecking(original: Source, previewed: Source, compacted: Source, steps: seq<Step>)
    requires RawSchemaHolds(compacted.raw) && SameSize(previewed.raw, compacted.raw)
    requires steps == ThereAndBack(original, previewed, compacted)
    ensures PreviewOf(previewed.raw).Success?
    ensures var preview := PreviewOf(previewed.raw).value;
      Run(Alone(original, None, map[], FRESH), steps[..11])
         == Alone(original, None, map[0 := Database(original, preview, Compaction(compacted.raw), true, true)],
                  Publisher(Rechecking, original, preview, false, false))
  {
    hide Run, Compaction, SchemaHolds, PreviewOf, RawSchemaHolds, PassesCounting, SameSize;
    var w := Alone(original, None, map[], FRESH);
    Compactable(compacted.raw);
    PreviewAnnounces(previewed.raw, compacted.raw);
    UntilVerifying(original, previewed, compacted, steps);
    var preview := PreviewOf(previewed.raw).value;
    var me := Publisher(Verifying, original, preview, false, false);
    var draft := Database(original, preview, Compaction(compacted.raw), false, false);
    var frozen, intact := draft.(frozen := true), draft.(frozen := true, intact := true);
    var checking := Alone(compacted, None, map[0 := frozen], me.(stage := CheckingIntegrity));
    var rechecking := Alone(compacted, None, map[0 := intact], me.(stage := Rechecking));
    RunMore(w, steps, 8, Advance(0), Alone(compacted, None, map[0 := draft], me), checking);
    RunMore(w, steps, 9, Advance(0), checking, rechecking);
    RunMore(w, steps, 10, SourceChanges(original), rechecking, rechecking.(source := original));
  }

  /** How the run ends: the file records the original source and the preview of one source, and holds the
      tables of another. */
  lemma ThereAndBackSucceeds(original: Source, previewed: Source, compacted: Source)
    requires RawSchemaHolds(compacted.raw) && SameSize(previewed.raw, compacted.raw)
    ensures PreviewOf(previewed.raw).Success?
    ensures var preview := PreviewOf(previewed.raw).value;
      Run(Alone(original, None, map[], FRESH), ThereAndBack(original, previewed, compacted))
         == Alone(original, Some(Compacted(Database(original, preview, Compaction(compacted.raw), true, true))), map[],
                  Publisher(Finished(true), original, preview, true, false))
  {
    hide Run, Compaction, SchemaHolds, PreviewOf, RawSchemaHolds, SameSize;
    var w, steps := Alone(original, None, map[], FRESH), ThereAndBack(original, previewed, compacted);
    UntilRechecking(original, previewed, compacted, steps);
    var preview := PreviewOf(previewed.raw).value;
    var f := Database(original, preview, Compaction(compacted.raw), true, true);
    var me := Publisher(Rechecking, original, preview, false, false);
    var published := Some(Compacted(f));
    var cleaning := me.(stage := Cleaning, published := true);
    RunMore(w, steps, 11, Advance(0), Alone(original, None, map[0 := f], me), Alone(original, None, map[0 := f], me.(stage := Linking)));
    RunMore(w, steps, 12, Advance(0), Alone(original, None, map[0 := f], me.(stage := Linking)), Alone(original, published, map[0 := f], cleaning));
    assert map[0 := f] - {0} == map[];
    RunMore(w, steps, 13, Advance(0), Alone(original, published, map[0 := f], cleaning),
            Alone(original, published, map[], cleaning.(stage := Inspecting)));
    RunMore(w, steps, 14, Advance(0), Alone(original, published, map[], cleaning.(stage := Inspecting)),
            Alone(original, published, map[], cleaning.(stage := Finished(true))));
    assert steps[..15] == steps;
  }

  /** A publisher left alone with a source that meets its schema succeeds. And the digest check misses
      any source that is changed after the first digest and changed back before the second: the file
      then records the original and holds the tables of the other source. */
  lemma DigestCheckMissesReversion(original: Source, meantime: Source)
    requires RawSchemaHolds(meantime.raw) && |meantime.raw.generations| == 1
    ensures PreviewOf(meantime.raw).Success?
    ensures var preview := PreviewOf(meantime.raw).value;
      Run(Alone(original, None, map[], FRESH), ThereAndBack(original, meantime, meantime))
         == Alone(original, Some(Compacted(Database(original, preview, Compaction(meantime.raw), true, true))), map[],
                  Publisher(Finished(true), original, preview, true, false))
  {
    hide Run, Compaction, PreviewOf, RawSchemaHolds;
    ThereAndBackSucceeds(original, meantime, meantime);
  }

  /** Nor does any check notice a source that is another one at the preview only. The file then records
      the original and holds its tables, beside the counts of the other source: the number of signatures
      is wrong as soon as the two hold a different number of distinct ones. */
  lemma NoCheckOfTheSignatureCount(original: Source, meantime: Source)
    requires RawSchemaHolds(original.raw) && SameSize(meantime.raw, original.raw)
    ensures var end := Run(Alone(original, None, map[], FRESH), ThereAndBack(original, meantime, original));
      && end.publishers[0].stage == Finished(true)
      && OutputFile(end).recorded == original && OutputFile(end).tables == Compaction(original.raw)
      && PreviewOf(meantime.raw) == Success(OutputFile(end).preview)
      && (OutputFile(end).preview.uniqueSignatures == |OutputFile(end).tables.signatures| <==>
            |DistinctKeys(meantime.raw.observations)| == |DistinctKeys(original.raw.observations)|)
  {
    hide Run, Compaction, PreviewOf, RawSchemaHolds, DistinctKeys;
    ThereAndBackSucceeds(original, meantime, original);
    PreviewAgrees(meantime.raw);
    NumberedFromOne(meantime.raw);
    NumberedFromOne(original.raw);
  }

  /** Such sources exist: of two observations, one shares the other's key or does not. */
  lemma SignatureCountCanBeWrong(generation: string, a: Observation, b: Observation, key: SignatureKey)
    requires a.id != b.id && a.key == b.key != key && ValidKey(a.key) && ValidKey(key)
    ensures var original, meantime := Raw([generation], [a, b], []), Raw([generation], [a, b.(key := key)], []);
      && RawSchemaHolds(original) && SameSize(meantime, original)
      && |DistinctKeys(meantime.observations)| == 2 && |DistinctKeys(original.observations)| == 1
  {
    hide DistinctKeys, ValidKey, DistinctBy;
    TwoKeys(a, b);
    TwoKeys(a, b.(key := key));
    DistinctPair([a, b], ObservationId);
    NoRelationships(ObservationIds(Raw([generation], [a, b], [])));
  }

  lemma DistinctPair<T, K>(pair: seq<T>, key: T -> K)
    requires |pair| == 2 && key(pair[0]) != key(pair[1])
    ensures DistinctBy(pair, key)
  {
  }

  lemma NoRelationships(ids: set<int>)
    ensures RelationshipsHold([], ids)
  {
  }

  lemma TwoKeys(a: Observation, b: Observation)
    ensures |DistinctKeys([a, b])| == if a.key == b.key then 1 else 2
  {
    hide Sort, KeyLeq, FirstAppearances;
    SortPermutes(FirstAppearances(KeysIn([a, b])), KeyLeq);
    assert KeysIn([a, b]) == [a.key, b.key];
    TwoAppearances(a.key, b.key);
  }

  lemma TwoAppearances<K>(a: K, b: K)
    ensures FirstAppearances([a, b]) == if a == b then [a] else [a, b]
  {
    assert [a, b][..1] == [a] && [a][..0] == [];
    assert FirstAppearances([a]) == [a];
  }

  // ---------- Left alone ----------

  /** The twelve steps of a publisher that nothing disturbs. */
  function Undisturbed(n: nat): (r: seq<Step>)
    ensures |r| == n
  {
    seq(n, _ => Advance(0))
  }

  lemma AdvanceMore(w: World, n: nat, middle: World, next: World)
    requires Run(w, Undisturbed(n)) == middle && Next(middle, Advance(0)) == next
    ensures Run(w, Undisturbed(n + 1)) == next
  {
    hide Next;
    assert Undisturbed(n + 1)[..n] == Undisturbed(n);
  }

  lemma {:induction false} StaysFinished(w: World, n: nat, m: nat)
    requires n <= m && w.publishers != [] && Run(w, Undisturbed(n)).publishers[0].stage.Finished?
    ensures Run(w, Undisturbed(m)) == Run(w, Undisturbed(n))
  {
    hide Next, Run, Undisturbed;
    if n < m {
      StaysFinished(w, n, m - 1);
      var end := Run(w, Undisturbed(n));
      FinishedStands(end);
      AdvanceMore(w, m - 1, end, end);
    }
  }

  lemma FinishedStands(w: World)
    requires w.publishers != [] && w.publishers[0].stage.Finished?
    ensures Next(w, Advance(0)) == w
  {
  }

  lemma FirstSteps(source: Source, output: Option<File>)
    ensures var w, me := Alone(source, output, map[], FRESH), Publisher(Previewing, source, NO_PREVIEW, false, false);
      && Run(w, Undisturbed(1)) == (if output.Some? then Alone(source, output, map[], FRESH.(stage := Finished(false)))
                                    else Alone(source, None, map[], FRESH.(stage := Digesting)))
      && (output.None? ==> Run(w, Undisturbed(2)) == Alone(source, None, map[], me))
      && (output.None? && PreviewOf(source.raw).Failure? ==>
            Run(w, Undisturbed(3)) == Alone(source, None, map[], me.(stage := Finished(false))))
      && (output.None? && PreviewOf(source.raw).Success? ==>
            Run(w, Undisturbed(3)) == Alone(source, None, map[], me.(stage := Creating, preview := PreviewOf(source.raw).value)))
  {
    hide Run, Compaction, SchemaHolds, PreviewOf, PassesCounting;
    var w, me := Alone(source, output, map[], FRESH), Publisher(Previewing, source, NO_PREVIEW, false, false);
    NoSteps(w);
    assert Undisturbed(0) == [];
    AdvanceMore(w, 0, w, if output.Some? then Alone(source, output, map[], FRESH.(stage := Finished(false)))
                         else Alone(source, None, map[], FRESH.(stage := Digesting)));
    if output.None? {
      AdvanceMore(w, 1, Alone(source, None, map[], FRESH.(stage := Digesting)), Alone(source, None, map[], me));
      var preview := PreviewOf(source.raw);
      AdvanceMore(w, 2, Alone(source, None, map[], me),
                  Alone(source, None, map[], if preview.Failure? then me.(stage := Finished(false))
                                             else me.(stage := Creating, preview := preview.value)));
    }
  }

  lemma MiddleSteps(source: Source)
    requires PreviewOf(source.raw).Success? && source.raw.generations != []
    ensures var w := Alone(source, None, map[], FRESH);
      var me := Publisher(Compacting, source, PreviewOf(source.raw).value, false, false);
      && (!SchemaHolds(Compaction(source.raw)) ==>
            Run(w, Undisturbed(7)) == Alone(source, None, map[], me.(stage := Finished(false))))
      && (SchemaHolds(Compaction(source.raw)) ==>
            Run(w, Undisturbed(6)) == Alone(source, None, map[0 := Database(source, me.preview, Compaction(source.raw), false, false)],
                                            me.(stage := Verifying)))
  {
    hide Run, Compaction, SchemaHolds, PreviewOf, PassesCounting;
    var w := Alone(source, None, map[], FRESH);
    var me := Publisher(Compacting, source, PreviewOf(source.raw).value, false, false);
    FirstSteps(source, None);
    AdvanceMore(w, 3, Alone(source, None, map[], me.(stage := Creating)), Alone(source, None, map[0 := NEW_FILE], me.(stage := Closing)));
    AdvanceMore(w, 4, Alone(source, None, map[0 := NEW_FILE], me.(stage := Closing)), Alone(source, None, map[0 := NEW_FILE], me));
    if SchemaHolds(Compaction(source.raw)) {
      var draft := Database(source, me.preview, Compaction(source.raw), false, false);
      AdvanceMore(w, 5, Alone(source, None, map[0 := NEW_FILE], me), Alone(source, None, map[0 := draft], me.(stage := Verifying)));
    } else {
      var cleaning := Alone(source, None, map[0 := NEW_FILE], me.(stage := Cleaning));
      AdvanceMore(w, 5, Alone(source, None, map[0 := NEW_FILE], me), cleaning);
      assert map[0 := NEW_FILE] - {0} == map[];
      AdvanceMore(w, 6, cleaning, Alone(source, None, map[], me.(stage := Finished(false))));
    }
  }

  lemma LastSteps(source: Source)
    requires PreviewOf(source.raw).Success? && source.raw.generations != [] && SchemaHolds(Compaction(source.raw))
    requires PassesCounting(PreviewOf(source.raw).value.rawObservations, source.raw, Compaction(source.raw))
    ensures var preview := PreviewOf(source.raw).value;
      Run(Alone(source, None, map[], FRESH), Undisturbed(12))
        == Alone(source, Some(Compacted(Database(source, preview, Compaction(source.raw), true, true))), map[],
                 Publisher(Finished(true), source, preview, true, false))
  {
    hide Run, Compaction, SchemaHolds, PreviewOf, PassesCounting;
    var w := Alone(source, None, map[], FRESH);
    var me := Publisher(Verifying, source, PreviewOf(source.raw).value, false, false);
    var draft := Database(source, me.preview, Compaction(source.raw), false, false);
    var frozen, f := draft.(frozen := true), draft.(frozen := true, intact := true);
    var published, cleaning := Some(Compacted(f)), me.(stage := Cleaning, published := true);
    MiddleSteps(source);
    AdvanceMore(w, 6, Alone(source, None, map[0 := draft], me), Alone(source, None, map[0 := frozen], me.(stage := CheckingIntegrity)));
    AdvanceMore(w, 7, Alone(source, None, map[0 := frozen], me.(stage := CheckingIntegrity)), Alone(source, None, map[0 := f], me.(stage := Rechecking)));
    AdvanceMore(w, 8, Alone(source, None, map[0 := f], me.(stage := Rechecking)), Alone(source, None, map[0 := f], me.(stage := Linking)));
    AdvanceMore(w, 9, Alone(source, None, map[0 := f], me.(stage := Linking)), Alone(source, published, map[0 := f], cleaning));
    assert map[0 := f] - {0} == map[];
    AdvanceMore(w, 10, Alone(source, published, map[0 := f], cleaning), Alone(source, published, map[], cleaning.(stage := Inspecting)));
    AdvanceMore(w, 11, Alone(source, published, map[], cleaning.(stage := Inspecting)), Alone(source, published, map[], cleaning.(stage := Finished(true))));
  }

  /** Exactly when a publisher that nothing disturbs succeeds: no output yet, one generation, and rows that
      meet the schema. Then the output is the compaction of its source; otherwise nothing has changed. It
      leaves no temporary file either way. */
  lemma LeftAlone(source: Source, output: Option<File>)
    ensures var end := Run(Alone(source, output, map[], FRESH), Undisturbed(12));
      && end.temporaries == map[] && end.publishers[0].stage.Finished?
      && (end.publishers[0].stage == Finished(true) <==>
            output.None? && |source.raw.generations| == 1 && RawSchemaHolds(source.raw))
      && (end.publishers[0].stage == Finished(false) ==> end.output == output)
      && (end.publishers[0].stage == Finished(true) ==>
            && PreviewOf(source.raw).Success?
            && end.output == Some(Compacted(Database(source, PreviewOf(source.raw).value, Compaction(source.raw), true, true))))
  {
    var w := Alone(source, output, map[], FRESH);
    PreviewedIf(source.raw);
    hide Run, Compaction, SchemaHolds, PreviewOf, PassesCounting, RawSchemaHolds;
    FirstSteps(source, output);
    CompactionKeepsConstraints(source.raw);
    if output.Some? {
      StaysFinished(w, 1, 12);
    } else if PreviewOf(source.raw).Failure? {
      StaysFinished(w, 3, 12);
    } else {
      MiddleSteps(source);
      if SchemaHolds(Compaction(source.raw)) {
        Compactable(source.raw);
        LastSteps(source);
      } else {
        StaysFinished(w, 7, 12);
      }
    }
  }

  lemma PreviewedIf(raw: Raw)
    ensures PreviewOf(raw).Success? <==> |raw.generations| == 1
    ensures PreviewOf(raw).Success? ==> raw.generations != [] && PreviewOf(raw).value.rawObservations == |raw.observations|
  {
  }
}
