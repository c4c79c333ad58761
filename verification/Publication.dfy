/** Publishing a compact database: any number of publishers, one output path, and a failure
    possible at every step. Each publisher digests the source, previews it, builds a temporary
    file, verifies it, checks the source again, links the file to the output and removes the
    temporary name. */
module Publication {
  import opened Results
  import opened LaneCompaction
  import opened LaneChecks

  /** A raw database file: its rows, and whatever else its bytes depend on. Its digest is modelled
      by the file itself. */
  datatype Source = Source(layout: int, raw: Raw)

  /** A compact database file: the digest and the preview that it records, and its tables. */
  datatype Database = Database(recorded: Source, preview: Preview, tables: Compact, frozen: bool, intact: bool)

  const NO_SOURCE := Source(0, Raw([], [], []))
  const NO_PREVIEW := Preview(0, 0, 0)
  const NEW_FILE := Database(NO_SOURCE, NO_PREVIEW, Compact([], [], [], []), false, false)

  /** What may stand at the output path. */
  datatype File = Compacted(database: Database) | Foreign

  datatype Stage =
    | Start
    | Digesting
    | Previewing
    | Creating
    | Closing
    | Compacting
    | Verifying
    | CheckingIntegrity
    | Rechecking
    | Linking
    | Cleaning
    | Inspecting
    | Finished(succeeded: bool)

  /** `before` is the digest taken first. `published` is set when the link succeeds, `leaked` when a
      step fails that leaves the temporary file behind. */
  datatype Publisher = Publisher(stage: Stage, before: Source, preview: Preview, published: bool, leaked: bool)

  const FRESH := Publisher(Start, NO_SOURCE, NO_PREVIEW, false, false)

  /** The raw source, the output path, and each publisher's temporary file. */
  datatype World = World(source: Source, output: Option<File>, temporaries: map<nat, Database>, publishers: seq<Publisher>)

  datatype Step =
    | Advance(publisher: nat)
    | Fail(publisher: nat)
    | SourceChanges(source: Source)
    | OtherFileAppears

  function Move(w: World, p: nat, next: Publisher): (r: World)
    requires p < |w.publishers|
    ensures |r.publishers| == |w.publishers|
  {
    w.(publishers := w.publishers[p := next])
  }

  /** The temporary file that `p` is working on. */
  function Temporary(w: World, p: nat): Database {
    if p in w.temporaries then w.temporaries[p] else NEW_FILE
  }

  function Write(w: World, p: nat, file: Database, next: Publisher): (r: World)
    requires p < |w.publishers|
    ensures |r.publishers| == |w.publishers|
  {
    Move(w, p, next).(temporaries := w.temporaries[p := file])
  }

  /** What publisher `p` does next when nothing outside its control goes wrong in the step. */
  function Proceed(w: World, p: nat): (r: World)
    requires p < |w.publishers|
    ensures |r.publishers| == |w.publishers|
  {
    var me := w.publishers[p];
    var raw, file := w.source.raw, Temporary(w, p);
    match me.stage
    case Start =>
      Move(w, p, me.(stage := if w.output.Some? then Finished(false) else Digesting))
    case Digesting =>
      Move(w, p, me.(stage := Previewing, before := w.source))
    case Previewing =>
      (match PreviewOf(raw)
       case Failure(_) => Move(w, p, me.(stage := Finished(false)))
       case Success(preview) => Move(w, p, me.(stage := Creating, preview := preview)))
    case Creating =>
      Write(w, p, NEW_FILE, me.(stage := Closing))
    case Closing =>
      Move(w, p, me.(stage := Compacting))
    case Compacting =>
      if raw.generations == [] || !SchemaHolds(Compaction(raw)) then Move(w, p, me.(stage := Cleaning))
      else Write(w, p, Database(me.before, me.preview, Compaction(raw), false, false), me.(stage := Verifying))
    case Verifying =>
      if !PassesCounting(me.preview.rawObservations, raw, file.tables) then Move(w, p, me.(stage := Cleaning))
      else Write(w, p, file.(frozen := true), me.(stage := CheckingIntegrity))
    case CheckingIntegrity =>
      Write(w, p, file.(intact := true), me.(stage := Rechecking))
    case Rechecking =>
      Move(w, p, me.(stage := if w.source != me.before then Cleaning else Linking))
    case Linking =>
      if w.output.Some? then Move(w, p, me.(stage := Cleaning))
      else Move(w, p, me.(stage := Cleaning, published := true)).(output := Some(Compacted(file)))
    case Cleaning =>
      Move(w, p, me.(stage := if me.published then Inspecting else Finished(false))).(temporaries := w.temporaries - {p})
    case Inspecting =>
      Move(w, p, me.(stage := Finished(true)))
    case Finished(_) => w
  }

  /** What an exception in publisher `p`'s current step leads to. Until the temporary file is
      protected by the cleanup, an error ends the publisher on the spot. */
  function Abort(w: World, p: nat): (r: World)
    requires p < |w.publishers|
    ensures |r.publishers| == |w.publishers|
  {
    var me := w.publishers[p];
    match me.stage
    case Closing => Move(w, p, me.(stage := Finished(false), leaked := true))
    case Compacting => Move(w, p, me.(stage := Cleaning))
    case Verifying => Move(w, p, me.(stage := Cleaning))
    case CheckingIntegrity => Move(w, p, me.(stage := Cleaning))
    case Rechecking => Move(w, p, me.(stage := Cleaning))
    case Linking => Move(w, p, me.(stage := Cleaning))
    case Cleaning => Move(w, p, me.(stage := Finished(false), leaked := true))
    case Finished(_) => w
    case _ => Move(w, p, me.(stage := Finished(false)))
  }

  function Next(w: World, step: Step): (r: World)
    ensures |r.publishers| == |w.publishers|
  {
    match step
    case Advance(p) => if p < |w.publishers| then Proceed(w, p) else w
    case Fail(p) => if p < |w.publishers| then Abort(w, p) else w
    case SourceChanges(source) => w.(source := source)
    case OtherFileAppears => if w.output.Some? then w else w.(output := Some(Foreign))
  }

  function Run(w: World, steps: seq<Step>): (r: World)
    ensures |r.publishers| == |w.publishers|
  {
    if steps == [] then w else Next(Run(w, steps[..|steps| - 1]), steps[|steps| - 1])
  }

  /** No publisher has begun. The output may or may not exist. */
  ghost predicate Initial(w: World) {
    w.temporaries == map[] && forall p :: 0 <= p < |w.publishers| ==> w.publishers[p] == FRESH
  }

  // ---------- The invariant ----------

  /** The database that may be linked. */
  ghost predicate Sound(f: Database) {
    f.frozen && f.intact && SchemaHolds(f.tables) && |f.tables.occurrences| == f.preview.rawObservations
  }

  ghost predicate Published(w: World, before: Source) {
    && w.output.Some? && w.output.value.Compacted?
    && Sound(w.output.value.database) && w.output.value.database.recorded == before
  }

  /** What publisher `p`'s temporary file looks like at each stage. */
  ghost predicate Consistent(w: World, p: nat)
    requires p < |w.publishers|
  {
    var me, file := w.publishers[p], Temporary(w, p);
    match me.stage
    case Start => p !in w.temporaries && !me.published && !me.leaked
    case Digesting => p !in w.temporaries && !me.published && !me.leaked
    case Previewing => p !in w.temporaries && !me.published && !me.leaked
    case Creating => p !in w.temporaries && !me.published && !me.leaked
    case Closing => p in w.temporaries && !me.published && !me.leaked
    case Compacting => p in w.temporaries && !me.published && !me.leaked
    case Verifying => Draft(w, p) && !me.published && !me.leaked
    case CheckingIntegrity => Verified(w, p) && !me.published && !me.leaked
    case Rechecking => Verified(w, p) && file.intact && !me.published && !me.leaked
    case Linking => Verified(w, p) && file.intact && !me.published && !me.leaked
    case Cleaning => p in w.temporaries && !me.leaked
    case Inspecting => p !in w.temporaries && me.published && !me.leaked
    case Finished(succeeded) => (p in w.temporaries <==> me.leaked) && (succeeded ==> me.published)
  }

  ghost predicate Draft(w: World, p: nat)
    requires p < |w.publishers|
  {
    && p in w.temporaries && SchemaHolds(w.temporaries[p].tables)
    && w.temporaries[p].recorded == w.publishers[p].before && w.temporaries[p].preview == w.publishers[p].preview
  }

  ghost predicate Verified(w: World, p: nat)
    requires p < |w.publishers|
  {
    && Draft(w, p) && w.temporaries[p].frozen
    && |w.temporaries[p].tables.occurrences| == w.publishers[p].preview.rawObservations
  }

  ghost predicate Invariant(w: World) {
    && (forall p :: 0 <= p < |w.publishers| ==> Consistent(w, p))
    && (forall p, q :: 0 <= p < q < |w.publishers| ==> !(w.publishers[p].published && w.publishers[q].published))
    && (forall p :: 0 <= p < |w.publishers| && w.publishers[p].published ==> Published(w, w.publishers[p].before))
  }

  /** One publisher's step leaves every other publisher's file and state alone. */
  lemma OthersUntouched(w: World, step: Step, q: nat)
    requires q < |w.publishers| && step != Advance(q) && step != Fail(q)
    ensures Next(w, step).publishers[q] == w.publishers[q]
    ensures (q in Next(w, step).temporaries) == (q in w.temporaries)
    ensures Temporary(Next(w, step), q) == Temporary(w, q)
  {
    hide Compaction, SchemaHolds, PassesCounting, PreviewOf;
  }

  /** An existing output is never replaced. */
  lemma StepKeepsOutput(w: World, step: Step)
    requires w.output.Some?
    ensures Next(w, step).output == w.output
  {
    hide Compaction, SchemaHolds, PassesCounting, PreviewOf;
  }

  lemma OwnStepConsistent(w: World, p: nat, step: Step)
    requires p < |w.publishers| && Consistent(w, p) && (step == Advance(p) || step == Fail(p))
    ensures Consistent(Next(w, step), p)
  {
    hide Compaction, SchemaHolds, Mismatches, PreviewOf;
  }

  lemma StepKeepsPublished(w: World, step: Step, p: nat)
    requires p < |w.publishers| && Consistent(w, p)
    ensures w.publishers[p].published ==>
      Next(w, step).publishers[p].published && Next(w, step).publishers[p].before == w.publishers[p].before
    ensures !w.publishers[p].published && Next(w, step).publishers[p].published ==>
      && w.output.None? && step == Advance(p) && w.publishers[p].stage.Linking?
      && Next(w, step).output == Some(Compacted(Temporary(w, p)))
      && Next(w, step).publishers[p].before == w.publishers[p].before
  {
    hide Compaction, SchemaHolds, PassesCounting, PreviewOf;
  }

  lemma OthersConsistent(w: World, step: Step, q: nat)
    requires q < |w.publishers| && Consistent(w, q) && step != Advance(q) && step != Fail(q)
    ensures Consistent(Next(w, step), q)
  {
    hide Next, SchemaHolds;
    OthersUntouched(w, step, q);
  }

  lemma OnePublishes(w: World, step: Step, p: nat, q: nat)
    requires Invariant(w) && p < q < |w.publishers|
    ensures !(Next(w, step).publishers[p].published && Next(w, step).publishers[q].published)
  {
    hide Next, Sound, Consistent;
    assert Consistent(w, p) && Consistent(w, q);
    StepKeepsPublished(w, step, p);
    StepKeepsPublished(w, step, q);
    assert w.publishers[p].published ==> Published(w, w.publishers[p].before);
    assert w.publishers[q].published ==> Published(w, w.publishers[q].before);
  }

  lemma PublishedAfter(w: World, step: Step, p: nat)
    requires Invariant(w) && p < |w.publishers| && Next(w, step).publishers[p].published
    ensures Published(Next(w, step), Next(w, step).publishers[p].before)
  {
    hide Next, SchemaHolds;
    assert Consistent(w, p);
    StepKeepsPublished(w, step, p);
    if w.publishers[p].published {
      assert Published(w, w.publishers[p].before);
      StepKeepsOutput(w, step);
    }
  }

  lemma StepKeepsInvariant(w: World, step: Step)
    requires Invariant(w)
    ensures Invariant(Next(w, step))
  {
    hide Next, Consistent, Published;
    var next := Next(w, step);
    forall p | 0 <= p < |next.publishers| ensures Consistent(next, p) {
      if step == Advance(p) || step == Fail(p) {
        OwnStepConsistent(w, p, step);
      } else {
        OthersConsistent(w, step, p);
      }
    }
    forall p, q | 0 <= p < q < |next.publishers|
      ensures !(next.publishers[p].published && next.publishers[q].published)
    {
      OnePublishes(w, step, p, q);
    }
    forall p | 0 <= p < |next.publishers| && next.publishers[p].published
      ensures Published(next, next.publishers[p].before)
    {
      PublishedAfter(w, step, p);
    }
  }

  lemma {:induction false} RunKeepsInvariant(w: World, steps: seq<Step>)
    requires Initial(w)
    ensures Invariant(Run(w, steps))
  {
    hide Next, Invariant;
    if steps == [] {
      InitialInvariant(w);
    } else {
      RunKeepsInvariant(w, steps[..|steps| - 1]);
      StepKeepsInvariant(Run(w, steps[..|steps| - 1]), steps[|steps| - 1]);
    }
  }

  lemma InitialInvariant(w: World)
    requires Initial(w)
    ensures Invariant(w)
  {
  }

  // ---------- Safety over whole runs ----------

  /** Over any continuation, an existing output stays what it is. */
  lemma {:induction false} OutputNeverReplaced(w: World, steps: seq<Step>)
    requires w.output.Some?
    ensures Run(w, steps).output == w.output
  {
    hide Next;
    if steps != [] {
      OutputNeverReplaced(w, steps[..|steps| - 1]);
      StepKeepsOutput(Run(w, steps[..|steps| - 1]), steps[|steps| - 1]);
    }
  }

  /** With an output already there, nobody publishes. */
  lemma {:induction false} NobodyPublishesOverExisting(w: World, steps: seq<Step>, p: nat)
    requires Initial(w) && w.output.Some? && p < |w.publishers|
    ensures !Run(w, steps).publishers[p].published
  {
    hide Next, Consistent;
    if steps != [] {
      var before := Run(w, steps[..|steps| - 1]);
      RunKeepsInvariant(w, steps[..|steps| - 1]);
      NobodyPublishesOverExisting(w, steps[..|steps| - 1], p);
      OutputNeverReplaced(w, steps[..|steps| - 1]);
      StepKeepsPublished(before, steps[|steps| - 1], p);
    }
  }

  /** With an output already there, nobody even begins a file. */
  lemma {:induction false} NobodyBuildsOverExisting(w: World, steps: seq<Step>, p: nat)
    requires Initial(w) && w.output.Some? && p < |w.publishers|
    ensures p !in Run(w, steps).temporaries
    ensures var me := Run(w, steps).publishers[p]; me == FRESH || me == FRESH.(stage := Finished(false))
  {
    hide Next;
    if steps != [] {
      NobodyBuildsOverExisting(w, steps[..|steps| - 1], p);
      OutputNeverReplaced(w, steps[..|steps| - 1]);
      StaysOut(Run(w, steps[..|steps| - 1]), steps[|steps| - 1], p);
    }
  }

  lemma StaysOut(w: World, step: Step, p: nat)
    requires p < |w.publishers| && w.output.Some? && p !in w.temporaries
    requires w.publishers[p] == FRESH || w.publishers[p] == FRESH.(stage := Finished(false))
    ensures p !in Next(w, step).temporaries
    ensures Next(w, step).publishers[p] == FRESH || Next(w, step).publishers[p] == FRESH.(stage := Finished(false))
  {
    hide Compaction, SchemaHolds, PassesCounting, PreviewOf;
    if step != Advance(p) && step != Fail(p) {
      OthersUntouched(w, step, p);
    }
  }

  /** What is published is frozen and intact, meets the schema, holds as many occurrences as the
      preview it records announces, and records the digest its publisher took first. */
  lemma PublishedIsSound(w: World, steps: seq<Step>, p: nat)
    requires Initial(w) && p < |w.publishers| && Run(w, steps).publishers[p].published
    ensures Published(Run(w, steps), Run(w, steps).publishers[p].before)
  {
    hide Run, Published, Consistent;
    RunKeepsInvariant(w, steps);
  }

  /** The failing step that leaves a file behind: publisher `p` fails while closing or cleaning. */
  ghost predicate LeakingFailure(w: World, steps: seq<Step>, k: nat, p: nat) {
    && k < |steps| && steps[k] == Fail(p) && p < |w.publishers|
    && (Run(w, steps[..k]).publishers[p].stage.Closing? || Run(w, steps[..k]).publishers[p].stage.Cleaning?)
  }

  lemma {:induction false} LeakMeansFailure(w: World, steps: seq<Step>, p: nat) returns (k: nat)
    requires Initial(w) && p < |w.publishers| && Run(w, steps).publishers[p].leaked
    ensures LeakingFailure(w, steps, k, p)
  {
    hide Next;
    var n := |steps| - 1;
    var before := Run(w, steps[..n]);
    if before.publishers[p].leaked {
      k := LeakMeansFailure(w, steps[..n], p);
      assert steps[..n][..k] == steps[..k];
    } else {
      k := n;
      LeaksOnlyByFailing(before, steps[n], p);
    }
  }

  lemma LeaksOnlyByFailing(w: World, step: Step, p: nat)
    requires p < |w.publishers| && !w.publishers[p].leaked && Next(w, step).publishers[p].leaked
    ensures step == Fail(p) && (w.publishers[p].stage.Closing? || w.publishers[p].stage.Cleaning?)
  {
    hide Compaction, SchemaHolds, PassesCounting, PreviewOf;
    if step != Advance(p) && step != Fail(p) {
      OthersUntouched(w, step, p);
    }
  }

  lemma FinishedForGood(w: World, step: Step, p: nat)
    requires p < |w.publishers| && w.publishers[p].stage.Finished?
    ensures Next(w, step).publishers[p] == w.publishers[p]
  {
    hide Compaction, SchemaHolds, PassesCounting, PreviewOf;
    if step != Advance(p) && step != Fail(p) {
      OthersUntouched(w, step, p);
    }
  }

  lemma FailingLeaks(w: World, p: nat)
    requires p < |w.publishers| && (w.publishers[p].stage.Closing? || w.publishers[p].stage.Cleaning?)
    ensures Next(w, Fail(p)).publishers[p].leaked && Next(w, Fail(p)).publishers[p].stage.Finished?
  {
  }

  lemma {:induction false} FailureMeansLeak(w: World, steps: seq<Step>, k: nat, p: nat)
    requires LeakingFailure(w, steps, k, p)
    ensures Run(w, steps).publishers[p].leaked && Run(w, steps).publishers[p].stage.Finished?
  {
    hide Next;
    var n := |steps| - 1;
    if k == n {
      FailingLeaks(Run(w, steps[..n]), p);
    } else {
      assert steps[..n][..k] == steps[..k];
      FailureMeansLeak(w, steps[..n], k, p);
      FinishedForGood(Run(w, steps[..n]), steps[n], p);
    }
  }

  /** A publisher that has finished leaves its temporary file behind exactly when its own closing of
      the new file, or its own cleanup, failed. */
  lemma TemporaryLeftIffCleanupFailed(w: World, steps: seq<Step>, p: nat)
    requires Initial(w) && p < |w.publishers| && Run(w, steps).publishers[p].stage.Finished?
    ensures p in Run(w, steps).temporaries <==> exists k :: LeakingFailure(w, steps, k, p)
  {
    hide Run, LeakingFailure;
    RunKeepsInvariant(w, steps);
    assert Consistent(Run(w, steps), p);
    if Run(w, steps).publishers[p].leaked {
      var k := LeakMeansFailure(w, steps, p);
    }
    forall k | LeakingFailure(w, steps, k, p)
      ensures p in Run(w, steps).temporaries
    {
      FailureMeansLeak(w, steps, k, p);
    }
  }

  /** A failure after the link: publisher `p` has published and fails while cleaning or inspecting. */
  ghost predicate LateFailure(w: World, steps: seq<Step>, k: nat, p: nat) {
    && k < |steps| && steps[k] == Fail(p) && p < |w.publishers|
    && var me := Run(w, steps[..k]).publishers[p];
       me.published && (me.stage.Cleaning? || me.stage.Inspecting?)
  }

  lemma FailsPublishedOnlyLate(w: World, step: Step, p: nat)
    requires p < |w.publishers| && Consistent(w, p) && !w.publishers[p].stage.Finished?
    requires Next(w, step).publishers[p].stage == Finished(false) && Next(w, step).publishers[p].published
    ensures step == Fail(p) && w.publishers[p].published
    ensures w.publishers[p].stage.Cleaning? || w.publishers[p].stage.Inspecting?
  {
    hide Compaction, SchemaHolds, PassesCounting, PreviewOf;
    if step != Advance(p) && step != Fail(p) {
      OthersUntouched(w, step, p);
    }
  }

  lemma {:induction false} PublishedMeansLate(w: World, steps: seq<Step>, p: nat) returns (k: nat)
    requires Initial(w) && p < |w.publishers|
    requires Run(w, steps).publishers[p].stage == Finished(false) && Run(w, steps).publishers[p].published
    ensures LateFailure(w, steps, k, p)
  {
    hide Next, Consistent;
    var n := |steps| - 1;
    var before := Run(w, steps[..n]);
    RunKeepsInvariant(w, steps[..n]);
    if before.publishers[p].stage.Finished? {
      FinishedForGood(before, steps[n], p);
      k := PublishedMeansLate(w, steps[..n], p);
      assert steps[..n][..k] == steps[..k];
    } else {
      k := n;
      FailsPublishedOnlyLate(before, steps[n], p);
    }
  }

  lemma FailingLate(w: World, p: nat)
    requires p < |w.publishers| && (w.publishers[p].stage.Inspecting? || w.publishers[p].stage.Cleaning?)
    ensures var next := Next(w, Fail(p)).publishers[p];
      next.stage == Finished(false) && next.published == w.publishers[p].published
  {
  }

  lemma {:induction false} LateMeansPublished(w: World, steps: seq<Step>, k: nat, p: nat)
    requires LateFailure(w, steps, k, p)
    ensures Run(w, steps).publishers[p].published && Run(w, steps).publishers[p].stage == Finished(false)
  {
    hide Next;
    var n := |steps| - 1;
    if k == n {
      FailingLate(Run(w, steps[..n]), p);
    } else {
      assert steps[..n][..k] == steps[..k];
      LateMeansPublished(w, steps[..n], k, p);
      FinishedForGood(Run(w, steps[..n]), steps[n], p);
    }
  }

  /** A publisher that raises has nevertheless published exactly when it failed after its link: while
      removing the temporary name, or while inspecting what it had published. */
  lemma FailedYetPublishedIff(w: World, steps: seq<Step>, p: nat)
    requires Initial(w) && p < |w.publishers| && Run(w, steps).publishers[p].stage == Finished(false)
    ensures Run(w, steps).publishers[p].published <==> exists k :: LateFailure(w, steps, k, p)
  {
    hide Run, LateFailure;
    if Run(w, steps).publishers[p].published {
      var k := PublishedMeansLate(w, steps, p);
    }
    forall k | LateFailure(w, steps, k, p)
      ensures Run(w, steps).publishers[p].published
    {
      LateMeansPublished(w, steps, k, p);
    }
  }
}
