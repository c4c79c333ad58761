/** From the time plan to matrices: every build cell of every item ends up in exactly one
    matrix group of exactly one chunk, and no hour or execution is lost on the way. */
module ChunkPlans {
  import opened Results
  import opened Sorting
  import opened Aggregates
  import opened Sequences
  import opened Grouping
  import opened BlockPacking
  import opened RouteBundles
  import opened RoutePacking

  /** What the routes of one matrix have in common. */
  datatype MatrixKey = MatrixKey(batchAuthority: string, recipeId: string, treatmentIds: seq<string>)

  type Row = (MatrixKey, string)
  type Matrix = Group<MatrixKey, string>

  function RowOf(bundle: Bundle): Row {
    (MatrixKey(bundle.batchAuthority, bundle.recipeId, bundle.treatmentIds), bundle.routeId)
  }

  function Rows(chunk: Chunk): (r: seq<Row>)
    ensures |r| == |chunk|
  {
    seq(|chunk|, i requires 0 <= i < |chunk| => RowOf(chunk[i]))
  }

  // ---------- In terms of the bundles alone ----------

  ghost predicate Shares(bundle: Bundle, key: MatrixKey) {
    bundle.batchAuthority == key.batchAuthority && bundle.recipeId == key.recipeId && bundle.treatmentIds == key.treatmentIds
  }

  /** The matrix lists the routes of the bundles at the given places of the chunk: all that share its batch,
      recipe and treatments. */
  ghost predicate ListsAt(matrix: Matrix, chunk: Chunk, at: seq<nat>) {
    && Rising(at) && |at| == |matrix.values| && at != []
    && (forall k: nat :: k in at <==> k < |chunk| && Shares(chunk[k], matrix.key))
    && (forall i :: 0 <= i < |at| && at[i] < |chunk| ==> matrix.values[i] == chunk[at[i]].routeId)
  }

  ghost predicate Lists(matrix: Matrix, chunk: Chunk) {
    exists at :: ListsAt(matrix, chunk, at)
  }

  /** Matrices with different keys, every bundle in one of them, in the order in which the keys appear. */
  ghost predicate AreMatrices(matrices: seq<Matrix>, chunk: Chunk) {
    && (forall g :: 0 <= g < |matrices| ==> Lists(matrices[g], chunk))
    && (forall g, h :: 0 <= g < h < |matrices| ==> matrices[g].key != matrices[h].key)
    && (forall k :: 0 <= k < |chunk| ==> exists g :: 0 <= g < |matrices| && Shares(chunk[k], matrices[g].key))
    && (forall g, h, k :: 0 <= g < h < |matrices| && 0 <= k < |chunk| && Shares(chunk[k], matrices[h].key) ==>
          exists j :: 0 <= j < k && Shares(chunk[j], matrices[g].key))
  }

  lemma SharesIff(chunk: Chunk, k: nat, key: MatrixKey)
    requires k < |chunk|
    ensures KeysOf(Rows(chunk))[k] == key <==> Shares(chunk[k], key)
  {
  }

  lemma {:induction false} ValuesAt(chunk: Chunk, key: MatrixKey) returns (at: seq<nat>)
    ensures Rising(at) && |at| == |ValuesOf(Rows(chunk), key)|
    ensures forall k: nat :: k in at <==> k < |chunk| && Shares(chunk[k], key)
    ensures forall i :: 0 <= i < |at| && at[i] < |chunk| ==> ValuesOf(Rows(chunk), key)[i] == chunk[at[i]].routeId
  {
    if chunk == [] {
      at := [];
    } else {
      var n := |chunk| - 1;
      at := ValuesAt(chunk[..n], key);
      assert Rows(chunk)[..n] == Rows(chunk[..n]);
      assert forall i :: 0 <= i < |at| ==> at[i] in at;
      if Shares(chunk[n], key) {
        at := at + [n];
      }
    }
  }

  lemma KeysShared(chunk: Chunk)
    ensures forall k, key :: 0 <= k < |chunk| ==> (KeysOf(Rows(chunk))[k] == key <==> Shares(chunk[k], key))
  {
    hide Shares, KeysOf;
    forall k, key | 0 <= k < |chunk|
      ensures KeysOf(Rows(chunk))[k] == key <==> Shares(chunk[k], key)
    {
      SharesIff(chunk, k, key);
    }
  }

  lemma MatrixLists(chunk: Chunk, g: nat)
    requires g < |GroupsOf(Rows(chunk))|
    ensures Lists(GroupsOf(Rows(chunk))[g], chunk)
  {
    hide ValuesOf, FirstAppearances, Shares;
    var keys := KeysOf(Rows(chunk));
    var firsts := FirstAppearances(keys);
    FirstAppearancesDistinct(keys);
    KeysShared(chunk);
    var at := ValuesAt(chunk, firsts[g]);
    var k :| 0 <= k < |keys| && keys[k] == firsts[g];
    assert Shares(chunk[k], firsts[g]) && k in at;
    assert ListsAt(GroupsOf(Rows(chunk))[g], chunk, at);
  }

  lemma EveryBundleListed(chunk: Chunk, k: nat)
    requires k < |chunk|
    ensures exists g :: 0 <= g < |GroupsOf(Rows(chunk))| && Shares(chunk[k], GroupsOf(Rows(chunk))[g].key)
  {
    hide ValuesOf, FirstAppearances, Shares;
    var keys := KeysOf(Rows(chunk));
    FirstAppearancesDistinct(keys);
    KeysShared(chunk);
    assert keys[k] in FirstAppearances(keys);
    var g :| 0 <= g < |FirstAppearances(keys)| && FirstAppearances(keys)[g] == keys[k];
    assert GroupsOf(Rows(chunk))[g].key == keys[k];
  }

  lemma MatricesAppear(chunk: Chunk, g: nat, h: nat, k: nat)
    requires g < h < |GroupsOf(Rows(chunk))| && k < |chunk| && Shares(chunk[k], GroupsOf(Rows(chunk))[h].key)
    ensures exists j :: 0 <= j < k && Shares(chunk[j], GroupsOf(Rows(chunk))[g].key)
  {
    hide ValuesOf, FirstAppearances, Shares;
    var keys := KeysOf(Rows(chunk));
    KeysShared(chunk);
    FirstAppearancesInOrder(keys, g, h, k);
    var j :| 0 <= j < k && keys[j] == FirstAppearances(keys)[g];
    assert Shares(chunk[j], GroupsOf(Rows(chunk))[g].key);
  }

  lemma MatricesAre(chunk: Chunk)
    ensures AreMatrices(GroupsOf(Rows(chunk)), chunk)
  {
    hide ValuesOf, FirstAppearances, Shares, Lists, KeysOf, Rows;
    var matrices := GroupsOf(Rows(chunk));
    FirstAppearancesDistinct(KeysOf(Rows(chunk)));
    forall g | 0 <= g < |matrices|
      ensures Lists(matrices[g], chunk)
    {
      MatrixLists(chunk, g);
    }
    forall k | 0 <= k < |chunk|
      ensures exists g :: 0 <= g < |matrices| && Shares(chunk[k], matrices[g].key)
    {
      EveryBundleListed(chunk, k);
    }
    forall g, h, k | 0 <= g < h < |matrices| && 0 <= k < |chunk| && Shares(chunk[k], matrices[h].key)
      ensures exists j :: 0 <= j < k && Shares(chunk[j], matrices[g].key)
    {
      MatricesAppear(chunk, g, h, k);
    }
  }

  method MatrixGroups(chunk: Chunk) returns (groups: seq<Matrix>)
    ensures groups == GroupsOf(Rows(chunk))
    ensures AreMatrices(groups, chunk)
  {
    MatricesAre(chunk);
    groups := GroupRows(Rows(chunk));
  }

  // ---------- Cells ----------

  /** The cells of one route: one per treatment. */
  function RowCells(row: Row): (r: seq<Cell>)
    ensures |r| == |row.0.treatmentIds|
  {
    var key := row.0;
    seq(|key.treatmentIds|, i requires 0 <= i < |key.treatmentIds| =>
      Cell(key.batchAuthority, key.recipeId, row.1, key.treatmentIds[i]))
  }

  function BundleCells(bundle: Bundle): seq<Cell> {
    RowCells(RowOf(bundle))
  }

  /** The cells a matrix resolves to: its routes times its treatments. */
  function MatrixCells(matrix: Matrix): seq<Cell> {
    FlatMap(Ungroup(matrix), RowCells)
  }

  /** The cells an item stands for: its applicable routes times the authority's treatments. */
  function ItemCells(authorities: string -> Authority): WorkItem -> seq<Cell> {
    (item: WorkItem) =>
      var authority := authorities(item.batchAuthority);
      var matches := Matches(authority.libraries, item);
      if |matches| != 1 then []
      else RouteCells(item.batchAuthority, matches[0].recipeId,
                      Selected(authority.routes, matches[0].applicableRoutes), authority.treatments)
  }

  function RouteCells(batch: string, recipeId: string, routes: seq<string>, treatments: seq<string>): seq<Cell> {
    if routes == [] then []
    else
      RouteCells(batch, recipeId, routes[..|routes| - 1], treatments)
        + RowCells((MatrixKey(batch, recipeId, treatments), routes[|routes| - 1]))
  }

  lemma RowCellsAre(row: Row, cell: Cell)
    ensures cell in RowCells(row) <==>
      && cell.batchAuthority == row.0.batchAuthority && cell.recipeId == row.0.recipeId
      && cell.routeId == row.1 && cell.treatmentId in row.0.treatmentIds
  {
    if cell.batchAuthority == row.0.batchAuthority && cell.recipeId == row.0.recipeId && cell.routeId == row.1
      && cell.treatmentId in row.0.treatmentIds {
      var i :| 0 <= i < |row.0.treatmentIds| && row.0.treatmentIds[i] == cell.treatmentId;
      assert RowCells(row)[i] == cell;
    }
  }

  /** The cells of a matrix: each of its routes with each of its treatments. */
  lemma MatrixCellsAre(matrix: Matrix, cell: Cell)
    ensures cell in MatrixCells(matrix) <==>
      && cell.batchAuthority == matrix.key.batchAuthority && cell.recipeId == matrix.key.recipeId
      && cell.routeId in matrix.values && cell.treatmentId in matrix.key.treatmentIds
  {
    hide FlatMap, RowCells;
    var rows := Ungroup(matrix);
    if cell in MatrixCells(matrix) {
      var i := FlatMapOrigin(rows, cell, RowCells);
      RowCellsAre(rows[i], cell);
    }
    if cell.batchAuthority == matrix.key.batchAuthority && cell.recipeId == matrix.key.recipeId
      && cell.routeId in matrix.values && cell.treatmentId in matrix.key.treatmentIds {
      var i :| 0 <= i < |matrix.values| && matrix.values[i] == cell.routeId;
      RowCellsAre(rows[i], cell);
      FlatMapMember(rows, i, cell, RowCells);
    }
  }

  lemma {:induction false} RouteCellsAre(batch: string, recipeId: string, routes: seq<string>, treatments: seq<string>, cell: Cell)
    ensures cell in RouteCells(batch, recipeId, routes, treatments) <==>
      && cell.batchAuthority == batch && cell.recipeId == recipeId && cell.routeId in routes && cell.treatmentId in treatments
  {
    hide RowCells;
    if routes != [] {
      var n := |routes| - 1;
      RouteCellsAre(batch, recipeId, routes[..n], treatments, cell);
      RowCellsAre((MatrixKey(batch, recipeId, treatments), routes[n]), cell);
      assert routes == routes[..n] + [routes[n]];
    }
  }

  /** The cells of an item: each listed route that its library applies to, with each listed treatment. */
  lemma ItemCellsAre(item: WorkItem, authorities: string -> Authority, l: nat, cell: Cell)
    requires OnlyLibrary(item, authorities(item.batchAuthority), l)
    ensures var authority := authorities(item.batchAuthority);
      cell in ItemCells(authorities)(item) <==>
        && cell.batchAuthority == item.batchAuthority && cell.recipeId == authority.libraries[l].recipeId
        && cell.routeId in authority.routes && cell.routeId in authority.libraries[l].applicableRoutes
        && cell.treatmentId in authority.treatments
  {
    var authority := authorities(item.batchAuthority);
    assert l < |authority.libraries|;
    hide OnlyLibrary, Matches, Selected, RouteCells;
    MatchesOne(authority.libraries, item, authority);
    var matches := Matches(authority.libraries, item);
    var k: nat :| k < |authority.libraries| && OnlyLibrary(item, authority, k) && matches[0] == authority.libraries[k];
    OneLibrary(item, authority, l, k);
    RouteCellsAre(item.batchAuthority, matches[0].recipeId, Selected(authority.routes, matches[0].applicableRoutes), authority.treatments, cell);
    SelectedMembers(authority.routes, matches[0].applicableRoutes);
  }

  lemma SelectedMembers(routes: seq<string>, applicable: set<string>)
    ensures forall route :: route in Selected(routes, applicable) <==> route in routes && route in applicable
  {
    SelectMembers(routes, (route: string) => route in applicable);
  }

  lemma {:induction false} MakeBundlesCells(item: WorkItem, recipeId: string, routes: seq<string>, treatments: seq<string>, hours: real)
    ensures FlatMap(MakeBundles(item, recipeId, routes, treatments, hours), BundleCells)
         == RouteCells(item.batchAuthority, recipeId, routes, treatments)
  {
    if routes != [] {
      var front, last := routes[..|routes| - 1], routes[|routes| - 1];
      MakeBundlesCells(item, recipeId, front, treatments, hours);
      FlatMapSnoc(MakeBundles(item, recipeId, front, treatments, hours),
                  MakeBundle(item, recipeId, last, treatments, hours), BundleCells);
    }
  }

  lemma SplitCells(item: WorkItem, authorities: string -> Authority)
    requires Split(item, authorities(item.batchAuthority)).Success?
    ensures FlatMap(BundlesOf(authorities)(item), BundleCells) == ItemCells(authorities)(item)
  {
    hide FlatMap, Matches, Selected, MakeBundles, RouteCells;
    var authority := authorities(item.batchAuthority);
    var found := Matches(authority.libraries, item)[0];
    var routes := Selected(authority.routes, found.applicableRoutes);
    MakeBundlesCells(item, found.recipeId, routes, authority.treatments, item.hours / |routes| as real);
  }

  /** Splitting items into bundles keeps the cells, in order. */
  lemma {:induction false} SplitAllCells(items: seq<WorkItem>, authorities: string -> Authority)
    requires forall k :: 0 <= k < |items| ==> Split(items[k], authorities(items[k].batchAuthority)).Success?
    ensures FlatMap(FlatMap(items, BundlesOf(authorities)), BundleCells) == FlatMap(items, ItemCells(authorities))
  {
    hide Split, BundlesOf, ItemCells;
    if items != [] {
      var front, last := items[..|items| - 1], items[|items| - 1];
      SplitAllCells(front, authorities);
      SplitCells(last, authorities);
      FlatMapConcat(FlatMap(front, BundlesOf(authorities)), BundlesOf(authorities)(last), BundleCells);
    }
  }

  lemma {:induction false} RowsCells(chunk: Chunk)
    ensures FlatMap(Rows(chunk), RowCells) == FlatMap(chunk, BundleCells)
  {
    if chunk != [] {
      var front, last := chunk[..|chunk| - 1], chunk[|chunk| - 1];
      RowsCells(front);
      assert Rows(chunk)[..|front|] == Rows(front);
    }
  }

  lemma {:induction false} UngroupedCells(groups: seq<Matrix>)
    ensures FlatMap(Flatten(UngroupAll(groups)), RowCells) == FlatMap(groups, MatrixCells)
  {
    if groups == [] {
      assert Flatten(UngroupAll(groups)) == [];
    } else {
      var front, last := groups[..|groups| - 1], groups[|groups| - 1];
      UngroupedCells(front);
      assert UngroupAll(groups) == UngroupAll(front) + [Ungroup(last)];
      FlattenSnoc(UngroupAll(front), Ungroup(last));
      FlatMapConcat(Flatten(UngroupAll(front)), Ungroup(last), RowCells);
    }
  }

  /** Regrouping a chunk's bundles into matrices keeps its cells, each as often as before. */
  lemma MatricesKeepCells(chunk: Chunk)
    ensures multiset(FlatMap(GroupsOf(Rows(chunk)), MatrixCells)) == multiset(FlatMap(chunk, BundleCells))
  {
    hide FlatMap, GroupsOf, Flatten, MatrixCells, RowCells;
    var groups := GroupsOf(Rows(chunk));
    GroupsConserveRows(Rows(chunk));
    FlatMapPermute(Flatten(UngroupAll(groups)), Rows(chunk), RowCells);
    UngroupedCells(groups);
    RowsCells(chunk);
  }

  // ---------- The planner ----------

  datatype ChunkPlan = ChunkPlan(position: nat, executions: nat, hours: real, matrices: seq<Matrix>)

  datatype PlanError = Unsplittable(cause: BundleError) | TooLong(bundle: Bundle)

  function Executions(chunk: Chunk): nat {
    if chunk == [] then 0 else Executions(chunk[..|chunk| - 1]) + chunk[|chunk| - 1].executions
  }

  function PlanOf(chunk: Chunk, position: nat): ChunkPlan {
    ChunkPlan(position, Executions(chunk), ChunkHours(chunk), GroupsOf(Rows(chunk)))
  }

  function PlansOf(chunks: seq<Chunk>): (r: seq<ChunkPlan>)
    ensures |r| == |chunks|
  {
    seq(|chunks|, c requires 0 <= c < |chunks| => PlanOf(chunks[c], c + 1))
  }

  function PlanCells(plan: ChunkPlan): seq<Cell> {
    FlatMap(plan.matrices, MatrixCells)
  }

  function PlanHours(plan: ChunkPlan): real { plan.hours }

  function PlanExecutions(plan: ChunkPlan): real { plan.executions as real }

  /** The bundles of the whole plan, in queue order. */
  function AllBundles(items: seq<WorkItem>, authorities: string -> Authority): seq<Bundle> {
    FlatMap(Sort(items, Before), BundlesOf(authorities))
  }

  /** Each plan is that of its chunk: numbered from 1, with the chunk's hours and the matrices of its bundles. */
  ghost predicate PlansAre(plans: seq<ChunkPlan>, chunks: seq<Chunk>) {
    |plans| == |chunks| && forall c :: 0 <= c < |chunks| ==>
      plans[c].position == c + 1 && plans[c].hours == ChunkHours(chunks[c]) && AreMatrices(plans[c].matrices, chunks[c])
  }

  lemma PlansOfAre(chunks: seq<Chunk>)
    ensures PlansAre(PlansOf(chunks), chunks)
  {
    hide GroupsOf, AreMatrices, Executions;
    forall c | 0 <= c < |chunks|
      ensures AreMatrices(PlansOf(chunks)[c].matrices, chunks[c])
    {
      MatricesAre(chunks[c]);
    }
  }

  method CompileChunks(items: seq<WorkItem>, authorities: string -> Authority, target: real, maximum: real, tolerance: real)
    returns (r: Result<seq<ChunkPlan>, PlanError>)
    ensures r.Failure? && r.error.Unsplittable? <==>
      exists item :: item in items && Split(item, authorities(item.batchAuthority)).Failure?
    ensures r.Failure? && r.error.TooLong? ==>
      && r.error.bundle in AllBundles(items, authorities) && r.error.bundle.hours > maximum + tolerance
    ensures r.Success? ==> forall b :: b in AllBundles(items, authorities) ==> b.hours <= maximum + tolerance
    ensures r.Success? ==> exists chunks ::
      IsGreedy(chunks, AllBundles(items, authorities), target - tolerance, maximum + tolerance) && r.value == PlansOf(chunks)
    ensures r.Success? ==> exists bundles, chunks ::
      && AllSplit(bundles, items, authorities) && IsGreedy(chunks, bundles, target - tolerance, maximum + tolerance)
      && PlansAre(r.value, chunks)
    ensures r.Success? ==>
      && multiset(FlatMap(r.value, PlanCells)) == multiset(FlatMap(items, ItemCells(authorities)))
      && Weigh(r.value, PlanHours) == Weigh(items, HoursOf)
      && Weigh(r.value, PlanExecutions) == Weigh(items, ItemExecutions)
      && forall c :: 0 <= c < |r.value| ==>
           && r.value[c].position == c + 1 && r.value[c].hours <= maximum + tolerance
           && |PlanCells(r.value[c])| == r.value[c].executions
  {
    hide FlatMap, Weigh, GroupsOf, Executions, IsGreedy, Split, Sort, AllSplit, PlansAre, AreMatrices;
    var bundles := SplitRoutes(items, authorities);
    if bundles.Failure? {
      return Failure(Unsplittable(bundles.error));
    }
    var chunks := PackRouteBundles(bundles.value, target, maximum, tolerance);
    if chunks.Failure? {
      return Failure(TooLong(chunks.error));
    }
    var plans := [];
    for c := 0 to |chunks.value|
      invariant plans == PlansOf(chunks.value[..c])
    {
      var chunk := chunks.value[c];
      var matrices := MatrixGroups(chunk);
      plans := plans + [ChunkPlan(c + 1, Executions(chunk), ChunkHours(chunk), matrices)];
    }
    assert chunks.value[..|chunks.value|] == chunks.value;
    PlansConserve(items, authorities, bundles.value, chunks.value, target - tolerance, maximum + tolerance);
    PlansOfAre(chunks.value);
    r := Success(plans);
  }

  /** A chunk's execution count is its number of cells, if every bundle counts its treatments. */
  lemma {:induction false} ExecutionsCountCells(chunk: Chunk)
    requires forall i :: 0 <= i < |chunk| ==> chunk[i].executions == |chunk[i].treatmentIds|
    ensures |FlatMap(chunk, BundleCells)| == Executions(chunk)
    ensures Executions(chunk) as real == Weigh(chunk, BundleExecutions)
  {
    if chunk != [] {
      ExecutionsCountCells(chunk[..|chunk| - 1]);
    }
  }

  lemma {:induction false} BundlesCountTreatments(items: seq<WorkItem>, authorities: string -> Authority)
    ensures forall b :: b in FlatMap(items, BundlesOf(authorities)) ==> b.executions == |b.treatmentIds|
  {
    hide Matches, Selected;
    if items != [] {
      var front, last := items[..|items| - 1], items[|items| - 1];
      BundlesCountTreatments(front, authorities);
      var authority := authorities(last.batchAuthority);
      var split := Split(last, authority);
      if split.Success? {
        var found := Matches(authority.libraries, last)[0];
        var routes := Selected(authority.routes, found.applicableRoutes);
        MakeBundlesTreatments(last, found.recipeId, routes, authority.treatments, last.hours / |routes| as real);
      }
    }
  }

  lemma {:induction false} MakeBundlesTreatments(item: WorkItem, recipeId: string, routes: seq<string>, treatments: seq<string>, hours: real)
    ensures forall b :: b in MakeBundles(item, recipeId, routes, treatments, hours) ==> b.executions == |b.treatmentIds|
  {
    if routes != [] {
      MakeBundlesTreatments(item, recipeId, routes[..|routes| - 1], treatments, hours);
    }
  }

  lemma {:induction false} PlansCells(chunks: seq<Chunk>)
    ensures multiset(FlatMap(PlansOf(chunks), PlanCells)) == multiset(FlatMap(Flatten(chunks), BundleCells))
  {
    hide GroupsOf, MatrixCells, RowCells, Executions, Weigh;
    if chunks == [] {
      assert Flatten(chunks) == [];
    } else {
      var front, last := chunks[..|chunks| - 1], chunks[|chunks| - 1];
      PlansCells(front);
      MatricesKeepCells(last);
      assert PlansOf(chunks) == PlansOf(front) + [PlanOf(last, |chunks|)];
      FlatMapSnoc(PlansOf(front), PlanOf(last, |chunks|), PlanCells);
      FlatMapConcat(Flatten(front), last, BundleCells);
    }
  }

  lemma {:induction false} PlansTotals(chunks: seq<Chunk>)
    requires forall b :: b in Flatten(chunks) ==> b.executions == |b.treatmentIds|
    ensures Weigh(PlansOf(chunks), PlanHours) == Weigh(Flatten(chunks), BundleHours)
    ensures Weigh(PlansOf(chunks), PlanExecutions) == Weigh(Flatten(chunks), BundleExecutions)
    ensures forall c :: 0 <= c < |chunks| ==> |PlanCells(PlansOf(chunks)[c])| == Executions(chunks[c])
  {
    hide GroupsOf, MatrixCells, RowCells, Executions, Weigh;
    if chunks == [] {
      assert Flatten(chunks) == [];
      WeighNothing(PlanHours);
      WeighNothing(PlanExecutions);
      WeighNothing(BundleHours);
      WeighNothing(BundleExecutions);
    } else {
      var front, last := chunks[..|chunks| - 1], chunks[|chunks| - 1];
      PlansTotals(front);
      var plan := PlanOf(last, |chunks|);
      assert PlansOf(chunks) == PlansOf(front) + [plan];
      WeighSnoc(PlansOf(front), plan, PlanHours);
      WeighSnoc(PlansOf(front), plan, PlanExecutions);
      WeighConcat(Flatten(front), last, BundleHours);
      WeighConcat(Flatten(front), last, BundleExecutions);
      assert forall i :: 0 <= i < |last| ==> last[i] in Flatten(chunks);
      ExecutionsCountCells(last);
      MatricesKeepCells(last);
      SameMultisetSameLength(PlanCells(plan), FlatMap(last, BundleCells));
    }
  }

  lemma SameMultisetSameLength<T>(a: seq<T>, b: seq<T>)
    requires multiset(a) == multiset(b)
    ensures |a| == |b|
  {
    assert |multiset(a)| == |a| && |multiset(b)| == |b|;
  }

  /** Splitting, packing and regrouping conserve cells, hours and executions. */
  lemma PlansConserve(items: seq<WorkItem>, authorities: string -> Authority, bundles: seq<Bundle>, chunks: seq<Chunk>, full: real, ceiling: real)
    requires forall item :: item in items ==> Split(item, authorities(item.batchAuthority)).Success?
    requires bundles == AllBundles(items, authorities)
    requires IsGreedy(chunks, bundles, full, ceiling)
    ensures multiset(FlatMap(PlansOf(chunks), PlanCells)) == multiset(FlatMap(items, ItemCells(authorities)))
    ensures Weigh(PlansOf(chunks), PlanHours) == Weigh(items, HoursOf)
    ensures Weigh(PlansOf(chunks), PlanExecutions) == Weigh(items, ItemExecutions)
    ensures forall c :: 0 <= c < |chunks| ==> |PlanCells(PlansOf(chunks)[c])| == Executions(chunks[c])
    ensures forall c :: 0 <= c < |chunks| ==> PlansOf(chunks)[c].hours <= ceiling
  {
    hide FlatMap, Weigh, GroupsOf, Executions, Split, Sort, ItemCells, BundlesOf, PlanCells;
    var sorted := Sort(items, Before);
    SortPermutes(items, Before);
    SortMembers(items, Before);
    assert forall k :: 0 <= k < |sorted| ==> sorted[k] in items;
    SplitAllCells(sorted, authorities);
    SplitAllTotals(sorted, authorities);
    BundlesCountTreatments(sorted, authorities);
    FlatMapPermute(sorted, items, ItemCells(authorities));
    WeighPermute(sorted, items, HoursOf);
    WeighPermute(sorted, items, ItemExecutions);
    PlansCells(chunks);
    PlansTotals(chunks);
  }

  // ---------- How many chunks ----------

  /** Every bundle of an item takes the same share of its time. */
  lemma SplitShares(item: WorkItem, authority: Authority)
    requires Split(item, authority).Success?
    ensures var bundles := Split(item, authority).value;
      bundles != [] && forall i :: 0 <= i < |bundles| ==> bundles[i].hours == item.hours / |bundles| as real
  {
    hide MakeBundles, Matches, Selected;
    var found := Matches(authority.libraries, item)[0];
    var routes := Selected(authority.routes, found.applicableRoutes);
    MakeBundlesUniform(item, found.recipeId, routes, authority.treatments, item.hours / |routes| as real);
  }

  lemma ShareSign(hours: real, n: nat)
    requires n > 0 && hours >= 0.0
    ensures hours / n as real >= 0.0 && (hours > 0.0 ==> hours / n as real > 0.0)
  {
  }

  lemma {:induction false} BundlesTakeTime(items: seq<WorkItem>, authorities: string -> Authority)
    requires forall k :: 0 <= k < |items| ==> Split(items[k], authorities(items[k].batchAuthority)).Success? && items[k].hours >= 0.0
    ensures var bundles := FlatMap(items, BundlesOf(authorities));
      && NonNegativeHours(bundles)
      && (items != [] ==> bundles != [])
      && (items != [] && items[|items| - 1].hours > 0.0 ==> bundles[|bundles| - 1].hours > 0.0)
  {
    hide Split;
    if items != [] {
      var front, last := items[..|items| - 1], items[|items| - 1];
      BundlesTakeTime(front, authorities);
      SplitShares(last, authorities(last.batchAuthority));
      ShareSign(last.hours, |BundlesOf(authorities)(last)|);
    }
  }

  /** Every item without duration comes before one that takes time. */
  ghost predicate QueueEndsWithTime(items: seq<WorkItem>) {
    forall x :: x in items ==> x.hours > 0.0 || exists y :: y in items && y.hours > 0.0 && !Before(y, x)
  }

  lemma NothingBehindLast(items: seq<WorkItem>, y: WorkItem)
    requires y in items
    ensures var sorted := Sort(items, Before); sorted != [] && Before(y, sorted[|sorted| - 1])
  {
    hide Sort, Before;
    var sorted := Sort(items, Before);
    SortMembers(items, Before);
    BeforeIsAnOrder();
    SortSorts(items, Before);
    assert y in sorted;
    var i :| 0 <= i < |sorted| && sorted[i] == y;
    assert Before(y, y);
  }

  lemma LastItemTakesTime(items: seq<WorkItem>)
    requires QueueEndsWithTime(items) && items != []
    ensures var sorted := Sort(items, Before); sorted != [] && sorted[|sorted| - 1].hours > 0.0
  {
    hide Sort, Before;
    var sorted := Sort(items, Before);
    SortMembers(items, Before);
    NothingBehindLast(items, items[0]);
    assert sorted[|sorted| - 1] in items;
    forall y | y in items
      ensures Before(y, sorted[|sorted| - 1])
    {
      NothingBehindLast(items, y);
    }
  }

  /** For a queue that ends with an item that takes time, no order-preserving partition of the plan's
      bundles within the target has fewer chunks. */
  lemma PlanHasFewestChunks(items: seq<WorkItem>, authorities: string -> Authority, chunks: seq<Chunk>, other: seq<Chunk>, full: real, ceiling: real)
    requires forall item :: item in items ==> Split(item, authorities(item.batchAuthority)).Success? && item.hours >= 0.0
    requires QueueEndsWithTime(items)
    requires IsGreedy(chunks, AllBundles(items, authorities), full, ceiling) && full <= ceiling
    requires WithinTarget(other, AllBundles(items, authorities), full)
    ensures |chunks| <= |other|
  {
    hide Split, Sort, FlatMap, BundlesOf, Before, Flatten, QueueEndsWithTime;
    var sorted := Sort(items, Before);
    SortMembers(items, Before);
    assert forall k :: 0 <= k < |sorted| ==> sorted[k] in items;
    BundlesTakeTime(sorted, authorities);
    if items == [] {
      SortPermutes(items, Before);
      FlattenOfNonEmpty(chunks);
      NothingMapped(BundlesOf(authorities));
    } else {
      LastItemTakesTime(items);
      FewestIfLastTakesTime(chunks, other, AllBundles(items, authorities), full, ceiling);
    }
  }

  lemma NothingMapped<T, U>(f: T -> seq<U>)
    ensures FlatMap([], f) == []
  {
  }

  lemma FlattenOfNonEmpty(chunks: seq<Chunk>)
    requires forall c :: 0 <= c < |chunks| ==> chunks[c] != []
    ensures chunks != [] ==> Flatten(chunks) != []
  {
  }
}
