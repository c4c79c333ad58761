/** Splitting planned work items into route bundles: one library, one route, all treatments. */
module RouteBundles {
  import opened Results
  import opened Sorting
  import opened Lexicographic
  import opened Sums
  import opened Aggregates
  import opened Sequences
  import opened BlockPacking

  datatype Library = Library(id: string, version: string, recipeId: string, applicableRoutes: set<string>)

  /** A width authority: its libraries, and its routes and treatments in authority order. */
  datatype Authority = Authority(libraries: seq<Library>, routes: seq<string>, treatments: seq<string>)

  datatype Bundle = Bundle(
    rank: int,
    sourceId: string,
    version: string,
    recipeId: string,
    batchAuthority: string,
    routeId: string,
    treatmentIds: seq<string>,
    executions: nat,
    hours: real)

  datatype BundleError =
    | SourceMoved(item: WorkItem)
    | NotSplittable(item: WorkItem)
    | DividedByNoRoutes(item: WorkItem)

  /** One scheduled build: the unit that every stage of the planner must keep. */
  datatype Cell = Cell(batchAuthority: string, recipeId: string, routeId: string, treatmentId: string)

  /** Queue order of items: by rank, then by source. */
  predicate Before(a: WorkItem, b: WorkItem) {
    a.rank < b.rank || (a.rank == b.rank && LexLeq(a.sourceId, b.sourceId))
  }

  /** The libraries of the item's source and version. */
  function Matches(libraries: seq<Library>, item: WorkItem): seq<Library> {
    Select(libraries, (library: Library) => library.id == item.sourceId && library.version == item.version)
  }

  /** The authority's routes that apply, in authority order. */
  function Selected(routes: seq<string>, applicable: set<string>): seq<string> {
    Select(routes, (route: string) => route in applicable)
  }

  function MakeBundle(item: WorkItem, recipeId: string, route: string, treatments: seq<string>, hours: real): Bundle {
    Bundle(item.rank, item.sourceId, item.version, recipeId, item.batchAuthority, route, treatments, |treatments|, hours)
  }

  function MakeBundles(item: WorkItem, recipeId: string, routes: seq<string>, treatments: seq<string>, hours: real): seq<Bundle> {
    if routes == [] then []
    else
      MakeBundles(item, recipeId, routes[..|routes| - 1], treatments, hours)
        + [MakeBundle(item, recipeId, routes[|routes| - 1], treatments, hours)]
  }

  function Split(item: WorkItem, authority: Authority): Result<seq<Bundle>, BundleError> {
    var matches := Matches(authority.libraries, item);
    if |matches| != 1 then Failure(SourceMoved(item))
    else
      var routes := Selected(authority.routes, matches[0].applicableRoutes);
      if item.executions != |routes| * |authority.treatments| then Failure(NotSplittable(item))
      else if routes == [] then Failure(DividedByNoRoutes(item))
      else Success(MakeBundles(item, matches[0].recipeId, routes, authority.treatments, item.hours / |routes| as real))
  }

  function BundlesOf(authorities: string -> Authority): WorkItem -> seq<Bundle> {
    (item: WorkItem) =>
      var split := Split(item, authorities(item.batchAuthority));
      if split.Success? then split.value else []
  }

  // ---------- In terms of the item, its library and its authority ----------

  /** The library at `l` is the one of the item's source and version. */
  ghost predicate OnlyLibrary(item: WorkItem, authority: Authority, l: nat) {
    && l < |authority.libraries|
    && (forall k :: 0 <= k < |authority.libraries| ==>
          (authority.libraries[k].id == item.sourceId && authority.libraries[k].version == item.version <==> k == l))
  }

  /** `at` are the places, in order, of the listed routes that the library applies to. */
  ghost predicate RoutesAt(authority: Authority, library: Library, at: seq<nat>) {
    && Rising(at)
    && (forall k: nat :: k in at <==> k < |authority.routes| && authority.routes[k] in library.applicableRoutes)
  }

  /** One bundle for each of these routes, in the listed order, with an equal share of the hours and all
      treatments; everything else is the item's, its library's or its authority's. */
  ghost predicate BundledAt(bundles: seq<Bundle>, item: WorkItem, authority: Authority, library: Library, at: seq<nat>) {
    && |bundles| == |at|
    && forall i :: 0 <= i < |at| && at[i] < |authority.routes| ==>
         && bundles[i].routeId == authority.routes[at[i]]
         && bundles[i].rank == item.rank && bundles[i].sourceId == item.sourceId && bundles[i].version == item.version
         && bundles[i].batchAuthority == item.batchAuthority && bundles[i].recipeId == library.recipeId
         && bundles[i].treatmentIds == authority.treatments && bundles[i].executions == |authority.treatments|
         && bundles[i].hours == item.hours / |at| as real
  }

  ghost predicate SplitsAt(bundles: seq<Bundle>, item: WorkItem, authority: Authority, l: nat, at: seq<nat>) {
    && OnlyLibrary(item, authority, l) && RoutesAt(authority, authority.libraries[l], at)
    && at != [] && item.executions == |at| * |authority.treatments|
    && BundledAt(bundles, item, authority, authority.libraries[l], at)
  }

  ghost predicate SplitsInto(bundles: seq<Bundle>, item: WorkItem, authority: Authority) {
    exists l: nat, at :: SplitsAt(bundles, item, authority, l, at)
  }

  /** Why an item does not split: no library or several, another number of executions than routes times
      treatments, or nothing to divide its hours by. */
  ghost predicate Refused(error: BundleError, authority: Authority) {
    match error
    case SourceMoved(item) => forall l: nat :: !OnlyLibrary(item, authority, l)
    case NotSplittable(item) =>
      exists l: nat, at :: OnlyLibrary(item, authority, l) && RoutesAt(authority, authority.libraries[l], at)
        && item.executions != |at| * |authority.treatments|
    case DividedByNoRoutes(item) =>
      item.executions == 0 && exists l: nat :: OnlyLibrary(item, authority, l) && RoutesAt(authority, authority.libraries[l], [])
  }

  lemma MatchesOne(libraries: seq<Library>, item: WorkItem, authority: Authority)
    requires libraries == authority.libraries
    ensures |Matches(libraries, item)| == 1 ==>
      exists l: nat :: l < |libraries| && OnlyLibrary(item, authority, l) && Matches(libraries, item)[0] == libraries[l]
    ensures (exists l: nat :: OnlyLibrary(item, authority, l)) ==> |Matches(libraries, item)| == 1
  {
    hide Select;
    var at := SelectEmbeds(libraries, (library: Library) => library.id == item.sourceId && library.version == item.version);
    var found := Matches(libraries, item);
    if |found| == 1 {
      assert at == [at[0]];
      assert forall k: nat :: k in at <==> k == at[0];
      assert OnlyLibrary(item, authority, at[0]);
    }
    forall l: nat | OnlyLibrary(item, authority, l)
      ensures |found| == 1
    {
      assert l in at;
      assert at[0] in at && at[|at| - 1] in at;
      SamePlace(at, 0, |at| - 1);
    }
  }

  lemma SelectedAt(authority: Authority, library: Library) returns (at: seq<nat>)
    ensures RoutesAt(authority, library, at) && Embeds(at, Selected(authority.routes, library.applicableRoutes), authority.routes)
  {
    hide Select;
    at := SelectEmbeds(authority.routes, (route: string) => route in library.applicableRoutes);
  }

  lemma {:induction false} MakeBundlesAre(item: WorkItem, recipeId: string, routes: seq<string>, treatments: seq<string>, hours: real)
    ensures var bundles := MakeBundles(item, recipeId, routes, treatments, hours);
      |bundles| == |routes| && forall i :: 0 <= i < |bundles| ==> bundles[i] == MakeBundle(item, recipeId, routes[i], treatments, hours)
  {
    if routes != [] {
      MakeBundlesAre(item, recipeId, routes[..|routes| - 1], treatments, hours);
    }
  }

  lemma OneLibrary(item: WorkItem, authority: Authority, l: nat, k: nat)
    requires OnlyLibrary(item, authority, l) && OnlyLibrary(item, authority, k)
    ensures l == k
  {
    assert authority.libraries[k].id == item.sourceId && authority.libraries[k].version == item.version;
  }

  /** What a split yields. */
  lemma SplitYields(item: WorkItem, authority: Authority)
    ensures var split := Split(item, authority);
      if split.Success? then SplitsInto(split.value, item, authority) else split.error.item == item && Refused(split.error, authority)
  {
    hide Select, MakeBundles, OnlyLibrary, RoutesAt;
    MatchesOne(authority.libraries, item, authority);
    var matches := Matches(authority.libraries, item);
    if |matches| == 1 {
      var l: nat :| l < |authority.libraries| && OnlyLibrary(item, authority, l) && matches[0] == authority.libraries[l];
      var routes := Selected(authority.routes, matches[0].applicableRoutes);
      var at := SelectedAt(authority, matches[0]);
      MakeBundlesAre(item, matches[0].recipeId, routes, authority.treatments, if routes == [] then 0.0 else item.hours / |routes| as real);
      assert |at| == |routes|;
      if Split(item, authority).Success? {
        assert SplitsAt(Split(item, authority).value, item, authority, l, at);
      } else if routes == [] {
        assert at == [];
      }
    }
  }

  /** The split is determined: nothing else counts as one, and a refused item has none. */
  lemma SplitIff(item: WorkItem, authority: Authority, bundles: seq<Bundle>)
    ensures Split(item, authority) == Success(bundles) <==> SplitsInto(bundles, item, authority)
  {
    hide Split, OnlyLibrary, BundledAt, Rising;
    SplitYields(item, authority);
    if SplitsInto(bundles, item, authority) {
      var l: nat, at :| SplitsAt(bundles, item, authority, l, at);
      SplitFound(item, authority, l, at);
      var l': nat, at' :| SplitsAt(Split(item, authority).value, item, authority, l', at');
      OneLibrary(item, authority, l, l');
      SamePlaces(at, at');
      BundledOnce(bundles, Split(item, authority).value, item, authority, l, at);
    }
  }

  lemma BundledOnce(a: seq<Bundle>, b: seq<Bundle>, item: WorkItem, authority: Authority, l: nat, at: seq<nat>)
    requires SplitsAt(a, item, authority, l, at) && SplitsAt(b, item, authority, l, at)
    ensures a == b
  {
    forall i | 0 <= i < |at|
      ensures a[i] == b[i]
    {
      assert at[i] in at;
    }
  }

  lemma SplitFound(item: WorkItem, authority: Authority, l: nat, at: seq<nat>)
    requires OnlyLibrary(item, authority, l) && RoutesAt(authority, authority.libraries[l], at)
    requires at != [] && item.executions == |at| * |authority.treatments|
    ensures Split(item, authority).Success?
  {
    hide Select, MakeBundles, OnlyLibrary;
    MatchesOne(authority.libraries, item, authority);
    var matches := Matches(authority.libraries, item);
    var k: nat :| k < |authority.libraries| && OnlyLibrary(item, authority, k) && matches[0] == authority.libraries[k];
    OneLibrary(item, authority, l, k);
    var places := SelectedAt(authority, matches[0]);
    SamePlaces(at, places);
  }

  /** A route has a bundle exactly when the authority lists it and the library applies to it. */
  lemma BundledIff(bundles: seq<Bundle>, item: WorkItem, authority: Authority, l: nat, route: string)
    requires SplitsInto(bundles, item, authority) && OnlyLibrary(item, authority, l)
    ensures (exists bundle :: bundle in bundles && bundle.routeId == route) <==>
      route in authority.routes && route in authority.libraries[l].applicableRoutes
  {
    assert l < |authority.libraries|;
    hide OnlyLibrary, Rising;
    var k: nat, at :| SplitsAt(bundles, item, authority, k, at);
    OneLibrary(item, authority, l, k);
    BundledRoutes(bundles, item, authority, authority.libraries[l], at, route);
  }

  lemma BundledRoutes(bundles: seq<Bundle>, item: WorkItem, authority: Authority, library: Library, at: seq<nat>, route: string)
    requires RoutesAt(authority, library, at) && BundledAt(bundles, item, authority, library, at)
    ensures (exists bundle :: bundle in bundles && bundle.routeId == route) <==>
      route in authority.routes && route in library.applicableRoutes
  {
    hide Rising;
    forall i | 0 <= i < |at|
      ensures at[i] < |authority.routes| && bundles[i].routeId == authority.routes[at[i]] && bundles[i].routeId in library.applicableRoutes
    {
      assert at[i] in at;
    }
    if route in authority.routes && route in library.applicableRoutes {
      var j :| 0 <= j < |authority.routes| && authority.routes[j] == route;
      assert j in at;
      var i :| 0 <= i < |at| && at[i] == j;
      assert bundles[i] in bundles;
    }
  }

  /** By rank, and by source within a rank. */
  ghost predicate QueueLeq(a: WorkItem, b: WorkItem) {
    a.rank < b.rank || (a.rank == b.rank && TextLeq(a.sourceId, b.sourceId))
  }

  ghost predicate InQueueOrder(order: seq<WorkItem>, items: seq<WorkItem>) {
    multiset(order) == multiset(items) && forall i, j :: 0 <= i < j < |order| ==> QueueLeq(order[i], order[j])
  }

  lemma BeforeIff(a: WorkItem, b: WorkItem)
    ensures Before(a, b) <==> QueueLeq(a, b)
  {
    LexLeqIff(a.sourceId, b.sourceId);
  }

  /** The items in queue order, the bundles of each, and all of them one after the other. */
  ghost predicate SplitInOrder(bundles: seq<Bundle>, items: seq<WorkItem>, authorities: string -> Authority,
                               order: seq<WorkItem>, parts: seq<seq<Bundle>>) {
    && InQueueOrder(order, items) && |parts| == |order| && Flatten(parts) == bundles
    && forall i :: 0 <= i < |order| ==> SplitsInto(parts[i], order[i], authorities(order[i].batchAuthority))
  }

  ghost predicate AllSplit(bundles: seq<Bundle>, items: seq<WorkItem>, authorities: string -> Authority) {
    exists order, parts :: SplitInOrder(bundles, items, authorities, order, parts)
  }

  lemma SortedInQueueOrder(items: seq<WorkItem>)
    ensures InQueueOrder(Sort(items, Before), items)
  {
    hide Sort, Before, QueueLeq;
    var order := Sort(items, Before);
    SortPermutes(items, Before);
    BeforeIsAnOrder();
    SortSorts(items, Before);
    forall i, j | 0 <= i < j < |order|
      ensures QueueLeq(order[i], order[j])
    {
      BeforeIff(order[i], order[j]);
    }
  }

  lemma SortedSplit(items: seq<WorkItem>, authorities: string -> Authority)
    requires forall k :: 0 <= k < |Sort(items, Before)| ==>
      Split(Sort(items, Before)[k], authorities(Sort(items, Before)[k].batchAuthority)).Success?
    ensures AllSplit(FlatMap(Sort(items, Before), BundlesOf(authorities)), items, authorities)
  {
    hide Sort, Before, Split, SplitsInto, InQueueOrder;
    var order := Sort(items, Before);
    SortedInQueueOrder(items);
    var parts := seq(|order|, i requires 0 <= i < |order| => BundlesOf(authorities)(order[i]));
    FlatMapFlattens(order, BundlesOf(authorities), parts);
    forall i | 0 <= i < |order|
      ensures SplitsInto(parts[i], order[i], authorities(order[i].batchAuthority))
    {
      SplitIff(order[i], authorities(order[i].batchAuthority), parts[i]);
    }
    assert SplitInOrder(FlatMap(order, BundlesOf(authorities)), items, authorities, order, parts);
  }

  /** The item can be split at all. */
  ghost predicate Splittable(item: WorkItem, authorities: string -> Authority) {
    exists bundles :: SplitsInto(bundles, item, authorities(item.batchAuthority))
  }

  lemma SplittableIff(item: WorkItem, authorities: string -> Authority)
    ensures Splittable(item, authorities) <==> Split(item, authorities(item.batchAuthority)).Success?
  {
    hide Split, SplitsInto;
    var authority := authorities(item.batchAuthority);
    if Split(item, authority).Success? {
      SplitIff(item, authority, Split(item, authority).value);
    }
    forall bundles | SplitsInto(bundles, item, authority)
      ensures Split(item, authority).Success?
    {
      SplitIff(item, authority, bundles);
    }
  }

  /** Every item of the plan, in queue order, split into its bundles. `authorities` stands for
      the loaded width authorities. */
  method SplitRoutes(items: seq<WorkItem>, authorities: string -> Authority)
    returns (r: Result<seq<Bundle>, BundleError>)
    ensures r.Failure? <==> exists item :: item in items && Split(item, authorities(item.batchAuthority)).Failure?
    ensures r.Failure? ==> r.error.item in items && Split(r.error.item, authorities(r.error.item.batchAuthority)) == r
    ensures r.Failure? ==> forall item :: item in items && Split(item, authorities(item.batchAuthority)).Failure? ==>
      Before(r.error.item, item)
    ensures r.Success? ==> r.value == FlatMap(Sort(items, Before), BundlesOf(authorities))
    ensures r.Success? <==> forall item :: item in items ==> Splittable(item, authorities)
    ensures r.Success? ==> AllSplit(r.value, items, authorities)
    ensures r.Failure? ==> r.error.item in items && Refused(r.error, authorities(r.error.item.batchAuthority))
    ensures r.Failure? ==> forall item :: item in items && !Splittable(item, authorities) ==> QueueLeq(r.error.item, item)
  {
    hide Sort, Split, Before, SplitsInto, AllSplit, Splittable, QueueLeq, Refused;
    forall item: WorkItem
      ensures Splittable(item, authorities) <==> Split(item, authorities(item.batchAuthority)).Success?
    {
      SplittableIff(item, authorities);
    }
    var sorted := Sort(items, Before);
    SortMembers(items, Before);
    var bundles := [];
    for n := 0 to |sorted|
      invariant forall k :: 0 <= k < n ==> Split(sorted[k], authorities(sorted[k].batchAuthority)).Success?
      invariant bundles == FlatMap(sorted[..n], BundlesOf(authorities))
    {
      var item := sorted[n];
      assert item in items;
      var split := Split(item, authorities(item.batchAuthority));
      if split.Failure? {
        SplitYields(item, authorities(item.batchAuthority));
        FirstInQueue(items, authorities, n);
        assert forall other :: Before(item, other) ==> QueueLeq(item, other) by {
          forall other | Before(item, other) ensures QueueLeq(item, other) {
            BeforeIff(item, other);
          }
        }
        return Failure(split.error);
      }
      bundles := bundles + split.value;
      assert sorted[..n + 1][..n] == sorted[..n];
    }
    assert sorted[..|sorted|] == sorted;
    SortedSplit(items, authorities);
    r := Success(bundles);
  }

  lemma BeforeIsAnOrder()
    ensures Total(Before) && Transitive(Before)
  {
    hide LexLeq;
    LexIsAnOrder();
  }

  /** The first item of the queue that does not split comes before every other one. */
  lemma FirstInQueue(items: seq<WorkItem>, authorities: string -> Authority, n: nat)
    requires n < |Sort(items, Before)|
    requires forall k :: 0 <= k < n ==>
      Split(Sort(items, Before)[k], authorities(Sort(items, Before)[k].batchAuthority)).Success?
    ensures forall item :: item in items && Split(item, authorities(item.batchAuthority)).Failure? ==>
      Before(Sort(items, Before)[n], item)
  {
    hide Sort, Split, Before;
    var sorted := Sort(items, Before);
    SortMembers(items, Before);
    BeforeIsAnOrder();
    SortSorts(items, Before);
    forall item | item in items && Split(item, authorities(item.batchAuthority)).Failure?
      ensures Before(sorted[n], item)
    {
      assert item in sorted;
      var i :| 0 <= i < |sorted| && sorted[i] == item;
      assert Before(sorted[n], sorted[n]);
    }
  }

  // ---------- What a split keeps ----------

  function BundleHours(bundle: Bundle): real { bundle.hours }

  function BundleExecutions(bundle: Bundle): real { bundle.executions as real }

  function ItemExecutions(item: WorkItem): real { item.executions as real }

  lemma {:induction false} MakeBundlesUniform(item: WorkItem, recipeId: string, routes: seq<string>, treatments: seq<string>, hours: real)
    ensures var bundles := MakeBundles(item, recipeId, routes, treatments, hours);
      |bundles| == |routes| && forall i :: 0 <= i < |bundles| ==> bundles[i].hours == hours && bundles[i].executions == |treatments|
  {
    if routes != [] {
      MakeBundlesUniform(item, recipeId, routes[..|routes| - 1], treatments, hours);
    }
  }

  /** A split item keeps its hours and its executions. */
  lemma SplitTotals(item: WorkItem, authority: Authority)
    requires Split(item, authority).Success?
    ensures Weigh(Split(item, authority).value, BundleHours) == item.hours
    ensures Weigh(Split(item, authority).value, BundleExecutions) == ItemExecutions(item)
  {
    hide Weigh, MakeBundles, Matches, Selected;
    var found := Matches(authority.libraries, item)[0];
    var routes := Selected(authority.routes, found.applicableRoutes);
    var bundles, n := Split(item, authority).value, |routes|;
    MakeBundlesUniform(item, found.recipeId, routes, authority.treatments, item.hours / n as real);
    WeighUniform(bundles, BundleHours, item.hours / n as real);
    SumConstant(item.hours / n as real, n);
    WeighUniform(bundles, BundleExecutions, |authority.treatments| as real);
    SumConstant(|authority.treatments| as real, n);
    ProductAsReal(n, |authority.treatments|);
  }

  lemma ProductAsReal(a: nat, b: nat)
    ensures (a * b) as real == a as real * b as real
  {
  }

  /** Splitting every item keeps the plan's hours and executions. */
  lemma {:induction false} SplitAllTotals(items: seq<WorkItem>, authorities: string -> Authority)
    requires forall k :: 0 <= k < |items| ==> Split(items[k], authorities(items[k].batchAuthority)).Success?
    ensures Weigh(FlatMap(items, BundlesOf(authorities)), BundleHours) == Weigh(items, HoursOf)
    ensures Weigh(FlatMap(items, BundlesOf(authorities)), BundleExecutions) == Weigh(items, ItemExecutions)
  {
    hide Split;
    if items != [] {
      var n := |items| - 1;
      SplitAllTotals(items[..n], authorities);
      SplitTotals(items[n], authorities(items[n].batchAuthority));
      var before, split := FlatMap(items[..n], BundlesOf(authorities)), BundlesOf(authorities)(items[n]);
      assert FlatMap(items, BundlesOf(authorities)) == before + split;
      WeighConcat(before, split, BundleHours);
      WeighConcat(before, split, BundleExecutions);
    }
  }
}
