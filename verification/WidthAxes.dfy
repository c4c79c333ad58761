/** The axes of a width: its routes and treatments, accepted only if every selected route runs
    every selected treatment. */
module WidthAxes {
  import opened Results
  import opened Grouping
  import opened Sequences

  datatype Applicability = Applicability(routeId: string, treatmentId: string, state: string)

  type Pair = (string, string)

  datatype AxesError = UnavailableRoutes(routes: set<string>) | NotRectangular | Multiplied

  datatype Axes = Axes(routes: seq<string>, treatments: seq<string>)

  function SelectedPairs(rows: seq<Applicability>): set<Pair> {
    set i | 0 <= i < |rows| && rows[i].state in {"executable", "unavailable"} :: (rows[i].routeId, rows[i].treatmentId)
  }

  function Unavailable(rows: seq<Applicability>): set<string> {
    set i | 0 <= i < |rows| && rows[i].state == "unavailable" :: rows[i].routeId
  }

  predicate UsesRoute(pairs: set<Pair>, route: string) {
    exists p :: p in pairs && p.0 == route
  }

  predicate UsesTreatment(pairs: set<Pair>, treatment: string) {
    exists p :: p in pairs && p.1 == treatment
  }

  function Using(uses: (set<Pair>, string) -> bool, pairs: set<Pair>): string -> bool {
    (id: string) => uses(pairs, id)
  }

  /** The authority's routes that some pair uses, in authority order. */
  function RouteAxis(listed: seq<string>, pairs: set<Pair>): seq<string> {
    Select(listed, Using(UsesRoute, pairs))
  }

  function TreatmentAxis(listed: seq<string>, pairs: set<Pair>): seq<string> {
    Select(listed, Using(UsesTreatment, pairs))
  }

  function Cartesian(routes: seq<string>, treatments: seq<string>): set<Pair> {
    set r, t | r in routes && t in treatments :: (r, t)
  }

  function OrderedAxes(rows: seq<Applicability>, routes: seq<string>, treatments: seq<string>, executions: int): Result<Axes, AxesError> {
    var pairs := SelectedPairs(rows);
    var routeIds, treatmentIds := RouteAxis(routes, pairs), TreatmentAxis(treatments, pairs);
    if Unavailable(rows) != {} then Failure(UnavailableRoutes(Unavailable(rows)))
    else if routeIds == [] || treatmentIds == [] || pairs != Cartesian(routeIds, treatmentIds) then Failure(NotRectangular)
    else if executions != |pairs| then Failure(Multiplied)
    else Success(Axes(routeIds, treatmentIds))
  }

  lemma AxisMembers(listed: seq<string>, uses: (set<Pair>, string) -> bool, pairs: set<Pair>)
    ensures forall id :: id in Select(listed, Using(uses, pairs)) <==> id in listed && uses(pairs, id)
    ensures Distinct(listed) ==> Distinct(Select(listed, Using(uses, pairs)))
  {
    hide Select;
    SelectMembers(listed, Using(uses, pairs));
    var at := SelectEmbeds(listed, Using(uses, pairs));
    if Distinct(listed) {
      EmbeddedDistinct(at, Select(listed, Using(uses, pairs)), listed);
    }
  }

  lemma EmbeddedDistinct(at: seq<nat>, part: seq<string>, listed: seq<string>)
    requires Embeds(at, part, listed) && Distinct(listed)
    ensures Distinct(part)
  {
    forall i, j | 0 <= i < j < |part| ensures part[i] != part[j] {
      assert at[i] < at[j] && listed[at[i]] == part[i] && listed[at[j]] == part[j];
    }
  }

  /** The axes list exactly the listed ids in use. */
  lemma AxesMembers(routes: seq<string>, treatments: seq<string>, pairs: set<Pair>)
    ensures forall r :: r in RouteAxis(routes, pairs) <==> r in routes && UsesRoute(pairs, r)
    ensures forall t :: t in TreatmentAxis(treatments, pairs) <==> t in treatments && UsesTreatment(pairs, t)
  {
    AxisMembers(routes, UsesRoute, pairs);
    AxisMembers(treatments, UsesTreatment, pairs);
  }

  /** Treatments can be swapped between any two selected routes. */
  ghost predicate SwapClosed(pairs: set<Pair>) {
    forall p, q :: p in pairs && q in pairs ==> (p.0, q.1) in pairs
  }

  ghost predicate AllListed(pairs: set<Pair>, routes: seq<string>, treatments: seq<string>) {
    forall p :: p in pairs ==> p.0 in routes && p.1 in treatments
  }

  /** The rectangularity check accepts exactly the non-empty sets of listed pairs that are closed under swapping. */
  lemma RectangularIffSwapClosed(pairs: set<Pair>, routes: seq<string>, treatments: seq<string>)
    ensures var r, t := RouteAxis(routes, pairs), TreatmentAxis(treatments, pairs);
      r != [] && t != [] && pairs == Cartesian(r, t) <==>
      pairs != {} && AllListed(pairs, routes, treatments) && SwapClosed(pairs)
  {
    hide RouteAxis, TreatmentAxis, Cartesian, SwapClosed, AllListed;
    var r, t := RouteAxis(routes, pairs), TreatmentAxis(treatments, pairs);
    if r != [] && t != [] && pairs == Cartesian(r, t) {
      RectangleIsClosed(pairs, routes, treatments);
    }
    if pairs != {} && AllListed(pairs, routes, treatments) && SwapClosed(pairs) {
      ClosedIsRectangle(pairs, routes, treatments);
    }
  }

  lemma RectangleIsClosed(pairs: set<Pair>, routes: seq<string>, treatments: seq<string>)
    requires RouteAxis(routes, pairs) != [] && TreatmentAxis(treatments, pairs) != []
    requires pairs == Cartesian(RouteAxis(routes, pairs), TreatmentAxis(treatments, pairs))
    ensures pairs != {} && AllListed(pairs, routes, treatments) && SwapClosed(pairs)
  {
    hide RouteAxis, TreatmentAxis, UsesRoute, UsesTreatment;
    var r, t := RouteAxis(routes, pairs), TreatmentAxis(treatments, pairs);
    AxesMembers(routes, treatments, pairs);
    assert r[0] in r && t[0] in t;
    assert (r[0], t[0]) in pairs;
  }

  lemma ClosedIsRectangle(pairs: set<Pair>, routes: seq<string>, treatments: seq<string>)
    requires pairs != {} && AllListed(pairs, routes, treatments) && SwapClosed(pairs)
    ensures var r, t := RouteAxis(routes, pairs), TreatmentAxis(treatments, pairs);
      r != [] && t != [] && pairs == Cartesian(r, t)
  {
    hide RouteAxis, TreatmentAxis, Cartesian, UsesRoute, UsesTreatment;
    var r, t := RouteAxis(routes, pairs), TreatmentAxis(treatments, pairs);
    AxesMembers(routes, treatments, pairs);
    forall p | p in pairs ensures p.0 in r && p.1 in t {
      InUse(pairs, p);
    }
    PairsCovered(pairs, r, t);
    CartesianCovered(pairs, r, t);
  }

  lemma InUse(pairs: set<Pair>, p: Pair)
    requires p in pairs
    ensures UsesRoute(pairs, p.0) && UsesTreatment(pairs, p.1)
  {
  }

  lemma PairsCovered(pairs: set<Pair>, routes: seq<string>, treatments: seq<string>)
    requires forall p :: p in pairs ==> p.0 in routes && p.1 in treatments
    ensures pairs <= Cartesian(routes, treatments)
    ensures pairs != {} ==> routes != [] && treatments != []
  {
    if pairs != {} {
      var p :| p in pairs;
    }
  }

  lemma CartesianCovered(pairs: set<Pair>, routes: seq<string>, treatments: seq<string>)
    requires SwapClosed(pairs)
    requires forall r :: r in routes ==> UsesRoute(pairs, r)
    requires forall t :: t in treatments ==> UsesTreatment(pairs, t)
    ensures Cartesian(routes, treatments) <= pairs
  {
    forall q | q in Cartesian(routes, treatments)
      ensures q in pairs
    {
      assert UsesRoute(pairs, q.0) && UsesTreatment(pairs, q.1);
      var a :| a in pairs && a.0 == q.0;
      var b :| b in pairs && b.1 == q.1;
      assert (a.0, b.1) in pairs;
    }
  }

  // ---------- What the axes enumerate ----------

  function PairsOf(route: string, treatments: seq<string>): (r: seq<Pair>)
    ensures |r| == |treatments|
  {
    seq(|treatments|, i requires 0 <= i < |treatments| => (route, treatments[i]))
  }

  /** Route by route, every treatment. */
  function Enumerate(routes: seq<string>, treatments: seq<string>): seq<Pair> {
    if routes == [] then []
    else Enumerate(routes[..|routes| - 1], treatments) + PairsOf(routes[|routes| - 1], treatments)
  }

  lemma {:induction false} EnumerateMembers(routes: seq<string>, treatments: seq<string>)
    ensures forall p :: p in Enumerate(routes, treatments) <==> p.0 in routes && p.1 in treatments
    ensures |Enumerate(routes, treatments)| == |routes| * |treatments|
  {
    if routes == [] {
    } else {
      var n := |routes| - 1;
      EnumerateMembers(routes[..n], treatments);
      assert routes == routes[..n] + [routes[n]];
      var last := PairsOf(routes[n], treatments);
      forall p: Pair | p.0 == routes[n] && p.1 in treatments
        ensures p in last
      {
        var i :| 0 <= i < |treatments| && treatments[i] == p.1;
        assert last[i] == p;
      }
      assert |routes| * |treatments| == n * |treatments| + |treatments|;
    }
  }

  lemma {:induction false} EnumerateDistinct(routes: seq<string>, treatments: seq<string>)
    requires Distinct(routes) && Distinct(treatments)
    ensures Distinct(Enumerate(routes, treatments))
  {
    if routes != [] {
      var n := |routes| - 1;
      EnumerateDistinct(routes[..n], treatments);
      EnumerateMembers(routes[..n], treatments);
      var front, last := Enumerate(routes[..n], treatments), PairsOf(routes[n], treatments);
      forall i, j | 0 <= i < |front| && 0 <= j < |last|
        ensures front[i] != last[j]
      {
        assert front[i] in front;
        assert last[j].0 == routes[n];
      }
    }
  }

  /** `a` is listed before `b`. */
  ghost predicate ListedBefore(listed: seq<string>, a: string, b: string) {
    exists i, j :: 0 <= i < j < |listed| && listed[i] == a && listed[j] == b
  }

  /** The authority's order of pairs: by route, then by treatment. */
  ghost predicate PairBefore(routes: seq<string>, treatments: seq<string>, p: Pair, q: Pair) {
    ListedBefore(routes, p.0, q.0) || (p.0 == q.0 && ListedBefore(treatments, p.1, q.1))
  }

  ghost predicate InListedOrder(part: seq<string>, listed: seq<string>) {
    forall i, j :: 0 <= i < j < |part| ==> ListedBefore(listed, part[i], part[j])
  }

  lemma AxisInListedOrder(listed: seq<string>, uses: (set<Pair>, string) -> bool, pairs: set<Pair>)
    ensures InListedOrder(Select(listed, Using(uses, pairs)), listed)
  {
    hide Select;
    var part := Select(listed, Using(uses, pairs));
    var at := SelectEmbeds(listed, Using(uses, pairs));
    forall i, j | 0 <= i < j < |part| ensures ListedBefore(listed, part[i], part[j]) {
      assert at[i] < at[j] && listed[at[i]] == part[i] && listed[at[j]] == part[j];
    }
  }

  lemma {:induction false} EnumerateInOrder(r: seq<string>, t: seq<string>, routes: seq<string>, treatments: seq<string>)
    requires InListedOrder(r, routes) && InListedOrder(t, treatments)
    ensures var listed := Enumerate(r, t);
      forall i, j :: 0 <= i < j < |listed| ==> PairBefore(routes, treatments, listed[i], listed[j])
  {
    hide ListedBefore;
    if r != [] {
      var n := |r| - 1;
      EnumerateInOrder(r[..n], t, routes, treatments);
      EnumerateMembers(r[..n], t);
      var front, last := Enumerate(r[..n], t), PairsOf(r[n], t);
      forall i, j | 0 <= i < |front| && 0 <= j < |last|
        ensures PairBefore(routes, treatments, front[i], last[j])
      {
        assert front[i] in front;
        var k :| 0 <= k < n && r[..n][k] == front[i].0;
        assert ListedBefore(routes, r[k], r[n]);
      }
    }
  }

  /** With distinct listed ids, accepted axes enumerate every selected pair once, in authority order,
      as many as the executions of one library. */
  lemma AxesEnumeratePairs(rows: seq<Applicability>, routes: seq<string>, treatments: seq<string>, executions: int)
    requires OrderedAxes(rows, routes, treatments, executions).Success? && Distinct(routes) && Distinct(treatments)
    ensures var axes := OrderedAxes(rows, routes, treatments, executions).value;
      var listed := Enumerate(axes.routes, axes.treatments);
      && (forall p :: p in listed <==> p in SelectedPairs(rows)) && Distinct(listed)
      && |listed| == |axes.routes| * |axes.treatments| == executions
    ensures var axes := OrderedAxes(rows, routes, treatments, executions).value;
      var listed := Enumerate(axes.routes, axes.treatments);
      forall i, j :: 0 <= i < j < |listed| ==> PairBefore(routes, treatments, listed[i], listed[j])
  {
    hide RouteAxis, TreatmentAxis, Enumerate, PairBefore;
    var pairs := SelectedPairs(rows);
    var r, t := RouteAxis(routes, pairs), TreatmentAxis(treatments, pairs);
    AxesFacts(routes, treatments, pairs);
    EnumerateMembers(r, t);
    EnumerateDistinct(r, t);
    EnumerateInOrder(r, t, routes, treatments);
    DistinctSize(Enumerate(r, t), pairs);
  }

  lemma AxesFacts(routes: seq<string>, treatments: seq<string>, pairs: set<Pair>)
    requires Distinct(routes) && Distinct(treatments)
    ensures Distinct(RouteAxis(routes, pairs)) && InListedOrder(RouteAxis(routes, pairs), routes)
    ensures Distinct(TreatmentAxis(treatments, pairs)) && InListedOrder(TreatmentAxis(treatments, pairs), treatments)
  {
    AxisMembers(routes, UsesRoute, pairs);
    AxisMembers(treatments, UsesTreatment, pairs);
    AxisInListedOrder(routes, UsesRoute, pairs);
    AxisInListedOrder(treatments, UsesTreatment, pairs);
  }

  /** The axes keep the order of the authority's lists, whatever they list. */
  lemma AxesKeepOrder(rows: seq<Applicability>, routes: seq<string>, treatments: seq<string>, executions: int)
    requires OrderedAxes(rows, routes, treatments, executions).Success?
    ensures var axes := OrderedAxes(rows, routes, treatments, executions).value;
      (exists at :: Embeds(at, axes.routes, routes)) && exists at :: Embeds(at, axes.treatments, treatments)
  {
    hide Select, Embeds;
    var pairs := SelectedPairs(rows);
    var r := SelectEmbeds(routes, Using(UsesRoute, pairs));
    var t := SelectEmbeds(treatments, Using(UsesTreatment, pairs));
  }

  /** When the axes of a width are accepted. */
  lemma AxesAcceptedIff(rows: seq<Applicability>, routes: seq<string>, treatments: seq<string>, executions: int)
    ensures OrderedAxes(rows, routes, treatments, executions).Success? <==>
      && (forall i :: 0 <= i < |rows| ==> rows[i].state != "unavailable")
      && SelectedPairs(rows) != {} && AllListed(SelectedPairs(rows), routes, treatments) && SwapClosed(SelectedPairs(rows))
      && executions == |SelectedPairs(rows)|
  {
    hide RouteAxis, TreatmentAxis, Cartesian;
    RectangularIffSwapClosed(SelectedPairs(rows), routes, treatments);
    forall i | 0 <= i < |rows| && rows[i].state == "unavailable" ensures rows[i].routeId in Unavailable(rows) {
    }
    assert Unavailable(rows) == {} <==> forall i :: 0 <= i < |rows| ==> rows[i].state != "unavailable";
  }

  // ---------- In terms of the rows alone ----------

  ghost predicate Runs(rows: seq<Applicability>, route: string, treatment: string) {
    Applicability(route, treatment, "executable") in rows
  }

  /** The routes that cannot run somewhere. */
  ghost function UnavailableIn(rows: seq<Applicability>): set<string> {
    set row | row in rows && row.state == "unavailable" :: row.routeId
  }

  /** What runs: pairs of a route and a treatment. */
  ghost function Executable(rows: seq<Applicability>): set<Pair> {
    set row | row in rows && row.state == "executable" :: (row.routeId, row.treatmentId)
  }

  /** Something runs, only listed ids run, and whatever runs on one route runs on every other. */
  ghost predicate Rectangular(rows: seq<Applicability>, routes: seq<string>, treatments: seq<string>) {
    && (exists r, t :: Runs(rows, r, t))
    && (forall r, t :: Runs(rows, r, t) ==> r in routes && t in treatments)
    && (forall r, t, r', t' :: Runs(rows, r, t) && Runs(rows, r', t') ==> Runs(rows, r, t'))
  }

  lemma NoneUnavailable(rows: seq<Applicability>, i: nat)
    requires i < |rows|
    ensures rows[i].state == "unavailable" ==> UnavailableIn(rows) != {}
  {
    if rows[i].state == "unavailable" {
      assert rows[i].routeId in UnavailableIn(rows);
    }
  }

  lemma SelectedAre(rows: seq<Applicability>)
    ensures UnavailableIn(rows) == Unavailable(rows)
    ensures UnavailableIn(rows) == {} ==> Executable(rows) == SelectedPairs(rows)
    ensures UnavailableIn(rows) == {} ==> forall r, t :: (r, t) in SelectedPairs(rows) <==> Runs(rows, r, t)
  {
    forall i | 0 <= i < |rows|
      ensures rows[i] in rows
    {
    }
    forall row | row in rows && row.state == "unavailable"
      ensures row.routeId in Unavailable(rows)
    {
      var i :| 0 <= i < |rows| && rows[i] == row;
    }
    forall r, t | Runs(rows, r, t)
      ensures (r, t) in SelectedPairs(rows)
    {
      var i :| 0 <= i < |rows| && rows[i] == Applicability(r, t, "executable");
    }
    if UnavailableIn(rows) == {} {
      forall i | 0 <= i < |rows|
        ensures rows[i].state != "unavailable"
      {
        NoneUnavailable(rows, i);
      }
      forall p | p in SelectedPairs(rows)
        ensures Runs(rows, p.0, p.1) && p in Executable(rows)
      {
        var i :| 0 <= i < |rows| && rows[i].state in {"executable", "unavailable"} && (rows[i].routeId, rows[i].treatmentId) == p;
        assert rows[i] == Applicability(p.0, p.1, "executable");
      }
      forall p | p in Executable(rows)
        ensures p in SelectedPairs(rows)
      {
        var row :| row in rows && row.state == "executable" && (row.routeId, row.treatmentId) == p;
        assert Runs(rows, p.0, p.1) by {
          assert row == Applicability(p.0, p.1, "executable");
        }
      }
    }
  }

  lemma RectangularIff(rows: seq<Applicability>, pairs: set<Pair>, routes: seq<string>, treatments: seq<string>)
    requires forall r, t :: (r, t) in pairs <==> Runs(rows, r, t)
    ensures Rectangular(rows, routes, treatments) <==>
      pairs != {} && AllListed(pairs, routes, treatments) && SwapClosed(pairs)
  {
    hide Runs;
    forall p: Pair
      ensures p in pairs <==> Runs(rows, p.0, p.1)
    {
      assert p == (p.0, p.1);
    }
    if Rectangular(rows, routes, treatments) {
      var r, t :| Runs(rows, r, t);
      assert (r, t) in pairs;
      forall p, q | p in pairs && q in pairs
        ensures (p.0, q.1) in pairs
      {
        assert Runs(rows, p.0, p.1) && Runs(rows, q.0, q.1);
      }
    }
    if pairs != {} && AllListed(pairs, routes, treatments) && SwapClosed(pairs) {
      var p :| p in pairs;
      forall r, t, r', t' | Runs(rows, r, t) && Runs(rows, r', t')
        ensures Runs(rows, r, t')
      {
        assert (r, t) in pairs && (r', t') in pairs;
        assert ((r, t).0, (r', t').1) in pairs;
      }
      forall r, t | Runs(rows, r, t)
        ensures r in routes && t in treatments
      {
        assert (r, t) in pairs && (r, t).0 == r && (r, t).1 == t;
      }
    }
  }

  /** Exactly which outcome a width has, by its rows: an unavailable route comes before everything else,
      then the shape, then the number of executions. */
  lemma OutcomeIff(rows: seq<Applicability>, routes: seq<string>, treatments: seq<string>, executions: int)
    ensures var outcome := OrderedAxes(rows, routes, treatments, executions);
      && (UnavailableIn(rows) != {} ==> outcome == Failure(UnavailableRoutes(UnavailableIn(rows))))
      && (UnavailableIn(rows) == {} && !Rectangular(rows, routes, treatments) ==> outcome == Failure(NotRectangular))
      && (UnavailableIn(rows) == {} && Rectangular(rows, routes, treatments) && executions != |Executable(rows)| ==>
            outcome == Failure(Multiplied))
      && (UnavailableIn(rows) == {} && Rectangular(rows, routes, treatments) && executions == |Executable(rows)| ==> outcome.Success?)
  {
    hide RouteAxis, TreatmentAxis, Cartesian, SelectedPairs, Unavailable, Rectangular, UnavailableIn, Executable;
    SelectedAre(rows);
    RectangularIffSwapClosed(SelectedPairs(rows), routes, treatments);
    if UnavailableIn(rows) == {} {
      RectangularIff(rows, SelectedPairs(rows), routes, treatments);
    }
  }

  /** `axis` are the listed ids that are in use, in the order and as often as they are listed. */
  ghost predicate IsAxis(axis: seq<string>, listed: seq<string>, used: set<string>, at: seq<nat>) {
    Embeds(at, axis, listed) && forall k: nat :: k in at <==> k < |listed| && listed[k] in used
  }

  ghost function RoutesRun(rows: seq<Applicability>): set<string> {
    set row | row in rows && row.state == "executable" :: row.routeId
  }

  ghost function TreatmentsRun(rows: seq<Applicability>): set<string> {
    set row | row in rows && row.state == "executable" :: row.treatmentId
  }

  /** Accepted axes are the listed routes and treatments of executable rows, in listed order, and hold a
      route and a treatment together exactly when such a row does. */
  lemma AcceptedAxesRun(rows: seq<Applicability>, routes: seq<string>, treatments: seq<string>, executions: int)
    requires OrderedAxes(rows, routes, treatments, executions).Success?
    ensures var axes := OrderedAxes(rows, routes, treatments, executions).value;
      && (forall r, t :: r in axes.routes && t in axes.treatments <==> Runs(rows, r, t))
      && (exists at :: IsAxis(axes.routes, routes, RoutesRun(rows), at))
      && (exists at :: IsAxis(axes.treatments, treatments, TreatmentsRun(rows), at))
  {
    hide Select, Embeds, Unavailable, SelectedPairs, UnavailableIn, UsesRoute, UsesTreatment;
    var pairs := SelectedPairs(rows);
    SelectedAre(rows);
    AxesMembers(routes, treatments, pairs);
    UsedAre(rows, pairs);
    var axes := OrderedAxes(rows, routes, treatments, executions).value;
    forall r, t
      ensures r in axes.routes && t in axes.treatments <==> (r, t) in pairs
    {
    }
    var r := SelectEmbeds(routes, Using(UsesRoute, pairs));
    var t := SelectEmbeds(treatments, Using(UsesTreatment, pairs));
    assert IsAxis(axes.routes, routes, RoutesRun(rows), r);
    assert IsAxis(axes.treatments, treatments, TreatmentsRun(rows), t);
  }

  lemma UsedAre(rows: seq<Applicability>, pairs: set<Pair>)
    requires forall r, t :: (r, t) in pairs <==> Runs(rows, r, t)
    ensures forall r :: UsesRoute(pairs, r) <==> r in RoutesRun(rows)
    ensures forall t :: UsesTreatment(pairs, t) <==> t in TreatmentsRun(rows)
  {
    forall p | p in pairs
      ensures Runs(rows, p.0, p.1)
    {
      assert p == (p.0, p.1);
    }
    forall row | row in rows && row.state == "executable"
      ensures (row.routeId, row.treatmentId) in pairs
    {
      assert row == Applicability(row.routeId, row.treatmentId, "executable");
      assert Runs(rows, row.routeId, row.treatmentId);
    }
    forall r | r in RoutesRun(rows)
      ensures UsesRoute(pairs, r)
    {
      var row :| row in rows && row.state == "executable" && row.routeId == r;
      assert (row.routeId, row.treatmentId) in pairs;
    }
    forall t | t in TreatmentsRun(rows)
      ensures UsesTreatment(pairs, t)
    {
      var row :| row in rows && row.state == "executable" && row.treatmentId == t;
      assert (row.routeId, row.treatmentId) in pairs;
    }
  }
}
