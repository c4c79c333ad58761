/** Packing work items into time blocks: largest items first, each into the fitting block
    that lands closest to the target, a new block only when none fits. */
module BlockPacking {
  import opened Results
  import opened Sorting
  import opened Aggregates

  datatype WorkItem = WorkItem(
    batchAuthority: string,
    sourceId: string,
    version: string,
    rank: int,
    executions: nat,
    androidExecutions: nat,
    hours: real)

  type Block = seq<WorkItem>

  /** Longest first; equally long items by rank. */
  predicate Larger(a: WorkItem, b: WorkItem) {
    a.hours > b.hours || (a.hours == b.hours && a.rank <= b.rank)
  }

  function HoursOf(item: WorkItem): real { item.hours }

  function Hours(block: Block): real {
    Weigh(block, HoursOf)
  }

  function Totals(blocks: seq<Block>): (r: seq<real>)
    ensures |r| == |blocks|
  {
    seq(|blocks|, i requires 0 <= i < |blocks| => Hours(blocks[i]))
  }

  function Deviation(target: real, total: real): real {
    if total <= target then target - total else total - target
  }

  /** The block that the item fits and that comes closest to the target, the first of equals. */
  function BestTarget(totals: seq<real>, hours: real, target: real, ceiling: real): (r: Option<nat>)
    ensures r.None? ==> forall j :: 0 <= j < |totals| ==> totals[j] + hours > ceiling
    ensures r.Some? ==> r.value < |totals| && totals[r.value] + hours <= ceiling
    ensures r.Some? ==> forall j :: 0 <= j < |totals| && totals[j] + hours <= ceiling ==>
      || Deviation(target, totals[r.value] + hours) < Deviation(target, totals[j] + hours)
      || (Deviation(target, totals[r.value] + hours) == Deviation(target, totals[j] + hours) && r.value <= j)
  {
    if totals == [] then None
    else
      var n := |totals| - 1;
      var best := BestTarget(totals[..n], hours, target, ceiling);
      if totals[n] + hours > ceiling then best
      else if best.None? then Some(n)
      else if Deviation(target, totals[n] + hours) < Deviation(target, totals[best.value] + hours) then Some(n)
      else best
  }

  function Place(blocks: seq<Block>, item: WorkItem, target: real, ceiling: real): seq<Block> {
    match BestTarget(Totals(blocks), item.hours, target, ceiling)
    case None => blocks + [[item]]
    case Some(k) => blocks[k := blocks[k] + [item]]
  }

  function PlaceAll(items: seq<WorkItem>, target: real, ceiling: real): seq<Block> {
    if items == [] then []
    else Place(PlaceAll(items[..|items| - 1], target, ceiling), items[|items| - 1], target, ceiling)
  }

  function Pack(items: seq<WorkItem>, target: real, ceiling: real): seq<Block> {
    PlaceAll(Sort(items, Larger), target, ceiling)
  }

  /** `blocks` holds exactly `items`, no block above the ceiling. */
  ghost predicate IsPacking(blocks: seq<Block>, items: seq<WorkItem>, ceiling: real) {
    && multiset(Flatten(blocks)) == multiset(items)
    && forall b :: 0 <= b < |blocks| ==> Hours(blocks[b]) <= ceiling
  }

  /** What the plan's own validation guarantees of every item that is packed. */
  ghost predicate Packable(items: seq<WorkItem>, ceiling: real) {
    forall i :: 0 <= i < |items| ==> 0.0 <= items[i].hours <= ceiling
  }

  // ---------- In terms of the totals alone ----------

  /** Block `k` has room, no other block's total would lie between its new total and the one equally far
      on the other side of the target, and of equally far ones it is the first. */
  ghost predicate Closest(totals: seq<real>, hours: real, target: real, ceiling: real, k: nat) {
    && k < |totals| && totals[k] + hours <= ceiling
    && var x := totals[k] + hours;
       var mirrored := 2.0 * target - x;
       forall j :: 0 <= j < |totals| && j != k && totals[j] + hours <= ceiling ==>
         var y := totals[j] + hours;
         !(x < y < mirrored) && !(mirrored < y < x) && (y == x || y == mirrored ==> k < j)
  }

  lemma BestTargetIff(totals: seq<real>, hours: real, target: real, ceiling: real)
    ensures BestTarget(totals, hours, target, ceiling).None? <==> forall j :: 0 <= j < |totals| ==> totals[j] + hours > ceiling
    ensures forall k: nat :: BestTarget(totals, hours, target, ceiling) == Some(k) <==> Closest(totals, hours, target, ceiling, k)
  {
    var best := BestTarget(totals, hours, target, ceiling);
    if best.Some? {
      ClosestAt(totals, hours, target, ceiling, best.value);
      forall k: nat | Closest(totals, hours, target, ceiling, k)
        ensures k == best.value
      {
        ClosestOnce(totals, hours, target, ceiling, k, best.value);
      }
    }
  }

  lemma ClosestAt(totals: seq<real>, hours: real, target: real, ceiling: real, k: nat)
    requires BestTarget(totals, hours, target, ceiling) == Some(k)
    ensures Closest(totals, hours, target, ceiling, k)
  {
    hide BestTarget;
  }

  lemma ClosestOnce(totals: seq<real>, hours: real, target: real, ceiling: real, k: nat, m: nat)
    requires Closest(totals, hours, target, ceiling, k) && Closest(totals, hours, target, ceiling, m)
    ensures k == m
  {
    assert totals[m] + hours <= ceiling;
  }

  /** The item joins the closest block, or opens a block if none has room. */
  ghost predicate Placed(before: seq<Block>, item: WorkItem, after: seq<Block>, target: real, ceiling: real) {
    || ((forall j :: 0 <= j < |before| ==> Hours(before[j]) + item.hours > ceiling) && after == before + [[item]])
    || exists k: nat :: k < |before| && Closest(Totals(before), item.hours, target, ceiling, k)
         && after == before[k := before[k] + [item]]
  }

  lemma PlaceIsPlaced(blocks: seq<Block>, item: WorkItem, target: real, ceiling: real)
    ensures Placed(blocks, item, Place(blocks, item, target, ceiling), target, ceiling)
  {
    hide BestTarget, Weigh, Closest;
    BestTargetIff(Totals(blocks), item.hours, target, ceiling);
    assert forall j :: 0 <= j < |blocks| ==> Totals(blocks)[j] == Hours(blocks[j]);
  }

  /** Longest items first, by rank among equally long ones. */
  ghost predicate LongestFirst(order: seq<WorkItem>) {
    forall i, j :: 0 <= i < j < |order| ==>
      order[i].hours > order[j].hours || (order[i].hours == order[j].hours && order[i].rank <= order[j].rank)
  }

  /** The blocks before each item of `order` and at the end. */
  ghost predicate IsRun(states: seq<seq<Block>>, order: seq<WorkItem>, target: real, ceiling: real) {
    && |states| == |order| + 1 && states[0] == []
    && forall k :: 0 <= k < |order| ==> Placed(states[k], order[k], states[k + 1], target, ceiling)
  }

  ghost predicate PackedInOrder(blocks: seq<Block>, items: seq<WorkItem>, target: real, ceiling: real) {
    exists order, states ::
      && multiset(order) == multiset(items) && LongestFirst(order)
      && IsRun(states, order, target, ceiling) && states[|order|] == blocks
  }

  lemma {:induction false} PlaceAllRuns(order: seq<WorkItem>, target: real, ceiling: real) returns (states: seq<seq<Block>>)
    ensures IsRun(states, order, target, ceiling) && states[|order|] == PlaceAll(order, target, ceiling)
  {
    hide Place, Placed;
    if order == [] {
      states := [[]];
    } else {
      var n := |order| - 1;
      states := PlaceAllRuns(order[..n], target, ceiling);
      PlaceIsPlaced(states[n], order[n], target, ceiling);
      states := states + [PlaceAll(order, target, ceiling)];
    }
  }

  lemma PackIsInOrder(items: seq<WorkItem>, target: real, ceiling: real)
    ensures PackedInOrder(Pack(items, target, ceiling), items, target, ceiling)
  {
    hide Sort, IsRun, PlaceAll;
    var order := Sort(items, Larger);
    SortPermutes(items, Larger);
    SortSorts(items, Larger);
    assert forall i, j :: 0 <= i < j < |order| ==> Larger(order[i], order[j]);
    var states := PlaceAllRuns(order, target, ceiling);
  }

  method PackBlocks(items: seq<WorkItem>, target: real, maxHours: real, tolerance: real)
    returns (r: Result<seq<Block>, WorkItem>)
    ensures r.Failure? <==> exists x :: x in items && x.hours > maxHours + tolerance
    ensures r.Failure? ==> r.error in items && forall x :: x in items ==> Larger(r.error, x)
    ensures r.Failure? ==> forall x :: x in items ==>
      r.error.hours > x.hours || (r.error.hours == x.hours && r.error.rank <= x.rank)
    ensures r.Success? ==> r.value == Pack(items, target, maxHours + tolerance)
    ensures r.Success? ==> PackedInOrder(r.value, items, target, maxHours + tolerance)
  {
    hide BestTarget, Sort, Weigh, Totals, PackedInOrder;
    PackIsInOrder(items, target, maxHours + tolerance);
    var blocks: seq<Block>, totals: seq<real> := [], [];
    var sorted := Sort(items, Larger);
    SortMembers(items, Larger);
    for k := 0 to |sorted|
      invariant blocks == PlaceAll(sorted[..k], target, maxHours + tolerance)
      invariant totals == Totals(blocks)
      invariant forall j :: 0 <= j < k ==> sorted[j].hours <= maxHours + tolerance
    {
      var item := sorted[k];
      assert sorted[..k + 1][..k] == sorted[..k];
      if item.hours > maxHours + tolerance {
        LargestFirst(items, k);
        assert k == 0;
        return Failure(item);
      }
      var selected := BestTarget(totals, item.hours, target, maxHours + tolerance);
      TotalsAfter(blocks, item, selected);
      if selected.Some? {
        blocks := blocks[selected.value := blocks[selected.value] + [item]];
        totals := totals[selected.value := totals[selected.value] + item.hours];
      } else {
        blocks := blocks + [[item]];
        totals := totals + [item.hours];
      }
    }
    assert sorted[..|sorted|] == sorted;
    r := Success(blocks);
  }

  lemma LargestFirst(items: seq<WorkItem>, k: nat)
    requires k < |Sort(items, Larger)|
    ensures Sort(items, Larger)[0].hours >= Sort(items, Larger)[k].hours
    ensures forall x :: x in items ==> Larger(Sort(items, Larger)[0], x)
  {
    var sorted := Sort(items, Larger);
    SortSorts(items, Larger);
    assert k > 0 ==> Larger(sorted[0], sorted[k]);
    forall x | x in items
      ensures Larger(sorted[0], x)
    {
      SortMembers(items, Larger);
      var i :| 0 <= i < |sorted| && sorted[i] == x;
      assert i > 0 ==> Larger(sorted[0], sorted[i]);
    }
  }

  lemma TotalsAfter(blocks: seq<Block>, item: WorkItem, selected: Option<nat>)
    requires selected.Some? ==> selected.value < |blocks|
    ensures selected.None? ==> Totals(blocks + [[item]]) == Totals(blocks) + [item.hours]
    ensures selected.Some? ==>
      var k := selected.value;
      Totals(blocks[k := blocks[k] + [item]]) == Totals(blocks)[k := Totals(blocks)[k] + item.hours]
  {
    hide Weigh;
    if selected.Some? {
      WeighConcat(blocks[selected.value], [item], HoursOf);
    }
    WeighOne(item, HoursOf);
  }
}
