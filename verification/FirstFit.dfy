/** First fit, of which the block packer's docstring and plan field speak, beside the choice that the
    packer makes: where they part, and exactly when they agree. */
module FirstFit {
  import opened Results
  import opened Sorting
  import opened Aggregates
  import opened Grouping
  import opened BlockPacking

  predicate Fits(totals: seq<real>, j: nat, hours: real, ceiling: real) {
    j < |totals| && totals[j] + hours <= ceiling
  }

  /** The first block that has room. */
  function FirstRoom(totals: seq<real>, hours: real, ceiling: real): (r: Option<nat>)
    ensures r.None? ==> forall j: nat :: !Fits(totals, j, hours, ceiling)
    ensures r.Some? ==> Fits(totals, r.value, hours, ceiling) && forall j: nat :: j < r.value ==> !Fits(totals, j, hours, ceiling)
  {
    if totals == [] then None
    else
      var n := |totals| - 1;
      var first := FirstRoom(totals[..n], hours, ceiling);
      assert forall j: nat :: j < n ==> Fits(totals[..n], j, hours, ceiling) == Fits(totals, j, hours, ceiling);
      if first.None? && Fits(totals, n, hours, ceiling) then Some(n) else first
  }

  /** No block with room that comes later than the first such block comes closer to the target. */
  ghost predicate FirstIsClosest(totals: seq<real>, hours: real, target: real, ceiling: real) {
    forall i: nat, j: nat :: FirstRoom(totals, hours, ceiling) == Some(i) && i < j && Fits(totals, j, hours, ceiling) ==>
      Deviation(target, totals[i] + hours) <= Deviation(target, totals[j] + hours)
  }

  /** Exactly when the block chosen is the first that has room. */
  lemma ChoiceIsFirstFitIff(totals: seq<real>, hours: real, target: real, ceiling: real)
    ensures BestTarget(totals, hours, target, ceiling) == FirstRoom(totals, hours, ceiling) <==>
      FirstIsClosest(totals, hours, target, ceiling)
  {
    var best, first := BestTarget(totals, hours, target, ceiling), FirstRoom(totals, hours, ceiling);
    assert best.Some? ==> Fits(totals, best.value, hours, ceiling);
    assert first.Some? && FirstIsClosest(totals, hours, target, ceiling) ==> best.value <= first.value;
  }

  /** Where no block would exceed the target, the choice is the fullest block that has room, the first of
      equals. So it is for a target at or above the ceiling. */
  lemma ChoiceIsFullest(totals: seq<real>, hours: real, target: real, ceiling: real, k: nat)
    requires target >= ceiling || forall j: nat :: Fits(totals, j, hours, ceiling) ==> totals[j] + hours <= target
    ensures BestTarget(totals, hours, target, ceiling) == Some(k) <==>
      && Fits(totals, k, hours, ceiling)
      && forall j: nat :: Fits(totals, j, hours, ceiling) ==> totals[k] > totals[j] || (totals[k] == totals[j] && k <= j)
  {
    var best := BestTarget(totals, hours, target, ceiling);
    if best.Some? {
      assert Fits(totals, best.value, hours, ceiling);
    }
    assert forall j: nat :: Fits(totals, j, hours, ceiling) ==> Deviation(target, totals[j] + hours) == target - totals[j] - hours;
  }

  // ---------- Whole packings ----------

  function Put(blocks: seq<Block>, item: WorkItem, choice: Option<nat>): seq<Block>
    requires choice.Some? ==> choice.value < |blocks|
  {
    match choice
    case None => blocks + [[item]]
    case Some(k) => blocks[k := blocks[k] + [item]]
  }

  function PlaceFirst(blocks: seq<Block>, item: WorkItem, ceiling: real): seq<Block> {
    Put(blocks, item, FirstRoom(Totals(blocks), item.hours, ceiling))
  }

  function PlaceAllFirst(items: seq<WorkItem>, ceiling: real): seq<Block> {
    if items == [] then []
    else PlaceFirst(PlaceAllFirst(items[..|items| - 1], ceiling), items[|items| - 1], ceiling)
  }

  /** First fit decreasing. */
  function PackFirst(items: seq<WorkItem>, ceiling: real): seq<Block> {
    PlaceAllFirst(Sort(items, Larger), ceiling)
  }

  /** Non-empty blocks of the given items. */
  ghost predicate BlocksOf(blocks: seq<Block>, items: seq<WorkItem>) {
    forall b :: 0 <= b < |blocks| ==> blocks[b] != [] && forall x :: x in blocks[b] ==> x in items
  }

  lemma PutBlocksOf(blocks: seq<Block>, items: seq<WorkItem>, item: WorkItem, choice: Option<nat>)
    requires BlocksOf(blocks, items) && (choice.Some? ==> choice.value < |blocks|)
    ensures BlocksOf(Put(blocks, item, choice), items + [item])
  {
  }

  lemma PlaceIsPut(blocks: seq<Block>, item: WorkItem, target: real, ceiling: real)
    ensures var choice := BestTarget(Totals(blocks), item.hours, target, ceiling);
      && (choice.Some? ==> choice.value < |blocks|)
      && Place(blocks, item, target, ceiling) == Put(blocks, item, choice)
  {
  }

  lemma {:induction false} PlacedBlocksOf(items: seq<WorkItem>, target: real, ceiling: real)
    ensures BlocksOf(PlaceAll(items, target, ceiling), items) && BlocksOf(PlaceAllFirst(items, ceiling), items)
  {
    hide Put, BlocksOf, Totals, Place;
    if items == [] {
      NoBlocks();
    } else {
      var n := |items| - 1;
      assert items == items[..n] + [items[n]];
      PlacedBlocksOf(items[..n], target, ceiling);
      var a, b := PlaceAll(items[..n], target, ceiling), PlaceAllFirst(items[..n], ceiling);
      PlaceIsPut(a, items[n], target, ceiling);
      PutBlocksOf(a, items[..n], items[n], BestTarget(Totals(a), items[n].hours, target, ceiling));
      PutBlocksOf(b, items[..n], items[n], FirstRoom(Totals(b), items[n].hours, ceiling));
    }
  }

  lemma NoBlocks()
    ensures BlocksOf([], [])
  {
  }

  /** A new item shows where it was put. */
  lemma PutInjective(a: seq<Block>, b: seq<Block>, items: seq<WorkItem>, item: WorkItem, left: Option<nat>, right: Option<nat>)
    requires BlocksOf(a, items) && BlocksOf(b, items) && item !in items
    requires (left.Some? ==> left.value < |a|) && (right.Some? ==> right.value < |b|)
    requires Put(a, item, left) == Put(b, item, right)
    ensures a == b && left == right
  {
    var next := Put(a, item, left);
    var i, j := if left.Some? then left.value else |a|, if right.Some? then right.value else |b|;
    forall k | 0 <= k < |next|
      ensures item in next[k] <==> k == i
      ensures item in next[k] <==> k == j
    {
      assert k < |a| ==> item !in a[k];
      assert k < |b| ==> item !in b[k];
      assert k == i ==> next[k][|next[k]| - 1] == item;
      assert k == j ==> next[k][|next[k]| - 1] == item;
    }
    assert item in next[i] && i == j;
    Undone(a, item, left);
    Undone(b, item, right);
  }

  /** Putting an item is undone by taking it away again. */
  lemma Undone(blocks: seq<Block>, item: WorkItem, choice: Option<nat>)
    requires choice.Some? ==> choice.value < |blocks| && blocks[choice.value] != []
    ensures var next, k := Put(blocks, item, choice), if choice.Some? then choice.value else |blocks|;
      && k < |next| && next[k] != []
      && (choice.None? <==> |next[k]| == 1)
      && blocks == if choice.None? then next[..k] else next[k := next[k][..|next[k]| - 1]]
  {
  }

  /** The two packings of different items are the same exactly when, at every item, no later block with
      room would have come closer to the target than the first. */
  lemma {:induction false} PlacementsAgreeIff(items: seq<WorkItem>, target: real, ceiling: real)
    requires Distinct(items)
    ensures PlaceAll(items, target, ceiling) == PlaceAllFirst(items, ceiling) <==>
      forall k :: 0 <= k < |items| ==>
        FirstIsClosest(Totals(PlaceAll(items[..k], target, ceiling)), items[k].hours, target, ceiling)
  {
    hide Put, BlocksOf, Totals, Place, FirstIsClosest;
    if items != [] {
      var n := |items| - 1;
      var front, item := items[..n], items[n];
      PlacementsAgreeIff(front, target, ceiling);
      PlacedBlocksOf(front, target, ceiling);
      var a, b := PlaceAll(front, target, ceiling), PlaceAllFirst(front, ceiling);
      PlaceIsPut(a, item, target, ceiling);
      ChoiceIsFirstFitIff(Totals(a), item.hours, target, ceiling);
      if PlaceAll(items, target, ceiling) == PlaceAllFirst(items, ceiling) {
        PutInjective(a, b, front, item, BestTarget(Totals(a), item.hours, target, ceiling), FirstRoom(Totals(b), item.hours, ceiling));
      }
      forall k | 0 <= k < n
        ensures items[..k] == front[..k]
      {
      }
    }
  }

  /** First fit decreasing and the packer, on the same items. */
  lemma PackingsAgreeIff(items: seq<WorkItem>, target: real, ceiling: real)
    requires Distinct(items)
    ensures var sorted := Sort(items, Larger);
      Pack(items, target, ceiling) == PackFirst(items, ceiling) <==>
        forall k :: 0 <= k < |sorted| ==>
          FirstIsClosest(Totals(PlaceAll(sorted[..k], target, ceiling)), sorted[k].hours, target, ceiling)
  {
    hide Sort, FirstIsClosest, PlaceAll, PlaceAllFirst;
    SortPermutes(items, Larger);
    DistinctPermute(items, Sort(items, Larger));
    PlacementsAgreeIff(Sort(items, Larger), target, ceiling);
  }

  lemma PlaceOneMore(items: seq<WorkItem>, item: WorkItem, target: real, ceiling: real)
    ensures PlaceAll(items + [item], target, ceiling) == Place(PlaceAll(items, target, ceiling), item, target, ceiling)
    ensures PlaceAllFirst(items + [item], ceiling) == PlaceFirst(PlaceAllFirst(items, ceiling), item, ceiling)
  {
    hide Place, PlaceFirst;
    assert (items + [item])[..|items|] == items;
  }

  lemma TwoTotals(a: WorkItem, b: WorkItem)
    ensures Totals([]) == [] && Totals([[a]]) == [a.hours] && Totals([[a], [b]]) == [a.hours, b.hours]
  {
    hide Weigh;
    WeighOne(a, HoursOf);
    WeighOne(b, HoursOf);
  }

  /** Room for the third item in both of two blocks, of which the second comes to the target. */
  lemma ThreeChoices()
    ensures BestTarget([], 6.0, 8.0, 10.0) == FirstRoom([], 6.0, 10.0) == None
    ensures BestTarget([6.0], 5.0, 8.0, 10.0) == FirstRoom([6.0], 5.0, 10.0) == None
    ensures BestTarget([6.0, 5.0], 3.0, 8.0, 10.0) == Some(1) && FirstRoom([6.0, 5.0], 3.0, 10.0) == Some(0)
  {
    assert Fits([6.0, 5.0], 0, 3.0, 10.0) && Fits([6.0, 5.0], 1, 3.0, 10.0);
    assert Deviation(8.0, [6.0, 5.0][0] + 3.0) == 1.0 && Deviation(8.0, [6.0, 5.0][1] + 3.0) == 0.0;
  }

  lemma SortThree(a: WorkItem, b: WorkItem, c: WorkItem)
    requires a.hours > b.hours > c.hours
    ensures Sort([a, b, c], Larger) == [a, b, c]
  {
    assert [a, b, c][1..] == [b, c] && [b, c][1..] == [c] && [c][1..] == [];
    assert Sort([c], Larger) == [c] && Sort([b, c], Larger) == [b, c];
  }

  /** Items of 6, 5 and 3 hours, with a target of 8 and at most 10: the packer puts the last one behind
      the 5, first fit behind the 6. */
  lemma NotFirstFit(a: WorkItem, b: WorkItem, c: WorkItem)
    requires a.hours == 6.0 && b.hours == 5.0 && c.hours == 3.0
    ensures Pack([a, b, c], 8.0, 10.0) == [[a], [b, c]] && PackFirst([a, b, c], 10.0) == [[a, c], [b]]
  {
    hide BestTarget, FirstRoom, Totals, Sort, PlaceAll, PlaceAllFirst;
    SortThree(a, b, c);
    ThreeChoices();
    TwoTotals(a, b);
    assert [] + [a] == [a] && [a] + [b] == [a, b] && [a, b] + [c] == [a, b, c] && [b] + [c] == [b, c] && [a] + [c] == [a, c];
    NothingPlaced(8.0, 10.0);
    PlaceOneMore([], a, 8.0, 10.0);
    PlaceOneMore([a], b, 8.0, 10.0);
    PlaceOneMore([a, b], c, 8.0, 10.0);
    assert [] + [[a]] == [[a]] && [[a]] + [[b]] == [[a], [b]];
  }

  lemma NothingPlaced(target: real, ceiling: real)
    ensures PlaceAll([], target, ceiling) == PlaceAllFirst([], ceiling) == []
  {
  }
}
