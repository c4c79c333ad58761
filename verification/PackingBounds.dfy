/** What the block packer guarantees: it loses nothing, respects the ceiling, leaves no two
    blocks that could be merged, and needs at most half again as many blocks as any packing. */
module PackingBounds {
  import opened Sorting
  import opened Sums
  import opened Aggregates
  import opened BlockPacking

  /** The hours of the items that last at least `y`. */
  function TallOnly(y: real): WorkItem -> real {
    (item: WorkItem) => if item.hours >= y then item.hours else 0.0
  }

  function Opener(block: Block): real {
    if block == [] then 0.0 else block[0].hours
  }

  ghost predicate NonEmptyBlocks(blocks: seq<Block>) {
    forall b :: 0 <= b < |blocks| ==> blocks[b] != []
  }

  ghost predicate NonNegativeBlock(block: Block) {
    forall i :: 0 <= i < |block| ==> block[i].hours >= 0.0
  }

  /** Every block was opened by an item that fits into no earlier block, even counting only
      the items at least as long. This is the invariant of the packing loop. */
  ghost predicate Crowded(blocks: seq<Block>, ceiling: real) {
    forall j, i :: 0 <= j < i < |blocks| ==>
      Weigh(blocks[j], TallOnly(Opener(blocks[i]))) + Opener(blocks[i]) > ceiling
  }

  // ---------- One placement ----------

  lemma PlaceKeepsPacking(blocks: seq<Block>, items: seq<WorkItem>, item: WorkItem, target: real, ceiling: real)
    requires IsPacking(blocks, items, ceiling) && NonEmptyBlocks(blocks) && item.hours <= ceiling
    ensures IsPacking(Place(blocks, item, target, ceiling), items + [item], ceiling)
    ensures NonEmptyBlocks(Place(blocks, item, target, ceiling))
  {
    hide Weigh, Flatten;
    WeighOne(item, HoursOf);
    var selected := BestTarget(Totals(blocks), item.hours, target, ceiling);
    if selected.Some? {
      WeighConcat(blocks[selected.value], [item], HoursOf);
      FlattenGrow(blocks, selected.value, [item]);
    } else {
      FlattenConcat(blocks, [[item]]);
      FlattenOne([item]);
    }
  }

  lemma TallGrows(block: Block, item: WorkItem, y: real)
    requires item.hours >= 0.0
    ensures Weigh(block + [item], TallOnly(y)) >= Weigh(block, TallOnly(y))
  {
    assert (block + [item])[..|block|] == block;
  }

  lemma AllTall(block: Block, y: real)
    requires forall i :: 0 <= i < |block| ==> block[i].hours >= y
    ensures Weigh(block, TallOnly(y)) >= Hours(block)
  {
    WeighMonotone(block, HoursOf, TallOnly(y));
  }

  lemma TallWithin(block: Block, y: real)
    requires NonNegativeBlock(block)
    ensures Weigh(block, TallOnly(y)) <= Hours(block)
  {
    WeighMonotone(block, TallOnly(y), HoursOf);
  }

  lemma PlaceKeepsCrowded(blocks: seq<Block>, item: WorkItem, target: real, ceiling: real)
    requires Crowded(blocks, ceiling) && NonEmptyBlocks(blocks) && item.hours >= 0.0
    requires forall b, i :: 0 <= b < |blocks| && 0 <= i < |blocks[b]| ==> blocks[b][i].hours >= item.hours
    ensures Crowded(Place(blocks, item, target, ceiling), ceiling)
  {
    hide Weigh;
    var next := Place(blocks, item, target, ceiling);
    forall j, i | 0 <= j < i < |next|
      ensures Weigh(next[j], TallOnly(Opener(next[i]))) + Opener(next[i]) > ceiling
    {
      if i < |blocks| {
        assert Opener(next[i]) == Opener(blocks[i]);
        if next[j] != blocks[j] {
          TallGrows(blocks[j], item, Opener(blocks[i]));
        }
      } else {
        AllTall(blocks[j], item.hours);
        assert Totals(blocks)[j] + item.hours > ceiling;
      }
    }
  }

  // ---------- The whole run ----------

  /** A fact about every item survives the packing. */
  lemma MembersKept(blocks: seq<Block>, items: seq<WorkItem>, b: nat, i: nat)
    requires multiset(Flatten(blocks)) == multiset(items) && b < |blocks| && i < |blocks[b]|
    ensures blocks[b][i] in items
  {
    FlattenMember(blocks, b, i);
    assert blocks[b][i] in multiset(items);
  }

  lemma {:induction false} PlaceAllInvariant(items: seq<WorkItem>, target: real, ceiling: real)
    requires SortedBy(items, Larger) && Packable(items, ceiling)
    ensures IsPacking(PlaceAll(items, target, ceiling), items, ceiling)
    ensures NonEmptyBlocks(PlaceAll(items, target, ceiling))
    ensures Crowded(PlaceAll(items, target, ceiling), ceiling)
  {
    hide Place, Weigh;
    if items != [] {
      var n := |items| - 1;
      var blocks := PlaceAll(items[..n], target, ceiling);
      PlaceAllInvariant(items[..n], target, ceiling);
      assert items == items[..n] + [items[n]];
      PlaceKeepsPacking(blocks, items[..n], items[n], target, ceiling);
      forall b, i | 0 <= b < |blocks| && 0 <= i < |blocks[b]|
        ensures blocks[b][i].hours >= items[n].hours
      {
        MembersKept(blocks, items[..n], b, i);
        var k :| 0 <= k < n && items[k] == blocks[b][i];
        assert Larger(items[k], items[n]);
      }
      PlaceKeepsCrowded(blocks, items[n], target, ceiling);
    }
  }

  lemma PackInvariant(items: seq<WorkItem>, target: real, ceiling: real)
    requires Packable(items, ceiling)
    ensures IsPacking(Pack(items, target, ceiling), items, ceiling)
    ensures NonEmptyBlocks(Pack(items, target, ceiling))
    ensures Crowded(Pack(items, target, ceiling), ceiling)
    ensures forall b :: 0 <= b < |Pack(items, target, ceiling)| ==> NonNegativeBlock(Pack(items, target, ceiling)[b])
  {
    hide PlaceAll, Sort, Weigh;
    var sorted: seq<WorkItem>, blocks: seq<Block> := Sort(items, Larger), Pack(items, target, ceiling);
    SortSorts(items, Larger);
    SortPermutes(items, Larger);
    SortMembers(items, Larger);
    assert forall i :: 0 <= i < |sorted| ==> sorted[i] in items;
    PlaceAllInvariant(sorted, target, ceiling);
    forall b, i | 0 <= b < |blocks| && 0 <= i < |blocks[b]|
      ensures blocks[b][i].hours >= 0.0
    {
      MembersKept(blocks, sorted, b, i);
    }
  }

  /** No two blocks of the result could be run as one. */
  lemma NoTwoBlocksMerge(items: seq<WorkItem>, target: real, ceiling: real, i: nat, j: nat)
    requires Packable(items, ceiling)
    requires j < i < |Pack(items, target, ceiling)|
    ensures Hours(Pack(items, target, ceiling)[i]) + Hours(Pack(items, target, ceiling)[j]) > ceiling
  {
    hide Pack, Weigh;
    PackInvariant(items, target, ceiling);
    var blocks := Pack(items, target, ceiling);
    TallWithin(blocks[j], Opener(blocks[i]));
    WeighMember(blocks[i], 0, HoursOf);
  }

  /** Any per-item figure, such as executions or hours, has the same total over the blocks
      as over the items. */
  lemma BlockTotalsConserved(items: seq<WorkItem>, target: real, ceiling: real, figure: WorkItem -> real)
    requires Packable(items, ceiling)
    ensures Sum(GroupWeights(Pack(items, target, ceiling), figure)) == Weigh(items, figure)
  {
    hide Pack, Weigh;
    PackInvariant(items, target, ceiling);
    FlattenWeighs(Pack(items, target, ceiling), figure);
    WeighPermute(Flatten(Pack(items, target, ceiling)), items, figure);
  }

  // ---------- Against any other packing ----------

  /** An item shorter than `y` takes no slot, one that leaves no room for `y` takes two, others one. */
  function Slots(y: real, ceiling: real): WorkItem -> real {
    (item: WorkItem) => if item.hours < y then 0.0 else if item.hours + y > ceiling then 2.0 else 1.0
  }

  /** With no room left for `y`, both slots are taken. */
  lemma {:induction false} CrowdedTakesTwoSlots(block: Block, y: real, ceiling: real)
    requires 0.0 < y <= ceiling
    ensures var slots, tall := Weigh(block, Slots(y, ceiling)), Weigh(block, TallOnly(y));
      || (slots == 0.0 && tall == 0.0)
      || (slots == 1.0 && tall + y <= ceiling)
      || slots >= 2.0
  {
    if block != [] {
      CrowdedTakesTwoSlots(block[..|block| - 1], y, ceiling);
    }
  }

  /** When three `y` exceed the ceiling, a block within the ceiling takes at most two slots. */
  lemma {:induction false} FeasibleTakesTwoSlots(block: Block, y: real, ceiling: real)
    requires 0.0 < y && 3.0 * y > ceiling && NonNegativeBlock(block)
    ensures var slots, tall := Weigh(block, Slots(y, ceiling)), Weigh(block, TallOnly(y));
      || (slots == 0.0 && tall >= 0.0)
      || (slots == 1.0 && tall >= y)
      || (slots == 2.0 && tall >= y && (tall + y > ceiling || tall >= 2.0 * y))
      || (slots >= 3.0 && tall > ceiling)
  {
    if block != [] {
      FeasibleTakesTwoSlots(block[..|block| - 1], y, ceiling);
    }
  }

  /** `w` weighs both packings of the same items alike. */
  lemma PackingsWeighAlike(a: seq<Block>, b: seq<Block>, items: seq<WorkItem>, ceiling: real, w: WorkItem -> real)
    requires IsPacking(a, items, ceiling) && IsPacking(b, items, ceiling)
    ensures Sum(GroupWeights(a, w)) == Sum(GroupWeights(b, w))
  {
    hide Weigh;
    FlattenWeighs(a, w);
    FlattenWeighs(b, w);
    WeighPermute(Flatten(a), Flatten(b), w);
  }

  lemma OtherIsNonNegative(other: seq<Block>, items: seq<WorkItem>, ceiling: real)
    requires IsPacking(other, items, ceiling) && Packable(items, ceiling)
    ensures forall b :: 0 <= b < |other| ==> NonNegativeBlock(other[b])
  {
    forall b, i | 0 <= b < |other| && 0 <= i < |other[b]|
      ensures other[b][i].hours >= 0.0
    {
      MembersKept(other, items, b, i);
    }
  }

  /** All blocks but the last take two slots each, and the last one at least one. */
  lemma OurSlots(blocks: seq<Block>, n: nat, y: real, ceiling: real)
    requires |blocks| == n + 1 && NonEmptyBlocks(blocks) && Crowded(blocks, ceiling)
    requires y == Opener(blocks[n]) && 0.0 < y <= ceiling
    ensures Sum(GroupWeights(blocks, Slots(y, ceiling))) >= 2.0 * n as real + 1.0
  {
    hide Weigh;
    var ours := GroupWeights(blocks, Slots(y, ceiling));
    forall b | 0 <= b < n
      ensures ours[..n][b] >= 2.0
    {
      CrowdedTakesTwoSlots(blocks[b], y, ceiling);
    }
    SumAtLeast(ours[..n], n as real, 2.0);
    SlotsNonNegative(blocks[n], y, ceiling);
    WeighMember(blocks[n], 0, Slots(y, ceiling));
  }

  lemma TheirSlots(other: seq<Block>, y: real, ceiling: real)
    requires 0.0 < y && 3.0 * y > ceiling
    requires forall b :: 0 <= b < |other| ==> NonNegativeBlock(other[b]) && Hours(other[b]) <= ceiling
    ensures Sum(GroupWeights(other, Slots(y, ceiling))) <= 2.0 * |other| as real
  {
    hide Weigh;
    var theirs := GroupWeights(other, Slots(y, ceiling));
    forall b | 0 <= b < |other|
      ensures theirs[b] <= 2.0
    {
      FeasibleTakesTwoSlots(other[b], y, ceiling);
      TallWithin(other[b], y);
    }
    SumAtMost(theirs, |other| as real, 2.0);
  }

  /** If the item that opened the last block exceeds a third of the ceiling, no packing
      uses fewer blocks. */
  lemma OptimalForLongItems(items: seq<WorkItem>, target: real, ceiling: real, other: seq<Block>)
    requires ceiling > 0.0 && Packable(items, ceiling) && IsPacking(other, items, ceiling)
    requires Pack(items, target, ceiling) != []
    requires 3.0 * Opener(Pack(items, target, ceiling)[|Pack(items, target, ceiling)| - 1]) > ceiling
    ensures |Pack(items, target, ceiling)| <= |other|
  {
    hide Pack, Weigh;
    PackInvariant(items, target, ceiling);
    var blocks := Pack(items, target, ceiling);
    var n := |blocks| - 1;
    var y := Opener(blocks[n]);
    OpenerWithinCeiling(blocks, items, ceiling, n);
    OurSlots(blocks, n, y, ceiling);
    OtherIsNonNegative(other, items, ceiling);
    TheirSlots(other, y, ceiling);
    PackingsWeighAlike(blocks, other, items, ceiling, Slots(y, ceiling));
  }

  lemma SlotsNonNegative(block: Block, y: real, ceiling: real)
    ensures forall i :: 0 <= i < |block| ==> Slots(y, ceiling)(block[i]) >= 0.0
  {
  }

  lemma OpenerWithinCeiling(blocks: seq<Block>, items: seq<WorkItem>, ceiling: real, b: nat)
    requires IsPacking(blocks, items, ceiling) && Packable(items, ceiling) && NonEmptyBlocks(blocks) && b < |blocks|
    ensures 0.0 <= Opener(blocks[b]) <= ceiling
  {
    MembersKept(blocks, items, b, 0);
  }

  lemma OurHours(blocks: seq<Block>, n: nat, y: real, ceiling: real, fill: real)
    requires |blocks| == n + 1 && n >= 1 && NonEmptyBlocks(blocks) && Crowded(blocks, ceiling)
    requires forall b :: 0 <= b < |blocks| ==> NonNegativeBlock(blocks[b]) && Hours(blocks[b]) <= ceiling
    requires y == Opener(blocks[n]) && y + fill <= ceiling
    ensures Sum(GroupWeights(blocks, HoursOf)) >= n as real * fill + y && y > 0.0
  {
    hide Weigh;
    var ours := GroupWeights(blocks, HoursOf);
    forall b | 0 <= b < n
      ensures ours[..n][b] > ceiling - y
    {
      TallWithin(blocks[b], y);
    }
    assert ours[..n][0] > ceiling - y;
    SumAtLeast(ours[..n], n as real, fill);
    WeighMember(blocks[n], 0, HoursOf);
  }

  /** With a short last opener, every other block is more than two thirds full. */
  lemma ShortOpenersFillBlocks(items: seq<WorkItem>, target: real, ceiling: real, other: seq<Block>)
    requires ceiling > 0.0 && Packable(items, ceiling) && IsPacking(other, items, ceiling)
    requires |Pack(items, target, ceiling)| >= 2
    requires 3.0 * Opener(Pack(items, target, ceiling)[|Pack(items, target, ceiling)| - 1]) <= ceiling
    ensures 2 * (|Pack(items, target, ceiling)| - 1) < 3 * |other|
  {
    hide Pack, Weigh;
    PackInvariant(items, target, ceiling);
    var blocks := Pack(items, target, ceiling);
    var n := |blocks| - 1;
    var y, fill := Opener(blocks[n]), ceiling * 2.0 / 3.0;
    OurHours(blocks, n, y, ceiling, fill);
    PackingsWeighAlike(blocks, other, items, ceiling, HoursOf);
    SumAtMost(GroupWeights(other, HoursOf), |other| as real, ceiling);
    FewerThanHalfAgain(n as real, |other| as real, ceiling, fill, y);
  }

  lemma FewerThanHalfAgain(n: real, k: real, ceiling: real, fill: real, y: real)
    requires fill == ceiling * 2.0 / 3.0 && ceiling > 0.0 && y > 0.0 && n * fill + y <= k * ceiling
    ensures 2.0 * n < 3.0 * k
  {
    assert n * fill == ceiling * (2.0 * n / 3.0);
    PositiveFactor(ceiling, k - 2.0 * n / 3.0);
  }

  lemma PositiveFactor(a: real, b: real)
    requires a > 0.0 && a * b > 0.0
    ensures b > 0.0
  {
  }

  /** The packer opens at most half again as many blocks as any packing within the same
      ceiling, and once it opens two, fewer than twice as many. */
  lemma AtMostHalfAgain(items: seq<WorkItem>, target: real, ceiling: real, other: seq<Block>)
    requires ceiling > 0.0 && Packable(items, ceiling) && IsPacking(other, items, ceiling)
    ensures 2 * |Pack(items, target, ceiling)| <= 3 * |other| + 1
    ensures |Pack(items, target, ceiling)| >= 2 ==> |Pack(items, target, ceiling)| < 2 * |other|
  {
    hide Pack, Weigh;
    PackInvariant(items, target, ceiling);
    var blocks := Pack(items, target, ceiling);
    if blocks != [] {
      MembersKept(blocks, items, 0, 0);
      OneBlockIsNotEnough(items, target, ceiling, other);
      if 3.0 * Opener(blocks[|blocks| - 1]) > ceiling {
        OptimalForLongItems(items, target, ceiling, other);
      } else if |blocks| >= 2 {
        ShortOpenersFillBlocks(items, target, ceiling, other);
      }
    }
  }

  lemma OneBlockIsNotEnough(items: seq<WorkItem>, target: real, ceiling: real, other: seq<Block>)
    requires ceiling > 0.0 && Packable(items, ceiling) && IsPacking(other, items, ceiling) && items != []
    ensures other != []
    ensures |Pack(items, target, ceiling)| >= 2 ==> |other| >= 2
  {
    hide Pack, Weigh;
    assert items[0] in multiset(Flatten(other));
    PackInvariant(items, target, ceiling);
    var blocks := Pack(items, target, ceiling);
    if |blocks| >= 2 {
      NoTwoBlocksMerge(items, target, ceiling, 1, 0);
      TwoBlocksTotal(blocks, ceiling);
      PackingsWeighAlike(blocks, other, items, ceiling, HoursOf);
      OneBlockTotal(other, ceiling);
    }
  }

  lemma TwoBlocksTotal(blocks: seq<Block>, ceiling: real)
    requires |blocks| >= 2 && Hours(blocks[1]) + Hours(blocks[0]) > ceiling
    requires forall b :: 0 <= b < |blocks| ==> NonNegativeBlock(blocks[b])
    ensures Sum(GroupWeights(blocks, HoursOf)) > ceiling
  {
    hide Weigh;
    var ours := GroupWeights(blocks, HoursOf);
    forall b | 0 <= b < |blocks| ensures ours[b] >= 0.0 {
      WeighNonNegative(blocks[b], HoursOf);
    }
    SumNonNegative(ours[2..]);
    assert ours == [ours[0]] + [ours[1]] + ours[2..];
    SumConcat([ours[0]] + [ours[1]], ours[2..]);
    SumConcat([ours[0]], [ours[1]]);
    SumOne(ours[0]);
    SumOne(ours[1]);
  }

  lemma OneBlockTotal(other: seq<Block>, ceiling: real)
    requires forall b :: 0 <= b < |other| ==> Hours(other[b]) <= ceiling
    ensures |other| == 1 ==> Sum(GroupWeights(other, HoursOf)) <= ceiling
  {
    if |other| == 1 {
      var theirs := GroupWeights(other, HoursOf);
      assert theirs == [theirs[0]];
      SumOne(theirs[0]);
    }
  }
}
