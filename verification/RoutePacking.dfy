/** Sequential packing of route bundles into chunks: a chunk is closed when it reaches the
    target or when the next bundle would push it over the maximum. */
module RoutePacking {
  import opened Results
  import opened Aggregates
  import opened Sequences
  import opened RouteBundles

  type Chunk = seq<Bundle>

  function ChunkHours(chunk: Chunk): real {
    Weigh(chunk, BundleHours)
  }

  /** Chunk `c` had to end where it ends: it is full, or the next bundle does not fit. */
  ghost predicate Ended(chunks: seq<Chunk>, c: nat, full: real, ceiling: real)
    requires c + 1 < |chunks| && chunks[c + 1] != []
  {
    ChunkHours(chunks[c]) >= full || ChunkHours(chunks[c]) + chunks[c + 1][0].hours > ceiling
  }

  /** What the packer promises: the bundles in their order, cut into non-empty chunks within the
      ceiling, each cut no earlier and no later than it must be. */
  ghost predicate IsGreedy(chunks: seq<Chunk>, bundles: seq<Bundle>, full: real, ceiling: real) {
    && Flatten(chunks) == bundles
    && (forall c :: 0 <= c < |chunks| ==> chunks[c] != [] && ChunkHours(chunks[c]) <= ceiling)
    && (forall c, k :: 0 <= c < |chunks| && 0 < k < |chunks[c]| ==> ChunkHours(chunks[c][..k]) < full)
    && (forall c :: 0 <= c < |chunks| - 1 ==> Ended(chunks, c, full, ceiling))
  }

  function WithCurrent(chunks: seq<Chunk>, current: Chunk): seq<Chunk> {
    if current == [] then chunks else chunks + [current]
  }

  method PackRouteBundles(bundles: seq<Bundle>, target: real, maximum: real, tolerance: real)
    returns (r: Result<seq<Chunk>, Bundle>)
    ensures r.Failure? <==> exists b :: b in bundles && b.hours > maximum + tolerance
    ensures r.Failure? ==> exists k ::
      && 0 <= k < |bundles| && bundles[k] == r.error && r.error.hours > maximum + tolerance
      && forall j :: 0 <= j < k ==> bundles[j].hours <= maximum + tolerance
    ensures r.Success? ==> IsGreedy(r.value, bundles, target - tolerance, maximum + tolerance)
  {
    hide IsGreedy, Weigh;
    var chunks: seq<Chunk>, current: Chunk, total := [], [], 0.0;
    NothingIsGreedy(target - tolerance, maximum + tolerance);
    WeighNothing(BundleHours);
    for n := 0 to |bundles|
      invariant forall j :: 0 <= j < n ==> bundles[j].hours <= maximum + tolerance
      invariant total == ChunkHours(current) && (current != [] ==> total < target - tolerance)
      invariant IsGreedy(WithCurrent(chunks, current), bundles[..n], target - tolerance, maximum + tolerance)
      invariant current == [] && chunks != [] ==> ChunkHours(chunks[|chunks| - 1]) >= target - tolerance
    {
      var bundle := bundles[n];
      if bundle.hours > maximum + tolerance {
        assert bundle in bundles;
        return Failure(bundle);
      }
      assert bundles[..n + 1] == bundles[..n] + [bundle];
      if current != [] && total + bundle.hours > maximum + tolerance {
        OpenChunk(WithCurrent(chunks, current), bundles[..n], bundle, target - tolerance, maximum + tolerance);
        chunks := chunks + [current];
        current := [];
        total := 0.0;
      } else if current == [] {
        OpenChunk(chunks, bundles[..n], bundle, target - tolerance, maximum + tolerance);
      } else {
        GrowChunk(chunks, current, bundles[..n], bundle, target - tolerance, maximum + tolerance);
      }
      WeighSnoc(current, bundle, BundleHours);
      assert current == [] ==> current + [bundle] == [bundle];
      current := current + [bundle];
      total := total + bundle.hours;
      if total >= target - tolerance {
        chunks := chunks + [current];
        current := [];
        total := 0.0;
      }
    }
    assert bundles[..|bundles|] == bundles;
    if current != [] {
      chunks := chunks + [current];
    }
    r := Success(chunks);
  }

  lemma WeighNothing<T>(w: T -> real)
    ensures Weigh([], w) == 0.0
  {
  }

  lemma NothingIsGreedy(full: real, ceiling: real)
    ensures IsGreedy([], [], full, ceiling)
  {
  }

  /** A bundle opens a new chunk after a chunk that has ended. */
  lemma OpenChunk(chunks: seq<Chunk>, bundles: seq<Bundle>, bundle: Bundle, full: real, ceiling: real)
    requires IsGreedy(chunks, bundles, full, ceiling) && bundle.hours <= ceiling
    requires chunks != [] ==>
      var last := ChunkHours(chunks[|chunks| - 1]);
      last >= full || last + bundle.hours > ceiling
    ensures IsGreedy(chunks + [[bundle]], bundles + [bundle], full, ceiling)
  {
    hide Weigh, Flatten;
    var next := chunks + [[bundle]];
    FlattenSnoc(chunks, [bundle]);
    WeighOne(bundle, BundleHours);
    forall c | 0 <= c < |next| - 1
      ensures Ended(next, c, full, ceiling)
    {
      assert c < |chunks| - 1 ==> Ended(chunks, c, full, ceiling);
    }
  }

  /** A bundle joins the current chunk, which is neither full nor overfilled by it. */
  lemma GrowChunk(chunks: seq<Chunk>, current: Chunk, bundles: seq<Bundle>, bundle: Bundle, full: real, ceiling: real)
    requires current != [] && IsGreedy(chunks + [current], bundles, full, ceiling)
    requires ChunkHours(current) < full && ChunkHours(current) + bundle.hours <= ceiling
    ensures IsGreedy(chunks + [current + [bundle]], bundles + [bundle], full, ceiling)
  {
    hide Weigh, Flatten;
    var before, next := chunks + [current], chunks + [current + [bundle]];
    FlattenSnoc(chunks, current);
    FlattenSnoc(chunks, current + [bundle]);
    Associative(Flatten(chunks), current, [bundle]);
    WeighSnoc(current, bundle, BundleHours);
    assert forall c :: 0 <= c < |chunks| ==> next[c] == before[c];
    forall c, k | 0 <= c < |next| && 0 < k < |next[c]|
      ensures ChunkHours(next[c][..k]) < full
    {
      if c < |chunks| {
        assert next[c] == before[c];
      } else if k < |current| {
        assert next[c][..k] == before[c][..k];
      } else {
        assert next[c][..k] == current;
      }
    }
    forall c | 0 <= c < |next| - 1
      ensures Ended(next, c, full, ceiling)
    {
      assert before[c + 1] != [] && Ended(before, c, full, ceiling);
    }
  }

  // ---------- How good the chunks are ----------

  ghost predicate NonNegativeHours(bundles: seq<Bundle>) {
    forall i :: 0 <= i < |bundles| ==> bundles[i].hours >= 0.0
  }

  /** An order-preserving partition whose chunks stay within the target. */
  ghost predicate WithinTarget(other: seq<Chunk>, bundles: seq<Bundle>, full: real) {
    && Flatten(other) == bundles
    && forall c :: 0 <= c < |other| ==> ChunkHours(other[c]) <= full
  }

  /** Where chunk `c` begins in the bundle list. */
  function Offset(chunks: seq<Chunk>, c: nat): nat
    requires c <= |chunks|
  {
    |Flatten(chunks[..c])|
  }

  lemma {:induction false} FlattenPrefix(chunks: seq<Chunk>, c: nat)
    requires c < |chunks|
    ensures Offset(chunks, c) + |chunks[c]| == Offset(chunks, c + 1) <= |Flatten(chunks)|
    ensures Flatten(chunks)[Offset(chunks, c)..Offset(chunks, c + 1)] == chunks[c]
  {
    assert chunks == chunks[..c] + [chunks[c]] + chunks[c + 1..];
    assert chunks[..c + 1] == chunks[..c] + [chunks[c]];
    FlattenSnoc(chunks[..c], chunks[c]);
    FlattenConcat(chunks[..c] + [chunks[c]], chunks[c + 1..]);
  }

  /** A longer stretch of bundles takes at least as long, plus any one bundle it has in addition. */
  lemma StretchHours(bundles: seq<Bundle>, from: nat, low: nat, high: nat, to: nat)
    requires from <= low <= high < to <= |bundles| && NonNegativeHours(bundles)
    ensures ChunkHours(bundles[from..to]) >= ChunkHours(bundles[low..high]) + bundles[high].hours
  {
    hide Weigh;
    var a, b, c, d := bundles[from..low], bundles[low..high], [bundles[high]], bundles[high + 1..to];
    assert bundles[from..to] == a + b + c + d;
    WeighConcat(a + b + c, d, BundleHours);
    WeighConcat(a + b, c, BundleHours);
    WeighConcat(a, b, BundleHours);
    WeighOne(bundles[high], BundleHours);
    WeighNonNegative(a, BundleHours);
    WeighNonNegative(d, BundleHours);
  }

  /** Bundles take no time together exactly when none of them takes time. */
  lemma {:induction false} IdleIff(bundles: seq<Bundle>)
    requires NonNegativeHours(bundles)
    ensures ChunkHours(bundles) >= 0.0
    ensures ChunkHours(bundles) == 0.0 <==> forall i :: 0 <= i < |bundles| ==> bundles[i].hours == 0.0
  {
    if bundles != [] {
      var n := |bundles| - 1;
      IdleIff(bundles[..n]);
      assert bundles == bundles[..n] + [bundles[n]];
    }
  }

  lemma CutStretch(bundles: seq<Bundle>, from: nat, cut: nat, to: nat)
    requires from <= cut <= to <= |bundles|
    ensures ChunkHours(bundles[from..to]) == ChunkHours(bundles[from..cut]) + ChunkHours(bundles[cut..to])
  {
    hide Weigh;
    assert bundles[from..to] == bundles[from..cut] + bundles[cut..to];
    WeighConcat(bundles[from..cut], bundles[cut..to], BundleHours);
  }

  /** Where a stretch begins later, but skips idle bundles only, it takes no less. */
  lemma SkippingIdle(bundles: seq<Bundle>, low: nat, high: nat, from: nat, to: nat)
    requires low <= high < to <= |bundles| && from <= to && NonNegativeHours(bundles)
    requires forall i :: low <= i < from ==> bundles[i].hours == 0.0
    ensures ChunkHours(bundles[low..high]) + ChunkHours(bundles[high..to]) <= ChunkHours(bundles[from..to])
    ensures bundles[high].hours <= ChunkHours(bundles[high..to])
  {
    hide Weigh;
    CutStretch(bundles, low, high, to);
    if from <= low {
      CutStretch(bundles, from, low, to);
      IdleIff(bundles[from..low]);
    } else {
      CutStretch(bundles, low, from, to);
      IdleIff(bundles[low..from]);
    }
    StretchHours(bundles, high, high, high, to);
    assert bundles[high..high] == [];
    WeighNothing(BundleHours);
  }

  /** Greedy stays ahead: after `c` chunks it has packed every bundle that takes time among those that
      an order-preserving partition within the target has packed. */
  lemma {:induction false} StaysAhead(chunks: seq<Chunk>, other: seq<Chunk>, bundles: seq<Bundle>, full: real, ceiling: real, c: nat)
    requires IsGreedy(chunks, bundles, full, ceiling) && full <= ceiling
    requires WithinTarget(other, bundles, full) && NonNegativeHours(bundles)
    requires c <= |chunks| && c <= |other|
    ensures Offset(chunks, c) <= |bundles| && Offset(other, c) <= |bundles|
    ensures forall i :: Offset(chunks, c) <= i < Offset(other, c) ==> bundles[i].hours == 0.0
  {
    hide Weigh, Flatten;
    if c == 0 {
      FlattenNothing();
    } else {
      StaysAhead(chunks, other, bundles, full, ceiling, c - 1);
      FlattenPrefix(chunks, c - 1);
      FlattenPrefix(other, c - 1);
      var low, high, from, to := Offset(chunks, c - 1), Offset(chunks, c), Offset(other, c - 1), Offset(other, c);
      if high < to {
        assert chunks[..|chunks|] == chunks;
        FlattenPrefix(chunks, c);
        assert chunks[c][0] == bundles[high];
        assert Ended(chunks, c - 1, full, ceiling);
        SkippingIdle(bundles, low, high, from, to);
        IdleIff(bundles[high..to]);
        forall i | high <= i < to
          ensures bundles[i].hours == 0.0
        {
          assert bundles[i] == bundles[high..to][i - high];
        }
      }
    }
  }

  lemma FlattenNothing()
    ensures Flatten<Bundle>([]) == []
  {
  }

  /** The chunks behind those that another partition needs take no time. */
  lemma SparesAreIdle(chunks: seq<Chunk>, other: seq<Chunk>, bundles: seq<Bundle>, full: real, ceiling: real, c: nat)
    requires IsGreedy(chunks, bundles, full, ceiling) && full <= ceiling
    requires WithinTarget(other, bundles, full) && NonNegativeHours(bundles)
    requires |other| <= c < |chunks|
    ensures ChunkHours(chunks[c]) == 0.0 && chunks[c][0].hours == 0.0
  {
    hide Weigh, Flatten;
    StaysAhead(chunks, other, bundles, full, ceiling, |other|);
    assert other[..|other|] == other;
    OffsetsRise(chunks, |other|, c);
    FlattenPrefix(chunks, c);
    forall i | 0 <= i < |chunks[c]|
      ensures chunks[c][i].hours == 0.0
    {
      assert chunks[c][i] == bundles[Offset(chunks, c) + i];
    }
    IdleIff(chunks[c]);
  }

  lemma {:induction false} OffsetsRise(chunks: seq<Chunk>, a: nat, b: nat)
    requires a <= b <= |chunks|
    ensures Offset(chunks, a) <= Offset(chunks, b)
    decreases b
  {
    hide Flatten;
    if a < b {
      OffsetsRise(chunks, a, b - 1);
      FlattenPrefix(chunks, b - 1);
    }
  }

  /** The packer needs at most one chunk more than any order-preserving partition within the target, and
      that one only if its last chunk takes no time. */
  lemma FewestChunks(chunks: seq<Chunk>, other: seq<Chunk>, bundles: seq<Bundle>, full: real, ceiling: real)
    requires IsGreedy(chunks, bundles, full, ceiling) && full <= ceiling
    requires WithinTarget(other, bundles, full) && NonNegativeHours(bundles)
    ensures |chunks| > |other| ==> ChunkHours(chunks[|chunks| - 1]) == 0.0
    ensures full > 0.0 ==> |chunks| <= |other| + 1
  {
    hide Weigh, Flatten;
    var n := |chunks|;
    if n > |other| {
      SparesAreIdle(chunks, other, bundles, full, ceiling, n - 1);
      if n > |other| + 1 {
        SparesAreIdle(chunks, other, bundles, full, ceiling, n - 2);
        assert Ended(chunks, n - 2, full, ceiling);
      }
    }
  }

  /** What a caller can check: as soon as the last bundle takes time, no order-preserving partition within
      the target has fewer chunks, whatever idle bundles come before. */
  lemma FewestIfLastTakesTime(chunks: seq<Chunk>, other: seq<Chunk>, bundles: seq<Bundle>, full: real, ceiling: real)
    requires IsGreedy(chunks, bundles, full, ceiling) && full <= ceiling
    requires WithinTarget(other, bundles, full) && NonNegativeHours(bundles)
    requires bundles != [] && bundles[|bundles| - 1].hours > 0.0
    ensures |chunks| <= |other|
  {
    hide Weigh, Flatten;
    FewestChunks(chunks, other, bundles, full, ceiling);
    LastChunk(chunks);
    var last := chunks[|chunks| - 1];
    assert last[|last| - 1] == bundles[|bundles| - 1];
    assert last == bundles[|bundles| - |last|..];
    IdleIff(last);
  }

  /** Chunks that hold something at all end with the last bundle. */
  lemma LastChunk(chunks: seq<Chunk>)
    requires Flatten(chunks) != [] && forall c :: 0 <= c < |chunks| ==> chunks[c] != []
    ensures chunks != []
    ensures var last, bundles := chunks[|chunks| - 1], Flatten(chunks);
      |last| <= |bundles| && last == bundles[|bundles| - |last|..]
  {
    if chunks != [] {
      assert chunks[..|chunks|] == chunks;
      FlattenPrefix(chunks, |chunks| - 1);
    }
  }

  /** Exactly when the chunks are the fewest possible, if target and maximum are the same or no chunk
      exceeds the target: there is one at most, or the last one takes time. */
  lemma FewestIff(chunks: seq<Chunk>, bundles: seq<Bundle>, full: real, ceiling: real)
    requires IsGreedy(chunks, bundles, full, ceiling) && full <= ceiling && NonNegativeHours(bundles)
    requires full == ceiling || WithinTarget(chunks, bundles, full)
    ensures (forall other :: WithinTarget(other, bundles, full) ==> |chunks| <= |other|) <==>
      |chunks| <= 1 || ChunkHours(chunks[|chunks| - 1]) > 0.0
  {
    hide Weigh, Flatten;
    var n := |chunks|;
    if n <= 1 || ChunkHours(chunks[n - 1]) > 0.0 {
      forall other | WithinTarget(other, bundles, full)
        ensures n <= |other|
      {
        FewestChunks(chunks, other, bundles, full, ceiling);
        FlattenNothing();
        assert n == 1 && other == [] ==> chunks[..1] == chunks;
        if n == 1 {
          FlattenPrefix(chunks, 0);
        }
      }
    } else {
      LastHours(chunks, bundles);
      var other := MergeLastTwo(chunks, bundles, full);
      assert WithinTarget(other, bundles, full) && |other| < n;
    }
  }

  lemma LastHours(chunks: seq<Chunk>, bundles: seq<Bundle>)
    requires chunks != [] && Flatten(chunks) == bundles && NonNegativeHours(bundles)
    ensures ChunkHours(chunks[|chunks| - 1]) >= 0.0
  {
    hide Weigh, Flatten;
    var n := |chunks| - 1;
    FlattenPrefix(chunks, n);
    assert chunks[..n + 1] == chunks;
    IdleIff(bundles[Offset(chunks, n)..Offset(chunks, n + 1)]);
  }

  /** An idle last chunk can join the one before it. */
  lemma MergeLastTwo(chunks: seq<Chunk>, bundles: seq<Bundle>, full: real) returns (other: seq<Chunk>)
    requires |chunks| > 1 && WithinTarget(chunks, bundles, full) && ChunkHours(chunks[|chunks| - 1]) == 0.0
    ensures WithinTarget(other, bundles, full) && |other| == |chunks| - 1
  {
    hide Weigh, Flatten;
    var n := |chunks|;
    var front, a, b := chunks[..n - 2], chunks[n - 2], chunks[n - 1];
    assert chunks == front + [a] + [b];
    FlattenSnoc(front + [a], b);
    FlattenSnoc(front, a);
    FlattenSnoc(front, a + b);
    Associative(Flatten(front), a, b);
    WeighConcat(a, b, BundleHours);
    other := front + [a + b];
  }

  /** The family of the smallest such lists: behind a bundle that fills a chunk, one without duration. */
  lemma IdleBundleCostsAChunk(a: Bundle, b: Bundle)
    requires a.hours > 0.0 && b.hours == 0.0
    ensures IsGreedy([[a], [b]], [a, b], a.hours, a.hours) && WithinTarget([[a, b]], [a, b], a.hours)
  {
    hide Weigh, Flatten;
    var chunks := [[a], [b]];
    FlattenOne([a, b]);
    FlattenOne([a]);
    FlattenSnoc([[a]], [b]);
    assert [[a]] + [[b]] == chunks && [a] + [b] == [a, b];
    WeighOne(a, BundleHours);
    WeighOne(b, BundleHours);
    WeighSnoc([a], b, BundleHours);
    assert Ended(chunks, 0, a.hours, a.hours);
  }

  lemma EndsNoEarlier(chunks: seq<Chunk>, other: seq<Chunk>, bundles: seq<Bundle>, full: real, ceiling: real, c: nat)
    requires IsGreedy(chunks, bundles, full, ceiling) && IsGreedy(other, bundles, full, ceiling)
    requires NonNegativeHours(bundles) && c < |chunks| && c < |other| && Offset(chunks, c) == Offset(other, c)
    ensures Offset(chunks, c + 1) >= Offset(other, c + 1)
  {
    hide Weigh, Flatten;
    FlattenPrefix(chunks, c);
    FlattenPrefix(other, c);
    var low, high, to := Offset(chunks, c), Offset(chunks, c + 1), Offset(other, c + 1);
    if high < to {
      assert chunks[..|chunks|] == chunks;
      FlattenPrefix(chunks, c + 1);
      assert chunks[c + 1][0] == bundles[high];
      assert other[c][..high - low] == chunks[c];
      assert Ended(chunks, c, full, ceiling);
      StretchHours(bundles, low, low, high, to);
    }
  }

  lemma {:induction false} SameOffsets(chunks: seq<Chunk>, other: seq<Chunk>, bundles: seq<Bundle>, full: real, ceiling: real, c: nat)
    requires IsGreedy(chunks, bundles, full, ceiling) && IsGreedy(other, bundles, full, ceiling)
    requires NonNegativeHours(bundles) && c <= |chunks| && c <= |other|
    ensures Offset(chunks, c) == Offset(other, c)
  {
    hide Weigh, Flatten, IsGreedy;
    if c > 0 {
      SameOffsets(chunks, other, bundles, full, ceiling, c - 1);
      EndsNoEarlier(chunks, other, bundles, full, ceiling, c - 1);
      EndsNoEarlier(other, chunks, bundles, full, ceiling, c - 1);
    }
  }

  /** The contract leaves one outcome: two greedy partitions of the same bundles are the same. */
  lemma GreedyIsUnique(chunks: seq<Chunk>, other: seq<Chunk>, bundles: seq<Bundle>, full: real, ceiling: real)
    requires IsGreedy(chunks, bundles, full, ceiling) && IsGreedy(other, bundles, full, ceiling)
    requires NonNegativeHours(bundles)
    ensures chunks == other
  {
    hide Weigh, Flatten;
    NoLonger(chunks, other, bundles, full, ceiling);
    NoLonger(other, chunks, bundles, full, ceiling);
    forall c | 0 <= c < |chunks|
      ensures chunks[c] == other[c]
    {
      SameOffsets(chunks, other, bundles, full, ceiling, c);
      SameOffsets(chunks, other, bundles, full, ceiling, c + 1);
      FlattenPrefix(chunks, c);
      FlattenPrefix(other, c);
    }
  }

  lemma NoLonger(chunks: seq<Chunk>, other: seq<Chunk>, bundles: seq<Bundle>, full: real, ceiling: real)
    requires IsGreedy(chunks, bundles, full, ceiling) && IsGreedy(other, bundles, full, ceiling)
    requires NonNegativeHours(bundles)
    ensures |chunks| <= |other|
  {
    hide Weigh, Flatten;
    if |chunks| > |other| {
      assert other[..|other|] == other;
      FlattenPrefix(chunks, |other|);
      SameOffsets(chunks, other, bundles, full, ceiling, |other|);
    }
  }
}
