/** How far the report on two backend runs and the digests of their canonical cells agree. The
    report looks at the last cell listed under each key, the digest at all of them. */
module BackendDigests {
  import opened Results
  import opened Sorting
  import opened Lexicographic
  import opened Grouping
  import opened Sequences
  import opened CellPayload
  import opened BackendComparison
  import PayloadReader

  function HasKey(key: Key): Cell -> bool {
    (cell: Cell) => cell.key == key
  }

  /** The cells that a run lists under a key, in order. */
  function Under(cells: seq<Cell>, key: Key): seq<Cell> {
    Select(cells, HasKey(key))
  }

  /** Both runs list the same meanings under the key, in the same order. */
  ghost predicate SameVersions(reference: seq<Cell>, candidate: seq<Cell>, key: Key) {
    SemanticCells(Under(reference, key)) == SemanticCells(Under(candidate, key))
  }

  lemma {:induction false} LookupIsLast(cells: seq<Cell>, key: Key)
    ensures var under := Under(cells, key);
      Lookup(cells, key) == if under == [] then None else Some(under[|under| - 1])
  {
    if cells != [] {
      LookupIsLast(cells[..|cells| - 1], key);
    }
  }

  lemma SortingKeepsVersions(cells: seq<Cell>, key: Key)
    ensures Under(Canonical(cells), key) == Under(cells, key)
  {
    hide Sort, LexLeq;
    KeyIsAnOrder();
    SortStable(cells, CellLeq, HasKey(key));
  }

  lemma SameVersionsSnoc(a: seq<Cell>, b: seq<Cell>, key: Key)
    requires a != [] && b != [] && Semantic(a[|a| - 1]) == Semantic(b[|b| - 1])
    requires SameVersions(a, b, key)
    ensures SameVersions(a[..|a| - 1], b[..|b| - 1], key)
  {
    hide Select;
    var x, y := a[|a| - 1], b[|b| - 1];
    SelectSnoc(a[..|a| - 1], x, HasKey(key));
    SelectSnoc(b[..|b| - 1], y, HasKey(key));
    assert a == a[..|a| - 1] + [x] && b == b[..|b| - 1] + [y];
    SameKey(x, y);
    if x.key == key {
      var front, other := Under(a[..|a| - 1], key), Under(b[..|b| - 1], key);
      assert SemanticCells(Under(a, key))[..|front|] == SemanticCells(front);
      assert SemanticCells(Under(b, key))[..|other|] == SemanticCells(other);
    } else {
      assert Under(a, key) == Under(a[..|a| - 1], key) && Under(b, key) == Under(b[..|b| - 1], key);
    }
  }

  lemma SameKey(a: Cell, b: Cell)
    requires Semantic(a) == Semantic(b)
    ensures a.key == b.key
  {
  }

  /** The last cell of a sorted run bounds all keys, and it is the last version under its key. */
  lemma LastVersionOfLast(a: seq<Cell>, b: seq<Cell>)
    requires a != [] && SortedBy(b, CellLeq) && SameVersions(a, b, a[|a| - 1].key)
    ensures b != [] && KeyLeq(a[|a| - 1].key, b[|b| - 1].key)
    ensures Under(b, a[|a| - 1].key) != []
    ensures var under := Under(b, a[|a| - 1].key); Semantic(under[|under| - 1]) == Semantic(a[|a| - 1])
  {
    hide Semantic, LexLeq;
    var last := a[|a| - 1];
    var mine, under := Under(a, last.key), Under(b, last.key);
    assert mine[|mine| - 1] == last;
    assert SemanticCells(mine)[|mine| - 1] == SemanticCells(under)[|under| - 1];
    SelectMembers(b, HasKey(last.key));
    assert under[|under| - 1] in under;
    var i :| 0 <= i < |b| && b[i] == under[|under| - 1];
    KeyIsAnOrder();
    assert i < |b| - 1 ==> CellLeq(b[i], b[|b| - 1]);
    assert KeyLeq(last.key, last.key);
  }

  /** Sorted runs that list the same meanings under every key list the same meanings. */
  lemma {:induction false} SortedRunsAgree(a: seq<Cell>, b: seq<Cell>)
    requires SortedBy(a, CellLeq) && SortedBy(b, CellLeq)
    requires forall key :: SameVersions(a, b, key)
    ensures SemanticCells(a) == SemanticCells(b)
  {
    hide SameVersions, Semantic, KeyLeq;
    if a == [] && b == [] {
    } else {
      SameLastCell(a, b);
      var front, other := a[..|a| - 1], b[..|b| - 1];
      forall key ensures SameVersions(front, other, key) {
        SameVersionsSnoc(a, b, key);
      }
      SortedRunsAgree(front, other);
      assert SemanticCells(a) == SemanticCells(front) + [Semantic(a[|a| - 1])];
      assert SemanticCells(b) == SemanticCells(other) + [Semantic(b[|b| - 1])];
    }
  }

  lemma SameLastCell(a: seq<Cell>, b: seq<Cell>)
    requires a != [] || b != []
    requires SortedBy(a, CellLeq) && SortedBy(b, CellLeq)
    requires forall key :: SameVersions(a, b, key)
    ensures a != [] && b != [] && Semantic(a[|a| - 1]) == Semantic(b[|b| - 1])
  {
    hide Semantic, KeyLeq;
    if a != [] {
      LastVersionOfLast(a, b);
    }
    assert forall key :: SameVersions(a, b, key) ==> SameVersions(b, a, key);
    if b != [] {
      LastVersionOfLast(b, a);
    }
    KeyIsAnOrder();
    assert a[|a| - 1].key == b[|b| - 1].key;
    var under := Under(b, b[|b| - 1].key);
    assert under[|under| - 1] == b[|b| - 1];
  }

  /** The digests are taken of the same text exactly when, for every key, both runs list the same
      meanings under it in the same order. */
  lemma DigestsAgreeIff(reference: seq<Cell>, candidate: seq<Cell>)
    ensures DigestInput(reference) == DigestInput(candidate) <==> forall key :: SameVersions(reference, candidate, key)
  {
    hide Payload, Canonical, Semantic;
    var a, b := Canonical(reference), Canonical(candidate);
    PayloadUnique(SemanticCells(a), SemanticCells(b));
    forall key ensures SameVersions(a, b, key) <==> SameVersions(reference, candidate, key) {
      SortingKeepsVersions(reference, key);
      SortingKeepsVersions(candidate, key);
    }
    CanonicalSorted(reference);
    CanonicalSorted(candidate);
    if forall key :: SameVersions(reference, candidate, key) {
      SortedRunsAgree(a, b);
    }
    if SemanticCells(a) == SemanticCells(b) {
      forall key ensures SameVersions(a, b, key) {
        MeaningsSelect(a, b, key);
      }
    }
  }

  lemma CanonicalSorted(cells: seq<Cell>)
    ensures SortedBy(Canonical(cells), CellLeq)
  {
    hide Sort, LexLeq;
    KeyIsAnOrder();
    SortSorts(cells, CellLeq);
  }

  lemma {:induction false} MeaningsSelect(a: seq<Cell>, b: seq<Cell>, key: Key)
    requires SemanticCells(a) == SemanticCells(b)
    ensures SameVersions(a, b, key)
  {
    assert |a| == |b|;
    if a != [] {
      var n := |a| - 1;
      assert SemanticCells(a)[..n] == SemanticCells(a[..n]) && SemanticCells(b)[..n] == SemanticCells(b[..n]);
      assert SemanticCells(a)[n] == Semantic(a[n]) && SemanticCells(b)[n] == Semantic(b[n]);
      MeaningsSelect(a[..n], b[..n], key);
      hide Semantic;
      SameKey(a[n], b[n]);
      assert SemanticCells(Under(a[..n], key) + [a[n]]) == SemanticCells(Under(a[..n], key)) + [Semantic(a[n])];
      assert SemanticCells(Under(b[..n], key) + [b[n]]) == SemanticCells(Under(b[..n], key)) + [Semantic(b[n])];
    }
  }

  // ---------- The two notions ----------

  lemma SameVersionsSameLast(reference: seq<Cell>, candidate: seq<Cell>, key: Key)
    requires SameVersions(reference, candidate, key)
    ensures SameLast(reference, candidate, key)
  {
    hide Semantic, Select;
    LookupIsLast(reference, key);
    LookupIsLast(candidate, key);
    var a, b := Under(reference, key), Under(candidate, key);
    assert |SemanticCells(a)| == |a| && |SemanticCells(b)| == |b|;
    if a != [] {
      assert SemanticCells(a)[|a| - 1] == SemanticCells(b)[|b| - 1];
    }
  }

  /** For all runs, equal digests leave nothing to report. */
  lemma EqualDigestsNoMismatches(reference: seq<Cell>, candidate: seq<Cell>)
    requires DigestInput(reference) == DigestInput(candidate)
    ensures Mismatches(reference, candidate) == []
  {
    hide DigestInput, SameVersions, SameLast, Mismatches;
    DigestsAgreeIff(reference, candidate);
    NoMismatchesIffAgree(reference, candidate);
    forall key ensures SameLast(reference, candidate, key) {
      SameVersionsSameLast(reference, candidate, key);
    }
  }

  /** Exactly which differences the report misses: the runs agree on the last version under every
      key, and under some key they differ on an earlier one. */
  lemma MissedByTheReport(reference: seq<Cell>, candidate: seq<Cell>)
    ensures Mismatches(reference, candidate) == [] && DigestInput(reference) != DigestInput(candidate) <==>
      && (forall key :: SameLast(reference, candidate, key))
      && exists key :: !SameVersions(reference, candidate, key)
  {
    hide DigestInput, SameVersions, SameLast, Mismatches;
    DigestsAgreeIff(reference, candidate);
    NoMismatchesIffAgree(reference, candidate);
  }

  ghost predicate UniqueKeys(cells: seq<Cell>) {
    DistinctBy(cells, (cell: Cell) => cell.key)
  }

  lemma {:induction false} CountUnder(cells: seq<Cell>, key: Key)
    ensures multiset(KeysIn(cells))[key] == |Under(cells, key)|
  {
    if cells != [] {
      var n := |cells| - 1;
      CountUnder(cells[..n], key);
      assert KeysIn(cells) == KeysIn(cells[..n]) + [cells[n].key];
    }
  }

  lemma UniqueMeansOne(cells: seq<Cell>, key: Key)
    requires UniqueKeys(cells)
    ensures |Under(cells, key)| <= 1
  {
    hide Select;
    CountUnder(cells, key);
    assert Distinct(KeysIn(cells));
    DistinctCounts(KeysIn(cells));
    if key in KeysIn(cells) {
      var i :| 0 <= i < |cells| && KeysIn(cells)[i] == key;
    }
  }

  lemma OneVersionDecides(reference: seq<Cell>, candidate: seq<Cell>, key: Key)
    requires |Under(reference, key)| <= 1 && |Under(candidate, key)| <= 1 && SameLast(reference, candidate, key)
    ensures SameVersions(reference, candidate, key)
  {
    hide Semantic, Select;
    LookupIsLast(reference, key);
    LookupIsLast(candidate, key);
    var a, b := Under(reference, key), Under(candidate, key);
    assert |a| == |b|;
    if a != [] {
      assert SemanticCells(a) == [Semantic(a[0])] && SemanticCells(b) == [Semantic(b[0])];
    }
  }

  /** As many cells in all and no fewer under any key: then as many under every key. */
  lemma SameCounts(a: seq<Cell>, b: seq<Cell>)
    requires |a| == |b| && forall key :: |Under(a, key)| <= |Under(b, key)|
    ensures forall key :: |Under(a, key)| == |Under(b, key)|
  {
    hide Under;
    var x, y := multiset(KeysIn(a)), multiset(KeysIn(b));
    forall key ensures x[key] <= y[key] {
      CountUnder(a, key);
      CountUnder(b, key);
    }
    assert x <= y;
    assert y == x + (y - x) && |y - x| == |y| - |x| == 0;
    forall key ensures |Under(a, key)| == |Under(b, key)| {
      CountUnder(a, key);
      CountUnder(b, key);
    }
  }

  /** The two notions agree as soon as the reference has unique keys and the candidate as many cells. */
  lemma DiffAndDigestAgree(reference: seq<Cell>, candidate: seq<Cell>)
    requires UniqueKeys(reference)
    ensures DigestInput(reference) == DigestInput(candidate) <==>
      Mismatches(reference, candidate) == [] && |candidate| == |reference|
  {
    hide DigestInput, SameVersions, SameLast, Mismatches, Under, UniqueKeys;
    DigestsAgreeIff(reference, candidate);
    NoMismatchesIffAgree(reference, candidate);
    if DigestInput(reference) == DigestInput(candidate) {
      EqualDigestsNoMismatches(reference, candidate);
      SameDigestSameSize(reference, candidate);
    }
    if Mismatches(reference, candidate) == [] && |candidate| == |reference| {
      forall key ensures |Under(reference, key)| <= |Under(candidate, key)| {
        UniqueMeansOne(reference, key);
        AgreeingIsHeld(reference, candidate, key);
      }
      SameCounts(reference, candidate);
      forall key ensures SameVersions(reference, candidate, key) {
        UniqueMeansOne(reference, key);
        OneVersionDecides(reference, candidate, key);
      }
    }
  }

  lemma AgreeingIsHeld(reference: seq<Cell>, candidate: seq<Cell>, key: Key)
    requires SameLast(reference, candidate, key)
    ensures Under(reference, key) == [] <==> Under(candidate, key) == []
  {
    hide Select;
    LookupIsLast(reference, key);
    LookupIsLast(candidate, key);
  }

  lemma SameDigestSameSize(reference: seq<Cell>, candidate: seq<Cell>)
    requires DigestInput(reference) == DigestInput(candidate)
    ensures |reference| == |candidate|
  {
    hide Payload, Sort, Semantic;
    PayloadUnique(SemanticCells(Canonical(reference)), SemanticCells(Canonical(candidate)));
    SortPermutes(reference, CellLeq);
    SortPermutes(candidate, CellLeq);
  }

  /** Where both runs have unique keys, nothing is reported exactly when the digests are equal. */
  lemma UniqueRunsAgree(reference: seq<Cell>, candidate: seq<Cell>)
    requires UniqueKeys(reference) && UniqueKeys(candidate)
    ensures Mismatches(reference, candidate) == [] <==> DigestInput(reference) == DigestInput(candidate)
  {
    hide DigestInput, SameVersions, SameLast, Mismatches, Under, UniqueKeys;
    DigestsAgreeIff(reference, candidate);
    NoMismatchesIffAgree(reference, candidate);
    if DigestInput(reference) == DigestInput(candidate) {
      EqualDigestsNoMismatches(reference, candidate);
    }
    if Mismatches(reference, candidate) == [] {
      forall key ensures SameVersions(reference, candidate, key) {
        UniqueMeansOne(reference, key);
        UniqueMeansOne(candidate, key);
        OneVersionDecides(reference, candidate, key);
      }
    }
  }

  /** A run that lists one cell twice shows no mismatch against the run that lists it once, although
      the digests differ. */
  lemma RepeatedCellsEscapeTheDiff(cell: Cell)
    ensures Mismatches([cell, cell], [cell]) == [] && DigestInput([cell, cell]) != DigestInput([cell])
  {
    hide Mismatches, DigestInput;
    var twice, once := [cell, cell], [cell];
    assert twice == once + [cell];
    SelectOne(cell, HasKey(cell.key));
    SelectSnoc(once, cell, HasKey(cell.key));
    assert Under(once, cell.key) == [cell] && Under(twice, cell.key) == [cell, cell];
    assert |SemanticCells([cell, cell])| == 2 && |SemanticCells([cell])| == 1;
    assert !SameVersions(twice, once, cell.key);
    assert twice[..1] == once && once[..0] == [];
    assert forall key :: SameLast(twice, once, key);
    MissedByTheReport(twice, once);
  }

  // ---------- What the digested text says ----------

  /** Read as JSON, the text is an array of the run's cells, by key and as listed within a key. Each of
      the eight fields stands under its own name. */
  lemma DigestReadsBack(cells: seq<Cell>)
    ensures var read := PayloadReader.ReadArray(DigestInput(cells));
      && read.Some? && read.value.rest == "" && |read.value.value| == |Canonical(cells)|
      && forall i :: 0 <= i < |Canonical(cells)| ==>
           var cell := Canonical(cells)[i];
           read.value.value[i] ==
             map["canonical_signature_records" := PayloadReader.Amount(cell.canonicalRecords),
                 "canonical_signature_sha256" := PayloadReader.Words(cell.canonicalSha256),
                 "fid_added" := PayloadReader.Amount(cell.fidAdded),
                 "fid_attempted" := PayloadReader.Amount(cell.fidAttempted),
                 "fid_excluded" := PayloadReader.Amount(cell.fidExcluded),
                 "route_id" := PayloadReader.Words(cell.key.routeId),
                 "status" := PayloadReader.Words(cell.status),
                 "treatment_id" := PayloadReader.Words(cell.key.treatmentId)]
  {
    hide Sort, Payload, PayloadReader.ReadArray;
    PayloadReader.PayloadReads(SemanticCells(Canonical(cells)));
  }
}
