/** Comparing two backend runs field by field, and exactly what the comparison reports. */
module BackendComparison {
  import opened Results
  import opened Sorting
  import opened Lexicographic
  import opened Grouping
  import opened Sequences
  import opened CellPayload

  datatype Key = Key(routeId: string, treatmentId: string)

  datatype Cell = Cell(
    key: Key,
    status: string,
    analysisArtifactSha256: string,
    fidbSha256: string,
    fidSignaturesSha256: string,
    canonicalSha256: string,
    canonicalRecords: int,
    fidAttempted: int,
    fidAdded: int,
    fidExcluded: int)

  datatype Field =
    | AnalysisArtifactSha256
    | Status
    | SignatureSha256
    | SignatureRecords
    | FidAttempted
    | FidAdded
    | FidExcluded
    | FidSignaturesSha256
    | FidbSha256

  /** The fields that must agree, in the order in which they are reported. */
  const EXACT_FIELDS: seq<Field> := [Status, SignatureSha256, SignatureRecords, FidAttempted, FidAdded, FidExcluded]
  const DIAGNOSTIC_FIELDS: seq<Field> := [FidSignaturesSha256, FidbSha256]
  const ARTIFACT_FIELDS: seq<Field> := [AnalysisArtifactSha256]
  const AUTHORITY_FIELDS: seq<string> := ["width_id", "fixed_recipe", "compilation_digest", "routes", "treatments"]

  datatype Value = Label(text: string) | Count(count: int)

  function ValueOf(cell: Cell, field: Field): Value {
    match field
    case AnalysisArtifactSha256 => Label(cell.analysisArtifactSha256)
    case Status => Label(cell.status)
    case SignatureSha256 => Label(cell.canonicalSha256)
    case SignatureRecords => Count(cell.canonicalRecords)
    case FidAttempted => Count(cell.fidAttempted)
    case FidAdded => Count(cell.fidAdded)
    case FidExcluded => Count(cell.fidExcluded)
    case FidSignaturesSha256 => Label(cell.fidSignaturesSha256)
    case FidbSha256 => Label(cell.fidbSha256)
  }

  datatype Mismatch =
    | CellMissing(key: Key, wanted: Option<Cell>, found: Option<Cell>)
    | FieldDiffers(key: Key, field: Field, expected: Value, observed: Value)

  predicate KeyLeq(a: Key, b: Key) {
    if a.routeId == b.routeId then LexLeq(a.treatmentId, b.treatmentId) else LexLeq(a.routeId, b.routeId)
  }

  predicate CellLeq(a: Cell, b: Cell) { KeyLeq(a.key, b.key) }

  lemma KeyIsAnOrder()
    ensures Total(KeyLeq) && Transitive(KeyLeq) && Antisymmetric(KeyLeq)
  {
    hide LexLeq;
    LexIsAnOrder();
  }

  /** The cells of a run in the order in which they are reported and digested. */
  function Canonical(cells: seq<Cell>): seq<Cell> {
    Sort(cells, CellLeq)
  }

  /** The dictionary lookup: of several cells with one key the last one counts. */
  function Lookup(cells: seq<Cell>, key: Key): (r: Option<Cell>)
    ensures r.Some? ==> r.value in cells && r.value.key == key
    ensures r.None? ==> forall i :: 0 <= i < |cells| ==> cells[i].key != key
  {
    if cells == [] then None
    else if cells[|cells| - 1].key == key then Some(cells[|cells| - 1])
    else Lookup(cells[..|cells| - 1], key)
  }

  function KeysIn(cells: seq<Cell>): (r: seq<Key>)
    ensures |r| == |cells|
  {
    seq(|cells|, i requires 0 <= i < |cells| => cells[i].key)
  }

  /** All keys of both runs, sorted. */
  function AllKeys(reference: seq<Cell>, candidate: seq<Cell>): seq<Key> {
    Sort(FirstAppearances(KeysIn(reference) + KeysIn(candidate)), KeyLeq)
  }

  function FieldMismatches(expected: Cell, observed: Cell, fields: seq<Field>): seq<Mismatch> {
    if fields == [] then []
    else
      var front, field := FieldMismatches(expected, observed, fields[..|fields| - 1]), fields[|fields| - 1];
      if ValueOf(expected, field) == ValueOf(observed, field) then front
      else front + [FieldDiffers(expected.key, field, ValueOf(expected, field), ValueOf(observed, field))]
  }

  /** What is reported for one key: the given fields that differ and, if asked for, a missing cell. */
  function ReportAt(reference: seq<Cell>, candidate: seq<Cell>, fields: seq<Field>, missing: bool, key: Key): seq<Mismatch> {
    var expected, observed := Lookup(reference, key), Lookup(candidate, key);
    if expected.None? || observed.None? then (if missing then [CellMissing(key, expected, observed)] else [])
    else FieldMismatches(expected.value, observed.value, fields)
  }

  function Report(reference: seq<Cell>, candidate: seq<Cell>, fields: seq<Field>, missing: bool, keys: seq<Key>): seq<Mismatch> {
    if keys == [] then []
    else
      var n := |keys| - 1;
      Report(reference, candidate, fields, missing, keys[..n]) + ReportAt(reference, candidate, fields, missing, keys[n])
  }

  /** The mismatches of two runs. */
  function Mismatches(reference: seq<Cell>, candidate: seq<Cell>): seq<Mismatch> {
    Report(reference, candidate, EXACT_FIELDS, true, AllKeys(reference, candidate))
  }

  function ArtifactMismatches(reference: seq<Cell>, candidate: seq<Cell>): seq<Mismatch> {
    Report(reference, candidate, ARTIFACT_FIELDS, false, AllKeys(reference, candidate))
  }

  /** Differences of containers or of order, which do not count against a run. */
  function Differences(reference: seq<Cell>, candidate: seq<Cell>): seq<Mismatch> {
    Report(reference, candidate, DIAGNOSTIC_FIELDS, false, AllKeys(reference, candidate))
  }

  /** The digest's input for a run. */
  function DigestInput(cells: seq<Cell>): string {
    Payload(SemanticCells(Canonical(cells)))
  }

  /** A run's recorded authority; an absent field and a null one are the same. */
  type Authority = map<string, Option<string>>

  function Recorded(authority: Authority, field: string): Option<string> {
    if field in authority then authority[field] else None
  }

  predicate AuthorityMatches(reference: Authority, candidate: Authority) {
    forall f :: 0 <= f < |AUTHORITY_FIELDS| ==>
      Recorded(reference, AUTHORITY_FIELDS[f]) == Recorded(candidate, AUTHORITY_FIELDS[f])
  }

  lemma AuthorityByName(reference: Authority, candidate: Authority)
    ensures AuthorityMatches(reference, candidate) <==>
      && Recorded(reference, "width_id") == Recorded(candidate, "width_id")
      && Recorded(reference, "fixed_recipe") == Recorded(candidate, "fixed_recipe")
      && Recorded(reference, "compilation_digest") == Recorded(candidate, "compilation_digest")
      && Recorded(reference, "routes") == Recorded(candidate, "routes")
      && Recorded(reference, "treatments") == Recorded(candidate, "treatments")
  {
    hide Recorded;
    assert AUTHORITY_FIELDS[0] == "width_id" && AUTHORITY_FIELDS[1] == "fixed_recipe" && AUTHORITY_FIELDS[2] == "compilation_digest";
    assert AUTHORITY_FIELDS[3] == "routes" && AUTHORITY_FIELDS[4] == "treatments";
  }

  datatype Comparison = Comparison(
    authorityMatch: bool,
    comparedCells: nat,
    semanticMatch: bool,
    mismatches: seq<Mismatch>,
    artifactMatch: bool,
    artifactMismatches: seq<Mismatch>,
    differences: seq<Mismatch>,
    referenceDigestInput: string,
    candidateDigestInput: string)

  /** The fields that differ, as one of the inner loops appends them. */
  method AppendFields(report: seq<Mismatch>, expected: Cell, observed: Cell, fields: seq<Field>) returns (r: seq<Mismatch>)
    ensures r == report + FieldMismatches(expected, observed, fields)
  {
    hide ValueOf;
    r := report;
    for f := 0 to |fields|
      invariant r == report + FieldMismatches(expected, observed, fields[..f])
    {
      var field := fields[f];
      assert fields[..f + 1][..f] == fields[..f];
      if ValueOf(expected, field) != ValueOf(observed, field) {
        r := r + [FieldDiffers(expected.key, field, ValueOf(expected, field), ValueOf(observed, field))];
      }
    }
    assert fields[..|fields|] == fields;
  }

  method CompareRuns(reference: seq<Cell>, candidate: seq<Cell>, authority: Authority, other: Authority) returns (r: Comparison)
    ensures r.authorityMatch <==>
      && Recorded(authority, "width_id") == Recorded(other, "width_id")
      && Recorded(authority, "fixed_recipe") == Recorded(other, "fixed_recipe")
      && Recorded(authority, "compilation_digest") == Recorded(other, "compilation_digest")
      && Recorded(authority, "routes") == Recorded(other, "routes")
      && Recorded(authority, "treatments") == Recorded(other, "treatments")
    ensures r.comparedCells == |set c | c in reference + candidate :: c.key|
    ensures r.semanticMatch <==> r.authorityMatch && AgreeEverywhere(reference, candidate)
    ensures r.mismatches == Mismatches(reference, candidate)
    ensures r.artifactMatch <==> r.artifactMismatches == []
    ensures r.artifactMismatches == ArtifactMismatches(reference, candidate)
    ensures r.differences == Differences(reference, candidate)
    ensures r.referenceDigestInput == DigestInput(reference) && r.candidateDigestInput == DigestInput(candidate)
  {
    hide Lookup, AllKeys, FieldMismatches, DigestInput, AgreeEverywhere, AuthorityMatches;
    var mismatches, artifacts, differences := [], [], [];
    var keys := AllKeys(reference, candidate);
    for k := 0 to |keys|
      invariant mismatches == Report(reference, candidate, EXACT_FIELDS, true, keys[..k])
      invariant artifacts == Report(reference, candidate, ARTIFACT_FIELDS, false, keys[..k])
      invariant differences == Report(reference, candidate, DIAGNOSTIC_FIELDS, false, keys[..k])
    {
      var key := keys[k];
      assert keys[..k + 1][..k] == keys[..k];
      var expected, observed := Lookup(reference, key), Lookup(candidate, key);
      if expected.None? || observed.None? {
        mismatches := mismatches + [CellMissing(key, expected, observed)];
      } else {
        artifacts := AppendFields(artifacts, expected.value, observed.value, ARTIFACT_FIELDS);
        mismatches := AppendFields(mismatches, expected.value, observed.value, EXACT_FIELDS);
        differences := AppendFields(differences, expected.value, observed.value, DIAGNOSTIC_FIELDS);
      }
    }
    assert keys[..|keys|] == keys;
    NoMismatchesIffAgree(reference, candidate);
    CountKeys(reference, candidate);
    var authorityMatch := AuthorityMatches(authority, other);
    AuthorityByName(authority, other);
    r := Comparison(authorityMatch, |keys|, authorityMatch && mismatches == [], mismatches, artifacts == [], artifacts,
                    differences, DigestInput(reference), DigestInput(candidate));
  }

  // ---------- What is reported ----------

  /** A report entry that the two runs give rise to. */
  ghost predicate Warranted(reference: seq<Cell>, candidate: seq<Cell>, fields: seq<Field>, missing: bool, m: Mismatch) {
    var expected, observed := Lookup(reference, m.key), Lookup(candidate, m.key);
    match m
    case CellMissing(_, wanted, found) =>
      missing && wanted == expected && found == observed && expected.Some? != observed.Some?
    case FieldDiffers(_, field, value, other) =>
      && field in fields && expected.Some? && observed.Some?
      && value == ValueOf(expected.value, field) && other == ValueOf(observed.value, field) && value != other
  }

  lemma {:induction false} FieldReported(expected: Cell, observed: Cell, fields: seq<Field>, m: Mismatch)
    ensures m in FieldMismatches(expected, observed, fields) <==>
      && m.FieldDiffers? && m.field in fields && m.key == expected.key
      && m.expected == ValueOf(expected, m.field) && m.observed == ValueOf(observed, m.field) && m.expected != m.observed
  {
    hide ValueOf;
    if fields != [] {
      var n := |fields| - 1;
      FieldReported(expected, observed, fields[..n], m);
      assert fields == fields[..n] + [fields[n]];
    }
  }

  lemma ReportedAt(reference: seq<Cell>, candidate: seq<Cell>, fields: seq<Field>, missing: bool, key: Key, m: Mismatch)
    requires key in KeysIn(reference) + KeysIn(candidate)
    ensures m in ReportAt(reference, candidate, fields, missing, key) <==>
      m.key == key && Warranted(reference, candidate, fields, missing, m)
  {
    hide ValueOf, FieldMismatches;
    var expected, observed := Lookup(reference, key), Lookup(candidate, key);
    if expected.Some? && observed.Some? {
      FieldReported(expected.value, observed.value, fields, m);
    } else {
      KeyIsHeld(reference, candidate, key);
    }
  }

  lemma KeyIsHeld(reference: seq<Cell>, candidate: seq<Cell>, key: Key)
    ensures key in KeysIn(reference) + KeysIn(candidate) <==>
      Lookup(reference, key).Some? || Lookup(candidate, key).Some?
  {
    InKeys(reference, key);
    InKeys(candidate, key);
  }

  lemma InKeys(cells: seq<Cell>, key: Key)
    ensures key in KeysIn(cells) <==> Lookup(cells, key).Some?
  {
    if key in KeysIn(cells) {
      var i :| 0 <= i < |cells| && KeysIn(cells)[i] == key;
      assert cells[i].key == key;
    }
    if Lookup(cells, key).Some? {
      var i :| 0 <= i < |cells| && cells[i] == Lookup(cells, key).value;
      assert KeysIn(cells)[i] == key;
    }
  }

  lemma {:induction false} ReportedAmong(reference: seq<Cell>, candidate: seq<Cell>, fields: seq<Field>, missing: bool, keys: seq<Key>, m: Mismatch)
    requires forall k :: 0 <= k < |keys| ==> keys[k] in KeysIn(reference) + KeysIn(candidate)
    ensures m in Report(reference, candidate, fields, missing, keys) <==>
      m.key in keys && Warranted(reference, candidate, fields, missing, m)
  {
    hide ReportAt, Warranted, KeysIn;
    if keys != [] {
      var n := |keys| - 1;
      assert keys == keys[..n] + [keys[n]];
      assert forall k :: 0 <= k < n ==> keys[..n][k] == keys[k];
      ReportedAmong(reference, candidate, fields, missing, keys[..n], m);
      ReportedAt(reference, candidate, fields, missing, keys[n], m);
    }
  }

  /** Exactly what is reported: a missing cell if one run holds the key, a field if both hold the key
      and it differs. This covers the mismatches, the artifact mismatches and the differences. */
  lemma ReportedIff(reference: seq<Cell>, candidate: seq<Cell>, fields: seq<Field>, missing: bool, m: Mismatch)
    ensures m in Report(reference, candidate, fields, missing, AllKeys(reference, candidate)) <==>
      Warranted(reference, candidate, fields, missing, m)
  {
    hide Report, KeysIn, AllKeys, ValueOf;
    AllKeysMembers(reference, candidate);
    var keys := AllKeys(reference, candidate);
    assert forall k :: 0 <= k < |keys| ==> keys[k] in keys;
    ReportedAmong(reference, candidate, fields, missing, keys, m);
    KeyIsHeld(reference, candidate, m.key);
  }

  /** An artifact mismatch is reported exactly for the keys in both runs with different artifacts. */
  lemma ArtifactReportedIff(reference: seq<Cell>, candidate: seq<Cell>, key: Key)
    ensures (exists m :: m in ArtifactMismatches(reference, candidate) && m.key == key) <==>
      && Lookup(reference, key).Some? && Lookup(candidate, key).Some?
      && Lookup(reference, key).value.analysisArtifactSha256 != Lookup(candidate, key).value.analysisArtifactSha256
  {
    hide Lookup;
    var expected, observed := Lookup(reference, key), Lookup(candidate, key);
    if expected.Some? && observed.Some? {
      var m := FieldDiffers(key, AnalysisArtifactSha256, Label(expected.value.analysisArtifactSha256), Label(observed.value.analysisArtifactSha256));
      ReportedIff(reference, candidate, ARTIFACT_FIELDS, false, m);
      assert ARTIFACT_FIELDS[0] == AnalysisArtifactSha256;
    }
    forall m | m in ArtifactMismatches(reference, candidate)
      ensures Warranted(reference, candidate, ARTIFACT_FIELDS, false, m)
    {
      ReportedIff(reference, candidate, ARTIFACT_FIELDS, false, m);
    }
  }

  function Rank(field: Field): nat {
    match field
    case AnalysisArtifactSha256 => 0
    case Status => 1
    case SignatureSha256 => 2
    case SignatureRecords => 3
    case FidAttempted => 4
    case FidAdded => 5
    case FidExcluded => 6
    case FidSignaturesSha256 => 7
    case FidbSha256 => 8
  }

  ghost predicate Ascending(fields: seq<Field>) {
    forall i, j :: 0 <= i < j < |fields| ==> Rank(fields[i]) < Rank(fields[j])
  }

  /** The order of a report: by key, and by field within a key. Nothing precedes itself. */
  ghost predicate Precedes(a: Mismatch, b: Mismatch) {
    if a.key == b.key then a.FieldDiffers? && b.FieldDiffers? && Rank(a.field) < Rank(b.field) else KeyLeq(a.key, b.key)
  }

  ghost predicate InOrder(report: seq<Mismatch>) {
    forall i, j :: 0 <= i < j < |report| ==> Precedes(report[i], report[j])
  }

  lemma {:induction false} FieldsInOrder(expected: Cell, observed: Cell, fields: seq<Field>)
    requires Ascending(fields)
    ensures InOrder(FieldMismatches(expected, observed, fields))
  {
    hide ValueOf, Rank, KeyLeq;
    if fields != [] {
      var n := |fields| - 1;
      FieldsInOrder(expected, observed, fields[..n]);
      var front := FieldMismatches(expected, observed, fields[..n]);
      forall i | 0 <= i < |front| ensures front[i].FieldDiffers? && front[i].key == expected.key && Rank(front[i].field) < Rank(fields[n]) {
        FieldReported(expected, observed, fields[..n], front[i]);
        var k :| 0 <= k < n && fields[..n][k] == front[i].field;
        assert fields[k] == front[i].field;
      }
    }
  }

  lemma ReportAtInOrder(reference: seq<Cell>, candidate: seq<Cell>, fields: seq<Field>, missing: bool, key: Key)
    requires Ascending(fields)
    ensures InOrder(ReportAt(reference, candidate, fields, missing, key))
    ensures forall m :: m in ReportAt(reference, candidate, fields, missing, key) ==> m.key == key
  {
    hide ValueOf, FieldMismatches, Ascending, Rank;
    var expected, observed := Lookup(reference, key), Lookup(candidate, key);
    if expected.Some? && observed.Some? {
      FieldsInOrder(expected.value, observed.value, fields);
      forall m | m in FieldMismatches(expected.value, observed.value, fields) ensures m.key == key {
        FieldReported(expected.value, observed.value, fields, m);
      }
    }
  }

  lemma {:induction false} ReportKeys(reference: seq<Cell>, candidate: seq<Cell>, fields: seq<Field>, missing: bool, keys: seq<Key>)
    requires Ascending(fields)
    ensures forall m :: m in Report(reference, candidate, fields, missing, keys) ==> m.key in keys
  {
    hide ReportAt, Ascending;
    if keys != [] {
      var n := |keys| - 1;
      assert keys == keys[..n] + [keys[n]];
      ReportKeys(reference, candidate, fields, missing, keys[..n]);
      ReportAtInOrder(reference, candidate, fields, missing, keys[n]);
    }
  }

  lemma {:induction false} ReportInOrder(reference: seq<Cell>, candidate: seq<Cell>, fields: seq<Field>, missing: bool, keys: seq<Key>)
    requires Ascending(fields) && Distinct(keys) && SortedBy(keys, KeyLeq)
    ensures InOrder(Report(reference, candidate, fields, missing, keys))
  {
    hide ReportAt, Ascending, KeyLeq, Rank;
    if keys != [] {
      var n := |keys| - 1;
      ReportInOrder(reference, candidate, fields, missing, keys[..n]);
      ReportAtInOrder(reference, candidate, fields, missing, keys[n]);
      ReportKeys(reference, candidate, fields, missing, keys[..n]);
      var front, last := Report(reference, candidate, fields, missing, keys[..n]), ReportAt(reference, candidate, fields, missing, keys[n]);
      forall i, j | 0 <= i < |front| && 0 <= j < |last| ensures Precedes(front[i], last[j]) {
        assert front[i] in front && last[j] in last;
        var k :| 0 <= k < n && keys[..n][k] == front[i].key;
        assert keys[k] == front[i].key && KeyLeq(keys[k], keys[n]);
      }
    }
  }

  lemma AllKeysSorted(reference: seq<Cell>, candidate: seq<Cell>)
    ensures Distinct(AllKeys(reference, candidate)) && SortedBy(AllKeys(reference, candidate), KeyLeq)
  {
    hide Sort, FirstAppearances, KeyLeq;
    var keys := FirstAppearances(KeysIn(reference) + KeysIn(candidate));
    FirstAppearancesDistinct(KeysIn(reference) + KeysIn(candidate));
    SortPermutes(keys, KeyLeq);
    DistinctPermute(keys, AllKeys(reference, candidate));
    KeyIsAnOrder();
    SortSorts(keys, KeyLeq);
  }

  /** All three reports list each entry once, by key and then by field. */
  lemma ReportsInOrder(reference: seq<Cell>, candidate: seq<Cell>)
    ensures InOrder(Mismatches(reference, candidate)) && Distinct(Mismatches(reference, candidate))
    ensures InOrder(ArtifactMismatches(reference, candidate)) && Distinct(ArtifactMismatches(reference, candidate))
    ensures InOrder(Differences(reference, candidate)) && Distinct(Differences(reference, candidate))
  {
    hide Report, AllKeys, KeyLeq;
    AllKeysSorted(reference, candidate);
    var keys := AllKeys(reference, candidate);
    ReportInOrder(reference, candidate, EXACT_FIELDS, true, keys);
    ReportInOrder(reference, candidate, ARTIFACT_FIELDS, false, keys);
    ReportInOrder(reference, candidate, DIAGNOSTIC_FIELDS, false, keys);
  }

  lemma AllKeysMembers(reference: seq<Cell>, candidate: seq<Cell>)
    ensures forall key :: key in AllKeys(reference, candidate) <==> key in KeysIn(reference) + KeysIn(candidate)
  {
    hide FirstAppearances, KeyLeq, KeysIn;
    var both := KeysIn(reference) + KeysIn(candidate);
    FirstAppearancesDistinct(both);
    SortMembers(FirstAppearances(both), KeyLeq);
    hide Sort;
    forall key ensures key in FirstAppearances(both) <==> key in both {
    }
  }

  lemma CountKeys(reference: seq<Cell>, candidate: seq<Cell>)
    ensures |AllKeys(reference, candidate)| == |set c | c in reference + candidate :: c.key|
  {
    hide AllKeys, KeyLeq;
    AllKeysSorted(reference, candidate);
    AllKeysMembers(reference, candidate);
    var members := set c | c in reference + candidate :: c.key;
    forall key ensures key in members <==> key in AllKeys(reference, candidate) {
      KeyIsHeld(reference, candidate, key);
      if Lookup(reference, key).Some? {
        assert Lookup(reference, key).value in reference + candidate;
      }
      if Lookup(candidate, key).Some? {
        assert Lookup(candidate, key).value in reference + candidate;
      }
    }
    DistinctSize(AllKeys(reference, candidate), members);
  }

  // ---------- What the difference sees ----------

  function Semantic(cell: Cell): SemanticCell {
    SemanticCell(cell.key.routeId, cell.key.treatmentId, cell.status, cell.canonicalSha256, cell.canonicalRecords,
                 cell.fidAttempted, cell.fidAdded, cell.fidExcluded)
  }

  function SemanticCells(cells: seq<Cell>): (r: seq<SemanticCell>)
    ensures |r| == |cells|
  {
    seq(|cells|, i requires 0 <= i < |cells| => Semantic(cells[i]))
  }

  /** Both runs hold the key or neither does, and the last cells listed under it mean the same. */
  ghost predicate SameLast(reference: seq<Cell>, candidate: seq<Cell>, key: Key) {
    var expected, observed := Lookup(reference, key), Lookup(candidate, key);
    && expected.Some? == observed.Some?
    && (expected.Some? ==> Semantic(expected.value) == Semantic(observed.value))
  }

  ghost predicate AgreeEverywhere(reference: seq<Cell>, candidate: seq<Cell>) {
    forall key :: SameLast(reference, candidate, key)
  }

  lemma FieldsDecideMeaning(a: Cell, b: Cell)
    requires a.key == b.key
    ensures FieldMismatches(a, b, EXACT_FIELDS) == [] <==> Semantic(a) == Semantic(b)
  {
    NoFieldMismatch(a, b, EXACT_FIELDS);
    assert EXACT_FIELDS[0] == Status && EXACT_FIELDS[1] == SignatureSha256 && EXACT_FIELDS[2] == SignatureRecords;
    assert EXACT_FIELDS[3] == FidAttempted && EXACT_FIELDS[4] == FidAdded && EXACT_FIELDS[5] == FidExcluded;
    if FieldMismatches(a, b, EXACT_FIELDS) == [] {
      assert ValueOf(a, Status) == ValueOf(b, Status) && ValueOf(a, SignatureSha256) == ValueOf(b, SignatureSha256);
      assert ValueOf(a, SignatureRecords) == ValueOf(b, SignatureRecords);
      assert ValueOf(a, FidAttempted) == ValueOf(b, FidAttempted) && ValueOf(a, FidAdded) == ValueOf(b, FidAdded);
      assert ValueOf(a, FidExcluded) == ValueOf(b, FidExcluded);
    }
  }

  lemma {:induction false} NoFieldMismatch(a: Cell, b: Cell, fields: seq<Field>)
    ensures FieldMismatches(a, b, fields) == [] <==>
      forall i :: 0 <= i < |fields| ==> ValueOf(a, fields[i]) == ValueOf(b, fields[i])
  {
    hide ValueOf;
    if fields != [] {
      var n := |fields| - 1;
      NoFieldMismatch(a, b, fields[..n]);
      assert forall i :: 0 <= i < n ==> fields[..n][i] == fields[i];
    }
  }

  lemma NothingReportedAt(reference: seq<Cell>, candidate: seq<Cell>, key: Key)
    requires key in KeysIn(reference) + KeysIn(candidate)
    ensures ReportAt(reference, candidate, EXACT_FIELDS, true, key) == [] <==> SameLast(reference, candidate, key)
  {
    hide FieldMismatches, Semantic;
    var expected, observed := Lookup(reference, key), Lookup(candidate, key);
    KeyIsHeld(reference, candidate, key);
    if expected.Some? && observed.Some? {
      FieldsDecideMeaning(expected.value, observed.value);
    }
  }

  lemma {:induction false} NothingReported(reference: seq<Cell>, candidate: seq<Cell>, keys: seq<Key>)
    requires forall k :: 0 <= k < |keys| ==> keys[k] in KeysIn(reference) + KeysIn(candidate)
    ensures Report(reference, candidate, EXACT_FIELDS, true, keys) == [] <==>
      forall k :: 0 <= k < |keys| ==> SameLast(reference, candidate, keys[k])
  {
    hide ReportAt, SameLast, KeysIn;
    if keys != [] {
      var n := |keys| - 1;
      assert forall k :: 0 <= k < n ==> keys[..n][k] == keys[k];
      NothingReported(reference, candidate, keys[..n]);
      NothingReportedAt(reference, candidate, keys[n]);
    }
  }

  /** Nothing is reported exactly when, under every key, the last cells of both runs mean the same. */
  lemma NoMismatchesIffAgree(reference: seq<Cell>, candidate: seq<Cell>)
    ensures Mismatches(reference, candidate) == [] <==> AgreeEverywhere(reference, candidate)
  {
    hide AllKeys, Report, KeysIn;
    var keys := AllKeys(reference, candidate);
    AllKeysMembers(reference, candidate);
    assert forall k :: 0 <= k < |keys| ==> keys[k] in keys;
    NothingReported(reference, candidate, keys);
    if Mismatches(reference, candidate) == [] {
      forall key ensures SameLast(reference, candidate, key) {
        KeyIsHeld(reference, candidate, key);
        if key in keys {
          var k :| 0 <= k < |keys| && keys[k] == key;
        }
      }
    }
  }

  // ---------- In terms of the cells alone ----------

  ghost predicate LastAt(cells: seq<Cell>, key: Key, cell: Cell, i: nat) {
    i < |cells| && cells[i] == cell && cell.key == key && forall j :: i < j < |cells| ==> cells[j].key != key
  }

  /** `cell` is the last one listed under the key. */
  ghost predicate LastUnder(cells: seq<Cell>, key: Key, cell: Cell) {
    exists i: nat :: LastAt(cells, key, cell, i)
  }

  lemma LastBelow(cells: seq<Cell>, key: Key, cell: Cell, i: nat)
    requires cells != [] && cells[|cells| - 1].key != key
    ensures LastAt(cells, key, cell, i) <==> LastAt(cells[..|cells| - 1], key, cell, i)
  {
    var front := cells[..|cells| - 1];
    assert forall j :: 0 <= j < |front| ==> front[j] == cells[j];
  }

  lemma {:induction false} LookupIff(cells: seq<Cell>, key: Key, cell: Cell)
    ensures Lookup(cells, key) == Some(cell) <==> LastUnder(cells, key, cell)
  {
    if cells != [] {
      var n := |cells| - 1;
      if cells[n].key == key {
        assert cells[n] == cell ==> LastAt(cells, key, cell, n);
      } else {
        hide LastAt;
        LookupIff(cells[..n], key, cell);
        forall i: nat
          ensures LastAt(cells, key, cell, i) <==> LastAt(cells[..n], key, cell, i)
        {
          LastBelow(cells, key, cell, i);
        }
      }
    }
  }

  /** What the comparison reports of each field of two cells, the last ones of their runs under a key:
      the field's name, both values, and only if they differ. */
  lemma ReportedFields(reference: seq<Cell>, candidate: seq<Cell>, key: Key, a: Cell, b: Cell, x: Value, y: Value)
    requires LastUnder(reference, key, a) && LastUnder(candidate, key, b)
    ensures FieldDiffers(key, Status, x, y) in Mismatches(reference, candidate) <==>
      x == Label(a.status) && y == Label(b.status) && a.status != b.status
    ensures FieldDiffers(key, SignatureSha256, x, y) in Mismatches(reference, candidate) <==>
      x == Label(a.canonicalSha256) && y == Label(b.canonicalSha256) && a.canonicalSha256 != b.canonicalSha256
    ensures FieldDiffers(key, SignatureRecords, x, y) in Mismatches(reference, candidate) <==>
      x == Count(a.canonicalRecords) && y == Count(b.canonicalRecords) && a.canonicalRecords != b.canonicalRecords
    ensures FieldDiffers(key, FidAttempted, x, y) in Mismatches(reference, candidate) <==>
      x == Count(a.fidAttempted) && y == Count(b.fidAttempted) && a.fidAttempted != b.fidAttempted
    ensures FieldDiffers(key, FidAdded, x, y) in Mismatches(reference, candidate) <==>
      x == Count(a.fidAdded) && y == Count(b.fidAdded) && a.fidAdded != b.fidAdded
    ensures FieldDiffers(key, FidExcluded, x, y) in Mismatches(reference, candidate) <==>
      x == Count(a.fidExcluded) && y == Count(b.fidExcluded) && a.fidExcluded != b.fidExcluded
    ensures FieldDiffers(key, AnalysisArtifactSha256, x, y) in ArtifactMismatches(reference, candidate) <==>
      x == Label(a.analysisArtifactSha256) && y == Label(b.analysisArtifactSha256) && a.analysisArtifactSha256 != b.analysisArtifactSha256
    ensures FieldDiffers(key, FidSignaturesSha256, x, y) in Differences(reference, candidate) <==>
      x == Label(a.fidSignaturesSha256) && y == Label(b.fidSignaturesSha256) && a.fidSignaturesSha256 != b.fidSignaturesSha256
    ensures FieldDiffers(key, FidbSha256, x, y) in Differences(reference, candidate) <==>
      x == Label(a.fidbSha256) && y == Label(b.fidbSha256) && a.fidbSha256 != b.fidbSha256
  {
    hide Report, Lookup, AllKeys, LastUnder;
    LookupIff(reference, key, a);
    LookupIff(candidate, key, b);
    FieldsListed();
    forall field: Field, fields: seq<Field>, missing: bool
      ensures FieldDiffers(key, field, x, y) in Report(reference, candidate, fields, missing, AllKeys(reference, candidate)) <==>
        Warranted(reference, candidate, fields, missing, FieldDiffers(key, field, x, y))
    {
      ReportedIff(reference, candidate, fields, missing, FieldDiffers(key, field, x, y));
    }
  }

  lemma FieldsListed()
    ensures Status in EXACT_FIELDS && SignatureSha256 in EXACT_FIELDS && SignatureRecords in EXACT_FIELDS
    ensures FidAttempted in EXACT_FIELDS && FidAdded in EXACT_FIELDS && FidExcluded in EXACT_FIELDS
    ensures FidSignaturesSha256 in DIAGNOSTIC_FIELDS && FidbSha256 in DIAGNOSTIC_FIELDS && AnalysisArtifactSha256 in ARTIFACT_FIELDS
  {
    assert EXACT_FIELDS[0] == Status && EXACT_FIELDS[1] == SignatureSha256 && EXACT_FIELDS[2] == SignatureRecords;
    assert EXACT_FIELDS[3] == FidAttempted && EXACT_FIELDS[4] == FidAdded && EXACT_FIELDS[5] == FidExcluded;
    assert DIAGNOSTIC_FIELDS[0] == FidSignaturesSha256 && DIAGNOSTIC_FIELDS[1] == FidbSha256;
    assert ARTIFACT_FIELDS[0] == AnalysisArtifactSha256;
  }

  /** `found` is the last cell under the key, if there is one. */
  ghost predicate LastIfAny(cells: seq<Cell>, key: Key, found: Option<Cell>) {
    match found
    case Some(cell) => LastUnder(cells, key, cell)
    case None => forall cell :: cell in cells ==> cell.key != key
  }

  lemma LookupIsLast(cells: seq<Cell>, key: Key, found: Option<Cell>)
    ensures Lookup(cells, key) == found <==> LastIfAny(cells, key, found)
  {
    hide Lookup;
    if found.Some? {
      LookupIff(cells, key, found.value);
    } else if Lookup(cells, key).Some? {
      assert Lookup(cells, key).value in cells;
    }
  }

  /** Everything else a report can hold: a cell that only one run has, with what that run lists last, and
      that among the mismatches only. Fields are reported of keys that both runs hold. */
  lemma ReportedOtherwise(reference: seq<Cell>, candidate: seq<Cell>, key: Key, wanted: Option<Cell>, found: Option<Cell>, m: Mismatch)
    ensures CellMissing(key, wanted, found) in Mismatches(reference, candidate) <==>
      LastIfAny(reference, key, wanted) && LastIfAny(candidate, key, found) && wanted.Some? != found.Some?
    ensures m in Mismatches(reference, candidate) && m.FieldDiffers? ==>
      m.field in {Status, SignatureSha256, SignatureRecords, FidAttempted, FidAdded, FidExcluded}
    ensures m in ArtifactMismatches(reference, candidate) ==> m.FieldDiffers? && m.field == AnalysisArtifactSha256
    ensures m in Differences(reference, candidate) ==> m.FieldDiffers? && m.field in {FidSignaturesSha256, FidbSha256}
    ensures m in Mismatches(reference, candidate) + ArtifactMismatches(reference, candidate) + Differences(reference, candidate) && m.FieldDiffers? ==>
      && (exists a :: a in reference && a.key == m.key)
      && (exists b :: b in candidate && b.key == m.key)
  {
    hide Report, Lookup, AllKeys, LastIfAny, ValueOf;
    LookupIsLast(reference, key, wanted);
    LookupIsLast(candidate, key, found);
    ReportedIff(reference, candidate, EXACT_FIELDS, true, CellMissing(key, wanted, found));
    ReportedIff(reference, candidate, EXACT_FIELDS, true, m);
    ReportedIff(reference, candidate, ARTIFACT_FIELDS, false, m);
    ReportedIff(reference, candidate, DIAGNOSTIC_FIELDS, false, m);
  }

  /** By route, and by treatment within a route. */
  ghost predicate KeyBefore(a: Key, b: Key) {
    if a.routeId == b.routeId then TextLeq(a.treatmentId, b.treatmentId) else TextLeq(a.routeId, b.routeId)
  }

  lemma KeyLeqIff(a: Key, b: Key)
    ensures KeyLeq(a, b) <==> KeyBefore(a, b)
  {
    LexLeqIff(a.routeId, b.routeId);
    LexLeqIff(a.treatmentId, b.treatmentId);
  }

  /** A run's cells as they are digested: by key, those of one key as they were listed. */
  lemma CanonicalOrder(cells: seq<Cell>, key: Key)
    ensures multiset(Canonical(cells)) == multiset(cells)
    ensures forall i, j :: 0 <= i < j < |Canonical(cells)| ==> KeyBefore(Canonical(cells)[i].key, Canonical(cells)[j].key)
    ensures Select(Canonical(cells), (cell: Cell) => cell.key == key) == Select(cells, (cell: Cell) => cell.key == key)
  {
    hide Sort, KeyLeq, KeyBefore, Select;
    SortPermutes(cells, CellLeq);
    KeyIsAnOrder();
    SortSorts(cells, CellLeq);
    SortStable(cells, CellLeq, (cell: Cell) => cell.key == key);
    var canonical := Canonical(cells);
    forall i, j | 0 <= i < j < |canonical|
      ensures KeyBefore(canonical[i].key, canonical[j].key)
    {
      assert CellLeq(canonical[i], canonical[j]);
      KeyLeqIff(canonical[i].key, canonical[j].key);
    }
  }

  /** The entries of each report by key, in the order of keys. */
  lemma ReportedByKey(reference: seq<Cell>, candidate: seq<Cell>, fields: seq<Field>, missing: bool)
    requires Ascending(fields)
    ensures var report := Report(reference, candidate, fields, missing, AllKeys(reference, candidate));
      forall i, j :: 0 <= i < j < |report| ==> KeyBefore(report[i].key, report[j].key)
  {
    hide Report, AllKeys, KeyLeq, Rank;
    AllKeysSorted(reference, candidate);
    ReportInOrder(reference, candidate, fields, missing, AllKeys(reference, candidate));
    var report := Report(reference, candidate, fields, missing, AllKeys(reference, candidate));
    forall i, j | 0 <= i < j < |report|
      ensures KeyBefore(report[i].key, report[j].key)
    {
      assert Precedes(report[i], report[j]);
      KeyLeqIff(report[i].key, report[j].key);
    }
  }

  /** The fields that make up a cell's meaning agree. */
  ghost predicate MeanSame(a: Cell, b: Cell) {
    && a.status == b.status && a.canonicalSha256 == b.canonicalSha256 && a.canonicalRecords == b.canonicalRecords
    && a.fidAttempted == b.fidAttempted && a.fidAdded == b.fidAdded && a.fidExcluded == b.fidExcluded
  }

  lemma SameLastIff(reference: seq<Cell>, candidate: seq<Cell>, key: Key)
    ensures SameLast(reference, candidate, key) <==>
      && ((exists a :: a in reference && a.key == key) <==> (exists b :: b in candidate && b.key == key))
      && forall a, b :: LastUnder(reference, key, a) && LastUnder(candidate, key, b) ==> MeanSame(a, b)
  {
    hide Lookup, LastUnder;
    forall cell
      ensures Lookup(reference, key) == Some(cell) <==> LastUnder(reference, key, cell)
      ensures Lookup(candidate, key) == Some(cell) <==> LastUnder(candidate, key, cell)
    {
      LookupIff(reference, key, cell);
      LookupIff(candidate, key, cell);
    }
    LookupHolds(reference, key);
    LookupHolds(candidate, key);
    if Lookup(reference, key).Some? && Lookup(candidate, key).Some? {
      var a, b := Lookup(reference, key).value, Lookup(candidate, key).value;
      assert LastUnder(reference, key, a) && LastUnder(candidate, key, b);
      assert Semantic(a) == Semantic(b) <==> MeanSame(a, b);
    }
  }

  lemma LookupHolds(cells: seq<Cell>, key: Key)
    ensures Lookup(cells, key).Some? <==> exists cell :: cell in cells && cell.key == key
  {
    hide Lookup;
  }
}
