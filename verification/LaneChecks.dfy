/** What the compaction's own checks establish, what they leave open, and that every lookup
    answers the same from the compact tables as from the raw table. */
module LaneChecks {
  import opened Results
  import opened Sorting
  import opened Aggregates
  import opened Grouping
  import opened LaneCompaction

  /** Row ids are primary keys in the raw database. */
  ghost predicate WellFormed(raw: Raw) {
    DistinctBy(raw.observations, ObservationId) && DistinctBy(raw.relationships, RelationshipId)
  }

  /** The rows of the verification join whose key columns differ. */
  function Mismatches(raw: Raw, tables: Compact): set<(Observation, Occurrence, Signature)> {
    set o, c, s |
      o in raw.observations && c in tables.occurrences && s in tables.signatures
      && c.id == o.id && s.id == c.signatureId && s.key != o.key :: (o, c, s)
  }

  /** Both verification queries succeed, for tables that are to hold `count` observations of `raw`. */
  predicate PassesCounting(count: nat, raw: Raw, tables: Compact) {
    |tables.occurrences| == count && Mismatches(raw, tables) == {}
  }

  predicate Passes(raw: Raw, tables: Compact) {
    PassesCounting(|raw.observations|, raw, tables)
  }

  /** Primary keys, UNIQUE and foreign keys of the compact schema, relationships apart. */
  predicate KeysHold(tables: Compact) {
    && (forall i, j :: 0 <= i < j < |tables.signatures| ==> tables.signatures[i].id != tables.signatures[j].id)
    && (forall i, j :: 0 <= i < j < |tables.signatures| ==> tables.signatures[i].key != tables.signatures[j].key)
    && (forall i, j :: 0 <= i < j < |tables.occurrences| ==> tables.occurrences[i].id != tables.occurrences[j].id)
    && (forall k :: 0 <= k < |tables.occurrences| ==> HasSignature(tables.signatures, tables.occurrences[k].signatureId))
  }

  predicate HasSignature(signatures: seq<Signature>, id: int) {
    exists s :: s in signatures && s.id == id
  }

  function RelationshipId(relationship: Relationship): int { relationship.id }

  /** The columns of a relationship that are unique together. */
  function Link(relationship: Relationship): (int, int, string) {
    (relationship.source, relationship.target, relationship.kind)
  }

  /** Primary key, UNIQUE and foreign keys of a relationship table between the rows with the given ids. */
  predicate RelationshipsHold(relationships: seq<Relationship>, ids: set<int>) {
    && DistinctBy(relationships, RelationshipId) && DistinctBy(relationships, Link)
    && forall r :: r in relationships ==> r.source in ids && r.target in ids
  }

  function OccurrenceIds(tables: Compact): set<int> {
    set c | c in tables.occurrences :: c.id
  }

  function ObservationIds(raw: Raw): set<int> {
    set o | o in raw.observations :: o.id
  }

  function ObservationId(observation: Observation): int { observation.id }

  /** The CHECK clauses of the signature columns, the same in both schemas. */
  predicate ValidKey(key: SignatureKey) {
    |key.fullHash| == 16 && |key.specificHash| == 16 && key.additionalSize >= 0 && key.codeUnitSize >= 0
  }

  function AdmittedSignature(admission: Admission): int { admission.signatureId }

  /** Primary key, foreign key and CHECK clause of the admission table. */
  predicate AdmissionsHold(tables: Compact) {
    && DistinctBy(tables.admissions, AdmittedSignature)
    && forall k :: 0 <= k < |tables.admissions| ==>
         && HasSignature(tables.signatures, tables.admissions[k].signatureId)
         && tables.admissions[k].state in ["unreviewed", "unique-owner", "shared-owner", "collision-suspect", "excluded"]
  }

  /** All constraints of the compact schema. */
  predicate SchemaHolds(tables: Compact) {
    && KeysHold(tables) && RelationshipsHold(tables.relationships, OccurrenceIds(tables))
    && (forall k :: 0 <= k < |tables.signatures| ==> ValidKey(tables.signatures[k].key))
    && AdmissionsHold(tables)
  }

  /** The constraints that the raw schema declares for the same rows. */
  predicate RawSchemaHolds(raw: Raw) {
    && DistinctBy(raw.observations, ObservationId) && RelationshipsHold(raw.relationships, ObservationIds(raw))
    && forall k :: 0 <= k < |raw.observations| ==> ValidKey(raw.observations[k].key)
  }

  // ---------- The constraints column by column ----------

  ghost predicate KeyColumnsValid(key: SignatureKey) {
    |key.fullHash| == 16 && |key.specificHash| == 16 && key.additionalSize >= 0 && key.codeUnitSize >= 0
  }

  /** Ids, links and endpoints: `ids` are those of the rows that may be linked. */
  ghost predicate LinkColumnsValid(links: seq<Relationship>, ids: set<int>) {
    && (forall i, j :: 0 <= i < j < |links| ==>
          && links[i].id != links[j].id
          && (links[i].source != links[j].source || links[i].target != links[j].target || links[i].kind != links[j].kind))
    && (forall i :: 0 <= i < |links| ==> links[i].source in ids && links[i].target in ids)
  }

  ghost predicate SignatureColumnsValid(signatures: seq<Signature>) {
    && (forall i, j :: 0 <= i < j < |signatures| ==> signatures[i].id != signatures[j].id && signatures[i].key != signatures[j].key)
    && (forall i :: 0 <= i < |signatures| ==> KeyColumnsValid(signatures[i].key))
  }

  ghost predicate OccurrenceColumnsValid(rows: seq<Occurrence>, signatureIds: set<int>) {
    && (forall i, j :: 0 <= i < j < |rows| ==> rows[i].id != rows[j].id)
    && (forall i :: 0 <= i < |rows| ==> rows[i].signatureId in signatureIds)
  }

  ghost predicate AdmissionColumnsValid(admissions: seq<Admission>, signatureIds: set<int>) {
    && (forall i, j :: 0 <= i < j < |admissions| ==> admissions[i].signatureId != admissions[j].signatureId)
    && (forall i :: 0 <= i < |admissions| ==>
          && admissions[i].signatureId in signatureIds
          && admissions[i].state in {"unreviewed", "unique-owner", "shared-owner", "collision-suspect", "excluded"})
  }

  /** What the raw schema asks of observations and relationships. */
  ghost predicate RawColumnsValid(raw: Raw) {
    && (forall i, j :: 0 <= i < j < |raw.observations| ==> raw.observations[i].id != raw.observations[j].id)
    && (forall i :: 0 <= i < |raw.observations| ==> KeyColumnsValid(raw.observations[i].key))
    && LinkColumnsValid(raw.relationships, set o | o in raw.observations :: o.id)
  }

  /** What the compact schema asks of its four tables. */
  ghost predicate CompactColumnsValid(tables: Compact) {
    var signatureIds := set s | s in tables.signatures :: s.id;
    && SignatureColumnsValid(tables.signatures)
    && OccurrenceColumnsValid(tables.occurrences, signatureIds)
    && LinkColumnsValid(tables.relationships, set c | c in tables.occurrences :: c.id)
    && AdmissionColumnsValid(tables.admissions, signatureIds)
  }

  lemma LinksAre(links: seq<Relationship>, ids: set<int>)
    ensures RelationshipsHold(links, ids) <==> LinkColumnsValid(links, ids)
  {
    if RelationshipsHold(links, ids) {
      forall i, j | 0 <= i < j < |links|
        ensures links[i].id != links[j].id
        ensures links[i].source != links[j].source || links[i].target != links[j].target || links[i].kind != links[j].kind
      {
        assert RelationshipId(links[i]) != RelationshipId(links[j]) && Link(links[i]) != Link(links[j]);
      }
    }
  }

  lemma DistinctIds(rows: seq<Observation>)
    ensures DistinctBy(rows, ObservationId) <==> forall i, j :: 0 <= i < j < |rows| ==> rows[i].id != rows[j].id
  {
    if DistinctBy(rows, ObservationId) {
      forall i, j | 0 <= i < j < |rows|
        ensures rows[i].id != rows[j].id
      {
        assert ObservationId(rows[i]) != ObservationId(rows[j]);
      }
    }
  }

  lemma RawSchemaIs(raw: Raw)
    ensures RawSchemaHolds(raw) <==> RawColumnsValid(raw)
  {
    hide RelationshipsHold, LinkColumnsValid;
    LinksAre(raw.relationships, ObservationIds(raw));
    DistinctIds(raw.observations);
  }

  lemma SignatureIdsAre(tables: Compact, id: int)
    ensures HasSignature(tables.signatures, id) <==> id in set s | s in tables.signatures :: s.id
  {
  }

  lemma KeysAre(tables: Compact)
    ensures KeysHold(tables) && (forall k :: 0 <= k < |tables.signatures| ==> ValidKey(tables.signatures[k].key)) <==>
      SignatureColumnsValid(tables.signatures) && OccurrenceColumnsValid(tables.occurrences, set s | s in tables.signatures :: s.id)
  {
    hide HasSignature;
    forall k | 0 <= k < |tables.occurrences|
      ensures HasSignature(tables.signatures, tables.occurrences[k].signatureId) <==>
        tables.occurrences[k].signatureId in set s | s in tables.signatures :: s.id
    {
      SignatureIdsAre(tables, tables.occurrences[k].signatureId);
    }
  }

  lemma StateListed(state: string)
    ensures state in ["unreviewed", "unique-owner", "shared-owner", "collision-suspect", "excluded"] <==>
      state in {"unreviewed", "unique-owner", "shared-owner", "collision-suspect", "excluded"}
  {
    var listed := ["unreviewed", "unique-owner", "shared-owner", "collision-suspect", "excluded"];
    assert listed[0] == "unreviewed" && listed[1] == "unique-owner" && listed[2] == "shared-owner";
    assert listed[3] == "collision-suspect" && listed[4] == "excluded";
  }

  lemma AdmissionsAre(tables: Compact)
    ensures AdmissionsHold(tables) <==> AdmissionColumnsValid(tables.admissions, set s | s in tables.signatures :: s.id)
  {
    hide HasSignature;
    forall k | 0 <= k < |tables.admissions|
      ensures HasSignature(tables.signatures, tables.admissions[k].signatureId) <==>
        tables.admissions[k].signatureId in set s | s in tables.signatures :: s.id
      ensures tables.admissions[k].state in ["unreviewed", "unique-owner", "shared-owner", "collision-suspect", "excluded"] <==>
        tables.admissions[k].state in {"unreviewed", "unique-owner", "shared-owner", "collision-suspect", "excluded"}
    {
      SignatureIdsAre(tables, tables.admissions[k].signatureId);
      StateListed(tables.admissions[k].state);
    }
    if AdmissionsHold(tables) {
      forall i, j | 0 <= i < j < |tables.admissions|
        ensures tables.admissions[i].signatureId != tables.admissions[j].signatureId
      {
        assert AdmittedSignature(tables.admissions[i]) != AdmittedSignature(tables.admissions[j]);
      }
    }
  }

  lemma CompactSchemaIs(tables: Compact)
    ensures SchemaHolds(tables) <==> CompactColumnsValid(tables)
  {
    hide RelationshipsHold, AdmissionsHold, KeysHold, ValidKey;
    hide SignatureColumnsValid, OccurrenceColumnsValid, LinkColumnsValid, AdmissionColumnsValid;
    KeysAre(tables);
    LinksAre(tables.relationships, OccurrenceIds(tables));
    AdmissionsAre(tables);
  }

  // ---------- The tables that compaction builds ----------

  lemma SameId(raw: Raw, a: Observation, b: Observation)
    requires WellFormed(raw) && a in raw.observations && b in raw.observations && a.id == b.id
    ensures a == b
  {
    var i :| 0 <= i < |raw.observations| && raw.observations[i] == a;
    var j :| 0 <= j < |raw.observations| && raw.observations[j] == b;
    assert i == j;
  }

  /** Every occurrence comes from one observation and points at that observation's signature. */
  lemma OccurrenceOrigin(raw: Raw, c: Occurrence) returns (o: Observation, i: nat)
    requires c in Compaction(raw).occurrences
    ensures o in raw.observations && i < |Compaction(raw).signatures|
    ensures Compaction(raw).signatures[i] == Signature(i + 1, o.key)
    ensures c == Occurrence(o.id, i + 1, o.build, o.path, o.name)
  {
    hide Sort, DistinctKeys, Join, FlatMap;
    var sorted := Sort(raw.observations, ById);
    var signatures := Number1(DistinctKeys(raw.observations));
    var k := FlatMapOrigin(sorted, c, Join(signatures));
    SortPermutes(raw.observations, ById);
    o := sorted[k];
    assert o in multiset(raw.observations);
    var at :| 0 <= at < |raw.observations| && raw.observations[at] == o;
    i := JoinsOnce(raw.observations, at);
  }

  lemma ObservationOccurs(raw: Raw, o: Observation) returns (i: nat)
    requires o in raw.observations
    ensures i < |Compaction(raw).signatures| && Compaction(raw).signatures[i] == Signature(i + 1, o.key)
    ensures Occurrence(o.id, i + 1, o.build, o.path, o.name) in Compaction(raw).occurrences
  {
    hide Sort, DistinctKeys, Join, FlatMap;
    var sorted := Sort(raw.observations, ById);
    var signatures := Number1(DistinctKeys(raw.observations));
    var at :| 0 <= at < |raw.observations| && raw.observations[at] == o;
    i := JoinsOnce(raw.observations, at);
    SortPermutes(raw.observations, ById);
    assert o in multiset(sorted);
    var k :| 0 <= k < |sorted| && sorted[k] == o;
    FlatMapMember(sorted, k, Occurrence(o.id, i + 1, o.build, o.path, o.name), Join(signatures));
  }

  /** The compaction's own output passes both verification queries. */
  lemma CompactionPasses(raw: Raw)
    requires WellFormed(raw)
    ensures Passes(raw, Compaction(raw))
  {
    hide Compaction;
    var tables := Compaction(raw);
    CompactionIsLossless(raw);
    NumberedFromOne(raw);
    forall o, c, s | o in raw.observations && c in tables.occurrences && s in tables.signatures
                     && c.id == o.id && s.id == c.signatureId
      ensures s.key == o.key
    {
      var o', i := OccurrenceOrigin(raw, c);
      SameId(raw, o, o');
      var j :| 0 <= j < |tables.signatures| && tables.signatures[j] == s;
    }
  }

  lemma NumberedFromOne(raw: Raw)
    ensures forall i :: 0 <= i < |Compaction(raw).signatures| ==> Compaction(raw).signatures[i].id == i + 1
    ensures forall i :: 0 <= i < |Compaction(raw).signatures| ==>
      Compaction(raw).signatures[i].key == DistinctKeys(raw.observations)[i]
    ensures |Compaction(raw).signatures| == |DistinctKeys(raw.observations)|
  {
  }

  lemma OccurrenceIdsKept(raw: Raw)
    ensures OccurrenceIds(Compaction(raw)) == ObservationIds(raw)
  {
    hide Compaction;
    var tables := Compaction(raw);
    forall c | c in tables.occurrences ensures c.id in ObservationIds(raw) {
      var o, i := OccurrenceOrigin(raw, c);
    }
    forall o | o in raw.observations ensures o.id in OccurrenceIds(tables) {
      var i := ObservationOccurs(raw, o);
      assert Occurrence(o.id, i + 1, o.build, o.path, o.name) in tables.occurrences;
    }
  }

  /** Signature ids and keys are unique and referred to whatever the raw table holds; so are
      occurrence ids exactly when the observation ids are. */
  lemma OutputKeysHold(raw: Raw)
    ensures KeysHold(Compaction(raw)) <==> DistinctBy(raw.observations, ObservationId)
  {
    hide Compaction, Join, FlatMap, DistinctKeys;
    var tables := Compaction(raw);
    NumberedFromOne(raw);
    KeysAreDistinct(raw.observations);
    forall k | 0 <= k < |tables.occurrences|
      ensures HasSignature(tables.signatures, tables.occurrences[k].signatureId)
    {
      var o, i := OccurrenceOrigin(raw, tables.occurrences[k]);
      assert tables.signatures[i] in tables.signatures;
    }
    OccurrencesFollow(raw);
    var sorted := Sort(raw.observations, ById);
    SortPermutes(raw.observations, ById);
    if DistinctBy(raw.observations, ObservationId) {
      DistinctByPermute(raw.observations, sorted, ObservationId);
      assert forall i, j :: 0 <= i < j < |sorted| ==> ObservationId(sorted[i]) != ObservationId(sorted[j]);
    }
    if KeysHold(tables) {
      assert DistinctBy(sorted, ObservationId);
      DistinctByPermute(sorted, raw.observations, ObservationId);
    }
  }

  lemma OccurrencesFollow(raw: Raw)
    ensures var sorted, occurrences := Sort(raw.observations, ById), Compaction(raw).occurrences;
      |occurrences| == |sorted| && forall k :: 0 <= k < |sorted| ==> occurrences[k].id == sorted[k].id
  {
    hide DistinctKeys, Join, FlatMap;
    SortMembers(raw.observations, ById);
    hide Sort;
    var sorted := Sort(raw.observations, ById);
    forall o | 0 <= o < |sorted| ensures sorted[o] in raw.observations {
      assert sorted[o] in sorted;
    }
    JoinIds(raw.observations, sorted);
  }

  /** The signature columns are those of the observations. */
  lemma OutputColumnsValid(raw: Raw)
    ensures (forall k :: 0 <= k < |Compaction(raw).signatures| ==> ValidKey(Compaction(raw).signatures[k].key)) <==>
      forall k :: 0 <= k < |raw.observations| ==> ValidKey(raw.observations[k].key)
  {
    hide Compaction, DistinctKeys, ValidKey;
    var signatures, keys := Compaction(raw).signatures, DistinctKeys(raw.observations);
    NumberedFromOne(raw);
    KeysAreDistinct(raw.observations);
    forall k | 0 <= k < |raw.observations|
      ensures exists i :: 0 <= i < |signatures| && signatures[i].key == raw.observations[k].key
    {
      var i := ObservationOccurs(raw, raw.observations[k]);
      assert signatures[i].key == raw.observations[k].key;
    }
    forall i | 0 <= i < |signatures|
      ensures exists k :: 0 <= k < |raw.observations| && raw.observations[k].key == signatures[i].key
    {
      assert keys[i] in keys;
    }
  }

  /** One unreviewed admission for each signature. */
  lemma OutputAdmissionsHold(raw: Raw)
    ensures AdmissionsHold(Compaction(raw))
  {
    hide DistinctKeys, Join, FlatMap;
    var tables := Compaction(raw);
    NumberedFromOne(raw);
    forall k | 0 <= k < |tables.admissions|
      ensures HasSignature(tables.signatures, tables.admissions[k].signatureId)
    {
      assert tables.signatures[k] in tables.signatures;
    }
  }

  /** The output meets every key, UNIQUE, foreign key and CHECK of the compact schema exactly when the
      raw tables meet those of theirs. */
  lemma CompactionKeepsConstraints(raw: Raw)
    ensures SchemaHolds(Compaction(raw)) <==> RawSchemaHolds(raw)
    ensures OccurrenceIds(Compaction(raw)) == ObservationIds(raw)
    ensures Compaction(raw).admissions == Admissions(Compaction(raw).signatures)
  {
    hide KeysHold, Sort, DistinctBy, OccurrenceIds, ObservationIds, ValidKey, AdmissionsHold;
    OutputKeysHold(raw);
    OutputColumnsValid(raw);
    OutputAdmissionsHold(raw);
    OccurrenceIdsKept(raw);
    var sorted := Sort(raw.relationships, RelationshipById);
    SortPermutes(raw.relationships, RelationshipById);
    SortMembers(raw.relationships, RelationshipById);
    if DistinctBy(raw.relationships, RelationshipId) && DistinctBy(raw.relationships, Link) {
      DistinctByPermute(raw.relationships, sorted, RelationshipId);
      DistinctByPermute(raw.relationships, sorted, Link);
    }
    if DistinctBy(sorted, RelationshipId) && DistinctBy(sorted, Link) {
      DistinctByPermute(sorted, raw.relationships, RelationshipId);
      DistinctByPermute(sorted, raw.relationships, Link);
    }
  }

  lemma {:induction false} JoinIds(observations: seq<Observation>, some: seq<Observation>)
    requires forall o :: 0 <= o < |some| ==> some[o] in observations
    ensures var joined := FlatMap(some, Join(Number1(DistinctKeys(observations))));
      |joined| == |some| && forall k :: 0 <= k < |some| ==> joined[k].id == some[k].id
  {
    hide DistinctKeys, Join;
    if some != [] {
      hide FlatMap;
      var n := |some| - 1;
      JoinIds(observations, some[..n]);
      var o :| 0 <= o < |observations| && observations[o] == some[n];
      var i := JoinsOnce(observations, o);
      FlatMapSnoc(some[..n], some[n], Join(Number1(DistinctKeys(observations))));
      assert some == some[..n] + [some[n]];
    }
  }

  // ---------- What the checks mean for any tables ----------

  /** Each occurrence repeats the build, path and function name of the observation it is named after. */
  ghost predicate KeepsProvenance(raw: Raw, tables: Compact) {
    forall c :: c in tables.occurrences ==> exists o ::
      o in raw.observations && o.id == c.id && o.build == c.build && o.path == c.path && o.name == c.name
  }

  lemma {:induction false} WithIdUnique(signatures: seq<Signature>, i: nat)
    requires i < |signatures|
    requires forall j, k :: 0 <= j < k < |signatures| ==> signatures[j].id != signatures[k].id
    ensures WithId(signatures, signatures[i].id) == [signatures[i]]
  {
    var n := |signatures| - 1;
    if i < n {
      WithIdUnique(signatures[..n], i);
    } else {
      NoneWithId(signatures[..n], signatures[i].id);
    }
  }

  lemma {:induction false} NoneWithId(signatures: seq<Signature>, id: int)
    requires forall j :: 0 <= j < |signatures| ==> signatures[j].id != id
    ensures WithId(signatures, id) == []
  {
    if signatures != [] {
      NoneWithId(signatures[..|signatures| - 1], id);
    }
  }

  /** Row `k` of the rebuilt table is occurrence `k` with the key of its signature. */
  lemma {:induction false} RebuildRows(signatures: seq<Signature>, occurrences: seq<Occurrence>)
    requires forall j, k :: 0 <= j < k < |signatures| ==> signatures[j].id != signatures[k].id
    requires forall k :: 0 <= k < |occurrences| ==> HasSignature(signatures, occurrences[k].signatureId)
    ensures var rows := FlatMap(occurrences, RestoreFrom(signatures));
      && |rows| == |occurrences|
      && forall k :: 0 <= k < |rows| ==>
           && rows[k].id == occurrences[k].id && rows[k].build == occurrences[k].build
           && rows[k].path == occurrences[k].path && rows[k].name == occurrences[k].name
           && Signature(occurrences[k].signatureId, rows[k].key) in signatures
  {
    hide WithId;
    if occurrences != [] {
      hide FlatMap;
      var n := |occurrences| - 1;
      RebuildRows(signatures, occurrences[..n]);
      assert HasSignature(signatures, occurrences[n].signatureId);
      var i :| 0 <= i < |signatures| && signatures[i].id == occurrences[n].signatureId;
      WithIdUnique(signatures, i);
      assert RestoreFrom(signatures)(occurrences[n]) == Restore(occurrences[n], [signatures[i]]);
      FlatMapSnoc(occurrences[..n], occurrences[n], RestoreFrom(signatures));
      assert occurrences == occurrences[..n] + [occurrences[n]];
    }
  }

  lemma AllRowsFound(a: seq<Observation>, b: seq<Observation>)
    requires |a| == |b| && Distinct(a) && forall i :: 0 <= i < |a| ==> a[i] in b
    ensures multiset(a) == multiset(b)
  {
    DistinctCounts(a);
    forall x
      ensures multiset(a)[x] <= multiset(b)[x]
    {
      if x in multiset(a) {
        var i :| 0 <= i < |a| && a[i] == x;
        assert x in multiset(b);
      }
    }
    assert multiset(a) <= multiset(b);
    assert multiset(b) == multiset(a) + (multiset(b) - multiset(a));
    assert |multiset(b) - multiset(a)| == |multiset(b)| - |multiset(a)| == 0;
  }

  /** Exactly what the two verification queries leave open: tables that satisfy the schema rebuild
      the raw observations if and only if they pass the queries and keep every occurrence's provenance. */
  lemma LosslessIffVerifiedAndProvenance(raw: Raw, tables: Compact)
    requires WellFormed(raw) && KeysHold(tables)
    ensures multiset(Rebuild(tables)) == multiset(raw.observations) <==> Passes(raw, tables) && KeepsProvenance(raw, tables)
  {
    hide FlatMap, RestoreFrom, Mismatches;
    if multiset(Rebuild(tables)) == multiset(raw.observations) {
      LosslessPasses(raw, tables);
    }
    if Passes(raw, tables) && KeepsProvenance(raw, tables) {
      VerifiedIsLossless(raw, tables);
    }
  }

  lemma LosslessPasses(raw: Raw, tables: Compact)
    requires WellFormed(raw) && KeysHold(tables)
    requires multiset(Rebuild(tables)) == multiset(raw.observations)
    ensures Passes(raw, tables) && KeepsProvenance(raw, tables)
  {
    hide Rebuild;
    assert |multiset(Rebuild(tables))| == |Rebuild(tables)| && |multiset(raw.observations)| == |raw.observations|;
    forall c | c in tables.occurrences
      ensures exists o :: o in raw.observations && o.id == c.id && o.build == c.build && o.path == c.path && o.name == c.name
    {
      var row := RebuiltFrom(raw, tables, c);
    }
    forall o, c, s | o in raw.observations && c in tables.occurrences && s in tables.signatures
                     && c.id == o.id && s.id == c.signatureId
      ensures s.key == o.key
    {
      var row := RebuiltFrom(raw, tables, c);
      SameId(raw, o, row);
      SameSignature(tables, s, Signature(c.signatureId, row.key));
    }
    RebuildSize(tables);
  }

  lemma RebuildSize(tables: Compact)
    requires KeysHold(tables)
    ensures |Rebuild(tables)| == |tables.occurrences|
  {
    RebuildRows(tables.signatures, tables.occurrences);
  }

  lemma RebuiltFrom(raw: Raw, tables: Compact, c: Occurrence) returns (row: Observation)
    requires KeysHold(tables) && multiset(Rebuild(tables)) == multiset(raw.observations) && c in tables.occurrences
    ensures row in raw.observations && row.id == c.id && row.build == c.build && row.path == c.path && row.name == c.name
    ensures Signature(c.signatureId, row.key) in tables.signatures
  {
    hide FlatMap, RestoreFrom;
    RebuildRows(tables.signatures, tables.occurrences);
    var k :| 0 <= k < |tables.occurrences| && tables.occurrences[k] == c;
    row := Rebuild(tables)[k];
    assert row in multiset(raw.observations);
  }

  lemma SameSignature(tables: Compact, a: Signature, b: Signature)
    requires KeysHold(tables) && a in tables.signatures && b in tables.signatures && a.id == b.id
    ensures a == b
  {
    var i :| 0 <= i < |tables.signatures| && tables.signatures[i] == a;
    var j :| 0 <= j < |tables.signatures| && tables.signatures[j] == b;
    assert i == j;
  }

  lemma VerifiedIsLossless(raw: Raw, tables: Compact)
    requires WellFormed(raw) && KeysHold(tables) && Passes(raw, tables) && KeepsProvenance(raw, tables)
    ensures multiset(Rebuild(tables)) == multiset(raw.observations)
  {
    hide FlatMap, RestoreFrom;
    var rows := Rebuild(tables);
    RebuildRows(tables.signatures, tables.occurrences);
    forall k | 0 <= k < |rows|
      ensures rows[k] in raw.observations
    {
      var c := tables.occurrences[k];
      assert c in tables.occurrences;
      var o :| o in raw.observations && o.id == c.id && o.build == c.build && o.path == c.path && o.name == c.name;
      var s := Signature(c.signatureId, rows[k].key);
      assert s.key != o.key ==> (o, c, s) in Mismatches(raw, tables);
      assert rows[k] == o;
    }
    forall i, j | 0 <= i < j < |rows| ensures rows[i] != rows[j] {
      assert rows[i].id != rows[j].id;
    }
    AllRowsFound(rows, raw.observations);
  }

  /** The queries alone are not enough: tables that rename a function pass both. */
  lemma RenamingPasses(raw: Raw, tables: Compact, k: nat, name: string)
    requires WellFormed(raw) && KeysHold(tables) && Passes(raw, tables) && k < |tables.occurrences|
    requires forall o :: o in raw.observations && o.id == tables.occurrences[k].id ==> o.name != name
    ensures var renamed := tables.(occurrences := tables.occurrences[k := tables.occurrences[k].(name := name)]);
      KeysHold(renamed) && Passes(raw, renamed) && multiset(Rebuild(renamed)) != multiset(raw.observations)
  {
    hide Rebuild, KeysHold;
    var changed := tables.occurrences[k].(name := name);
    var renamed := tables.(occurrences := tables.occurrences[k := changed]);
    forall o, c, s | o in raw.observations && c in renamed.occurrences && s in renamed.signatures
                     && c.id == o.id && s.id == c.signatureId
      ensures s.key == o.key
    {
      var j :| 0 <= j < |renamed.occurrences| && renamed.occurrences[j] == c;
      var c' := tables.occurrences[j];
      assert c' in tables.occurrences;
      assert s.key != o.key ==> (o, c', s) in Mismatches(raw, tables);
    }
    RenamedKeysHold(tables, k, name);
    assert renamed.occurrences[k] == changed && changed in renamed.occurrences;
    assert !KeepsProvenance(raw, renamed);
    LosslessIffVerifiedAndProvenance(raw, renamed);
  }

  lemma RenamedKeysHold(tables: Compact, k: nat, name: string)
    requires KeysHold(tables) && k < |tables.occurrences|
    ensures KeysHold(tables.(occurrences := tables.occurrences[k := tables.occurrences[k].(name := name)]))
  {
    var renamed := tables.occurrences[k := tables.occurrences[k].(name := name)];
    assert forall j :: 0 <= j < |renamed| ==>
      renamed[j].signatureId == tables.occurrences[j].signatureId && renamed[j].id == tables.occurrences[j].id;
  }

  // ---------- The preview ----------

  datatype Preview = Preview(rawObservations: nat, uniqueSignatures: nat, repeated: int)

  datatype LaneError = NotOneGeneration(count: nat)

  /** The read-only preview: one group per distinct key. */
  function PreviewOf(raw: Raw): Result<Preview, LaneError> {
    if |raw.generations| != 1 then Failure(NotOneGeneration(|raw.generations|))
    else
      var rawCount, uniqueCount := |raw.observations|, |FirstAppearances(KeysIn(raw.observations))|;
      Success(Preview(rawCount, uniqueCount, rawCount - uniqueCount))
  }

  lemma {:induction false} FirstAppearancesCount<K>(keys: seq<K>)
    ensures |FirstAppearances(keys)| <= |keys|
  {
    if keys != [] {
      FirstAppearancesCount(keys[..|keys| - 1]);
    }
  }

  /** What the preview announces is what the compaction stores. */
  lemma PreviewAgrees(raw: Raw)
    requires PreviewOf(raw).Success?
    ensures var preview, tables := PreviewOf(raw).value, Compaction(raw);
      && |tables.occurrences| == preview.rawObservations
      && |tables.signatures| == |tables.admissions| == preview.uniqueSignatures
      && preview.repeated == |tables.occurrences| - |tables.signatures| >= 0
  {
    hide Sort;
    CompactionIsLossless(raw);
    SortPermutes(FirstAppearances(KeysIn(raw.observations)), KeyLeq);
    FirstAppearancesCount(KeysIn(raw.observations));
  }

  /** The preview in terms of the rows alone: their number, the number of different keys among them, and
      how many rows repeat one. */
  lemma PreviewIs(raw: Raw)
    ensures var keys := set o | o in raw.observations :: o.key;
      PreviewOf(raw) ==
        if |raw.generations| != 1 then Failure(NotOneGeneration(|raw.generations|))
        else Success(Preview(|raw.observations|, |keys|, |raw.observations| - |keys|))
  {
    hide FirstAppearances;
    var keys, listed := set o | o in raw.observations :: o.key, KeysIn(raw.observations);
    FirstAppearancesDistinct(listed);
    forall key
      ensures key in keys <==> key in FirstAppearances(listed)
    {
      if key in keys {
        var o :| o in raw.observations && o.key == key;
        var i :| 0 <= i < |raw.observations| && raw.observations[i] == o;
        assert listed[i] == key;
      }
      if key in FirstAppearances(listed) {
        assert key in listed;
        var i :| 0 <= i < |listed| && listed[i] == key;
        assert raw.observations[i] in raw.observations;
      }
    }
    DistinctSize(FirstAppearances(listed), keys);
  }

  // ---------- Lookups ----------

  datatype Hit = Hit(id: int, build: string, path: string, name: string)

  /** A lookup on the raw table, by any condition on the key columns and the build. */
  ghost function RawHits(raw: Raw, matches: (SignatureKey, string) -> bool): set<Hit> {
    set o | o in raw.observations && matches(o.key, o.build) :: Hit(o.id, o.build, o.path, o.name)
  }

  /** The same lookup on the signature table joined to its occurrences. */
  ghost function CompactHits(tables: Compact, matches: (SignatureKey, string) -> bool): set<Hit> {
    set s, c | s in tables.signatures && c in tables.occurrences && c.signatureId == s.id && matches(s.key, c.build)
      :: Hit(c.id, c.build, c.path, c.name)
  }

  /** Every lookup finds the same occurrences in the compact tables as in the raw table. */
  lemma LookupsAgree(raw: Raw, matches: (SignatureKey, string) -> bool)
    ensures CompactHits(Compaction(raw), matches) == RawHits(raw, matches)
  {
    hide Compaction;
    var tables := Compaction(raw);
    NumberedFromOne(raw);
    forall hit | hit in RawHits(raw, matches)
      ensures hit in CompactHits(tables, matches)
    {
      var o :| o in raw.observations && matches(o.key, o.build) && hit == Hit(o.id, o.build, o.path, o.name);
      var i := ObservationOccurs(raw, o);
      assert tables.signatures[i] in tables.signatures;
    }
    forall hit | hit in CompactHits(tables, matches)
      ensures hit in RawHits(raw, matches)
    {
      var s, c :| s in tables.signatures && c in tables.occurrences && c.signatureId == s.id && matches(s.key, c.build)
        && hit == Hit(c.id, c.build, c.path, c.name);
      var o, i := OccurrenceOrigin(raw, c);
      var j :| 0 <= j < |tables.signatures| && tables.signatures[j] == s;
    }
  }

  // ---------- Determinism ----------

  lemma PositionIn<T>(a: seq<T>, b: seq<T>, k: nat) returns (m: nat)
    requires multiset(a) == multiset(b) && k < |a|
    ensures m < |b| && b[m] == a[k]
  {
    assert a[k] in multiset(a);
    assert a[k] in multiset(b);
    m :| m < |b| && b[m] == a[k];
  }

  lemma KeysFollow(a: seq<Observation>, b: seq<Observation>)
    requires multiset(a) == multiset(b)
    ensures forall i :: 0 <= i < |FirstAppearances(KeysIn(a))| ==>
      FirstAppearances(KeysIn(a))[i] in FirstAppearances(KeysIn(b))
  {
    hide FirstAppearances;
    FirstAppearancesDistinct(KeysIn(b));
    forall i | 0 <= i < |FirstAppearances(KeysIn(a))|
      ensures FirstAppearances(KeysIn(a))[i] in FirstAppearances(KeysIn(b))
    {
      var k := AppearsBefore(KeysIn(a), i);
      var m := PositionIn(a, b, k);
      assert KeysIn(b)[m] == KeysIn(a)[k];
    }
  }

  /** The compact tables, ids included, do not depend on the order of the raw rows. */
  lemma RowOrderDoesNotMatter(raw: Raw, other: Raw)
    requires WellFormed(raw)
    requires multiset(raw.observations) == multiset(other.observations)
    requires multiset(raw.relationships) == multiset(other.relationships)
    ensures Compaction(raw) == Compaction(other)
  {
    hide Sort, FlatMap, KeyLeq, KeysIn, FirstAppearances;
    KeysFollow(raw.observations, other.observations);
    KeysFollow(other.observations, raw.observations);
    var a, b := FirstAppearances(KeysIn(raw.observations)), FirstAppearances(KeysIn(other.observations));
    FirstAppearancesDistinct(KeysIn(raw.observations));
    FirstAppearancesDistinct(KeysIn(other.observations));
    SameMembers(a, b);
    KeyIsAnOrder();
    SortForgetsOrder(a, b, KeyLeq);
    SortForgetsOrder(raw.observations, other.observations, ById);
    SortForgetsOrder(raw.relationships, other.relationships, RelationshipById);
  }

  /** The same rows, in whatever order. */
  ghost predicate SameRows(raw: Raw, other: Raw) {
    multiset(raw.observations) == multiset(other.observations) && multiset(raw.relationships) == multiset(other.relationships)
  }

  /** The compact tables determine the raw rows, and the raw rows the compact tables. */
  lemma SameTablesIffSameRows(raw: Raw, other: Raw)
    requires WellFormed(raw)
    ensures Compaction(raw) == Compaction(other) <==> SameRows(raw, other)
  {
    hide Compaction, Rebuild, WellFormed;
    CompactionIsLossless(raw);
    CompactionIsLossless(other);
    if SameRows(raw, other) {
      RowOrderDoesNotMatter(raw, other);
    }
  }
}
