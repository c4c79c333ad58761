/** The compaction of a raw lane database: one row per distinct signature, one occurrence
    per raw observation, the relationships copied. */
module LaneCompaction {
  import opened Sorting
  import opened Lexicographic
  import opened Aggregates
  import opened Grouping
  import opened Sequences

  /** The deduplication key: the eight signature columns. */
  datatype SignatureKey = SignatureKey(
    sublane: string,
    policy: string,
    language: string,
    compilerSpec: string,
    fullHash: string,
    specificHash: string,
    additionalSize: int,
    codeUnitSize: int)

  datatype Observation = Observation(id: int, key: SignatureKey, build: string, path: string, name: string)

  datatype Relationship = Relationship(id: int, source: int, target: int, kind: string)

  datatype Raw = Raw(generations: seq<string>, observations: seq<Observation>, relationships: seq<Relationship>)

  datatype Signature = Signature(id: int, key: SignatureKey)

  datatype Occurrence = Occurrence(id: int, signatureId: int, build: string, path: string, name: string)

  datatype Admission = Admission(signatureId: int, state: string)

  datatype Compact = Compact(
    signatures: seq<Signature>,
    occurrences: seq<Occurrence>,
    relationships: seq<Relationship>,
    admissions: seq<Admission>)

  // ---------- The order of the signature columns ----------

  datatype Column = Text(text: string) | Number(number: int)

  predicate ColumnLeq(a: Column, b: Column) {
    match (a, b)
    case (Number(x), Number(y)) => x <= y
    case (Number(_), Text(_)) => true
    case (Text(_), Number(_)) => false
    case (Text(x), Text(y)) => LexLeq(x, y)
  }

  function Columns(key: SignatureKey): seq<Column> {
    [Text(key.sublane), Text(key.policy), Text(key.language), Text(key.compilerSpec),
     Text(key.fullHash), Text(key.specificHash), Number(key.additionalSize), Number(key.codeUnitSize)]
  }

  /** ORDER BY: the first column that differs decides. */
  predicate RowLeq(a: seq<Column>, b: seq<Column>) {
    a == [] || (b != [] && if a[0] == b[0] then RowLeq(a[1..], b[1..]) else ColumnLeq(a[0], b[0]))
  }

  predicate KeyLeq(a: SignatureKey, b: SignatureKey) {
    RowLeq(Columns(a), Columns(b))
  }

  lemma ColumnIsAnOrder()
    ensures Total(ColumnLeq) && Transitive(ColumnLeq) && Antisymmetric(ColumnLeq)
  {
    hide LexLeq;
    LexIsAnOrder();
  }

  lemma {:induction false} RowTotal(a: seq<Column>, b: seq<Column>)
    ensures RowLeq(a, b) || RowLeq(b, a)
  {
    hide ColumnLeq;
    ColumnIsAnOrder();
    if a != [] && b != [] {
      RowTotal(a[1..], b[1..]);
    }
  }

  lemma {:induction false} RowTransitive(a: seq<Column>, b: seq<Column>, c: seq<Column>)
    requires RowLeq(a, b) && RowLeq(b, c)
    ensures RowLeq(a, c)
  {
    hide ColumnLeq;
    ColumnIsAnOrder();
    if a != [] && a[0] == b[0] == c[0] {
      RowTransitive(a[1..], b[1..], c[1..]);
    }
  }

  lemma {:induction false} RowAntisymmetric(a: seq<Column>, b: seq<Column>)
    requires RowLeq(a, b) && RowLeq(b, a)
    ensures a == b
  {
    hide ColumnLeq;
    ColumnIsAnOrder();
    if a != [] {
      assert a[0] == b[0];
      RowAntisymmetric(a[1..], b[1..]);
      assert a == [a[0]] + a[1..] && b == [b[0]] + b[1..];
    }
  }

  lemma SameColumnsSameKey(a: SignatureKey, b: SignatureKey)
    requires Columns(a) == Columns(b)
    ensures a == b
  {
    assert forall i :: 0 <= i < 8 ==> Columns(a)[i] == Columns(b)[i];
    assert Columns(a)[0] == Columns(b)[0] && Columns(a)[1] == Columns(b)[1] && Columns(a)[2] == Columns(b)[2];
    assert Columns(a)[3] == Columns(b)[3] && Columns(a)[4] == Columns(b)[4] && Columns(a)[5] == Columns(b)[5];
    assert Columns(a)[6] == Columns(b)[6] && Columns(a)[7] == Columns(b)[7];
  }

  lemma KeyIsAnOrder()
    ensures Total(KeyLeq) && Transitive(KeyLeq) && Antisymmetric(KeyLeq)
  {
    hide RowLeq, Columns;
    forall a, b ensures KeyLeq(a, b) || KeyLeq(b, a) {
      RowTotal(Columns(a), Columns(b));
    }
    forall a, b, c | KeyLeq(a, b) && KeyLeq(b, c) ensures KeyLeq(a, c) {
      RowTransitive(Columns(a), Columns(b), Columns(c));
    }
    forall a, b | KeyLeq(a, b) && KeyLeq(b, a) ensures a == b {
      RowAntisymmetric(Columns(a), Columns(b));
      SameColumnsSameKey(a, b);
    }
  }

  // ---------- The compaction ----------

  function KeysIn(observations: seq<Observation>): (r: seq<SignatureKey>)
    ensures |r| == |observations|
  {
    seq(|observations|, i requires 0 <= i < |observations| => observations[i].key)
  }

  /** SELECT DISTINCT of the key columns, in their order. */
  function DistinctKeys(observations: seq<Observation>): seq<SignatureKey> {
    Sort(FirstAppearances(KeysIn(observations)), KeyLeq)
  }

  /** Rows inserted into an empty table are numbered from 1. */
  function Number1(keys: seq<SignatureKey>): (r: seq<Signature>)
    ensures |r| == |keys|
  {
    seq(|keys|, i requires 0 <= i < |keys| => Signature(i + 1, keys[i]))
  }

  predicate ById(a: Observation, b: Observation) { a.id <= b.id }

  predicate RelationshipById(a: Relationship, b: Relationship) { a.id <= b.id }

  /** The signatures that agree with the key in every column. */
  function WithKey(signatures: seq<Signature>, key: SignatureKey): seq<Signature> {
    Select(signatures, (signature: Signature) => signature.key == key)
  }

  function Occur(observation: Observation, signatures: seq<Signature>): (r: seq<Occurrence>)
    ensures |r| == |signatures|
  {
    seq(|signatures|, i requires 0 <= i < |signatures| =>
      Occurrence(observation.id, signatures[i].id, observation.build, observation.path, observation.name))
  }

  /** The join of one observation with the signature table. */
  function Join(signatures: seq<Signature>): Observation -> seq<Occurrence> {
    (observation: Observation) => Occur(observation, WithKey(signatures, observation.key))
  }

  function Admissions(signatures: seq<Signature>): (r: seq<Admission>)
    ensures |r| == |signatures|
  {
    seq(|signatures|, i requires 0 <= i < |signatures| => Admission(signatures[i].id, "unreviewed"))
  }

  function Compaction(raw: Raw): Compact {
    var signatures := Number1(DistinctKeys(raw.observations));
    Compact(
      signatures,
      FlatMap(Sort(raw.observations, ById), Join(signatures)),
      Sort(raw.relationships, RelationshipById),
      Admissions(signatures))
  }

  // ---------- Reading the compact tables ----------

  function WithId(signatures: seq<Signature>, id: int): seq<Signature> {
    Select(signatures, (signature: Signature) => signature.id == id)
  }

  function Restore(occurrence: Occurrence, signatures: seq<Signature>): (r: seq<Observation>)
    ensures |r| == |signatures|
  {
    seq(|signatures|, i requires 0 <= i < |signatures| =>
      Observation(occurrence.id, signatures[i].key, occurrence.build, occurrence.path, occurrence.name))
  }

  function RestoreFrom(signatures: seq<Signature>): Occurrence -> seq<Observation> {
    (occurrence: Occurrence) => Restore(occurrence, WithId(signatures, occurrence.signatureId))
  }

  /** Occurrences joined to signatures on the signature id. */
  function Rebuild(tables: Compact): seq<Observation> {
    FlatMap(tables.occurrences, RestoreFrom(tables.signatures))
  }

  // ---------- The signature table ----------

  /** The key columns are unique in the signature table. */
  lemma KeysAreDistinct(observations: seq<Observation>)
    ensures Distinct(DistinctKeys(observations))
    ensures forall i :: 0 <= i < |DistinctKeys(observations)| ==> DistinctKeys(observations)[i] in KeysIn(observations)
  {
    hide Sort, KeyLeq;
    var keys := KeysIn(observations);
    FirstAppearancesDistinct(keys);
    SortPermutes(FirstAppearances(keys), KeyLeq);
    DistinctPermute(FirstAppearances(keys), DistinctKeys(observations));
    forall i | 0 <= i < |DistinctKeys(observations)|
      ensures DistinctKeys(observations)[i] in keys
    {
      assert DistinctKeys(observations)[i] in multiset(FirstAppearances(keys));
    }
  }

  lemma KeyIsListed(observations: seq<Observation>, o: nat) returns (i: nat)
    requires o < |observations|
    ensures i < |DistinctKeys(observations)| && DistinctKeys(observations)[i] == observations[o].key
  {
    hide Sort, KeyLeq;
    var keys := KeysIn(observations);
    FirstAppearancesDistinct(keys);
    assert keys[o] in FirstAppearances(keys);
    SortPermutes(FirstAppearances(keys), KeyLeq);
    assert keys[o] in multiset(FirstAppearances(keys));
    assert keys[o] in multiset(DistinctKeys(observations));
    i :| i < |DistinctKeys(observations)| && DistinctKeys(observations)[i] == keys[o];
  }

  lemma {:induction false} OneWithKey(keys: seq<SignatureKey>, n: nat, i: nat)
    requires Distinct(keys) && n <= |keys|
    ensures i < n ==> WithKey(Number1(keys)[..n], keys[i]) == [Signature(i + 1, keys[i])]
    ensures n <= i < |keys| ==> WithKey(Number1(keys)[..n], keys[i]) == []
  {
    if n > 0 {
      OneWithKey(keys, n - 1, i);
      assert Number1(keys)[..n][..n - 1] == Number1(keys)[..n - 1];
      assert i < |keys| && i != n - 1 ==> keys[n - 1] != keys[i];
    }
  }

  lemma {:induction false} OneWithId(keys: seq<SignatureKey>, n: nat, i: nat)
    requires n <= |keys|
    ensures i < n ==> WithId(Number1(keys)[..n], i + 1) == [Signature(i + 1, keys[i])]
    ensures n <= i ==> WithId(Number1(keys)[..n], i + 1) == []
  {
    if n > 0 {
      OneWithId(keys, n - 1, i);
      assert Number1(keys)[..n][..n - 1] == Number1(keys)[..n - 1];
    }
  }

  /** The join finds exactly one signature for every observation. */
  lemma JoinsOnce(observations: seq<Observation>, o: nat) returns (i: nat)
    requires o < |observations|
    ensures var keys := DistinctKeys(observations);
      && i < |keys| && keys[i] == observations[o].key
      && Join(Number1(keys))(observations[o]) == [Occurrence(observations[o].id, i + 1, observations[o].build, observations[o].path, observations[o].name)]
  {
    hide DistinctKeys, WithKey;
    var keys := DistinctKeys(observations);
    i := KeyIsListed(observations, o);
    KeysAreDistinct(observations);
    OneWithKey(keys, |keys|, i);
    assert Number1(keys)[..|keys|] == Number1(keys);
  }

  /** Joining an observation and joining back yields the observation. */
  lemma RestoresOne(observations: seq<Observation>, o: nat)
    requires o < |observations|
    ensures var signatures := Number1(DistinctKeys(observations));
      FlatMap(Join(signatures)(observations[o]), RestoreFrom(signatures)) == [observations[o]]
  {
    hide DistinctKeys, WithKey, WithId, FlatMap;
    var keys := DistinctKeys(observations);
    var signatures := Number1(keys);
    var i := JoinsOnce(observations, o);
    OneWithId(keys, |keys|, i);
    assert signatures[..|keys|] == signatures;
    FlatMapOne(Join(signatures)(observations[o])[0], RestoreFrom(signatures));
  }

  lemma {:induction false} RestoresAll(observations: seq<Observation>, some: seq<Observation>)
    requires forall o :: 0 <= o < |some| ==> some[o] in observations
    ensures var signatures := Number1(DistinctKeys(observations));
      FlatMap(FlatMap(some, Join(signatures)), RestoreFrom(signatures)) == some
    ensures |FlatMap(some, Join(Number1(DistinctKeys(observations))))| == |some|
  {
    hide DistinctKeys, Join, RestoreFrom;
    if some != [] {
      var n := |some| - 1;
      var signatures := Number1(DistinctKeys(observations));
      RestoresAll(observations, some[..n]);
      var o :| 0 <= o < |observations| && observations[o] == some[n];
      RestoresOne(observations, o);
      var i := JoinsOnce(observations, o);
      FlatMapConcat(FlatMap(some[..n], Join(signatures)), Join(signatures)(some[n]), RestoreFrom(signatures));
      assert some == some[..n] + [some[n]];
    }
  }

  /** Compaction is lossless: the join of its tables is the raw table, id by id. */
  lemma CompactionIsLossless(raw: Raw)
    ensures Rebuild(Compaction(raw)) == Sort(raw.observations, ById)
    ensures multiset(Rebuild(Compaction(raw))) == multiset(raw.observations)
    ensures multiset(Compaction(raw).relationships) == multiset(raw.relationships)
    ensures |Compaction(raw).occurrences| == |raw.observations|
  {
    hide Sort, DistinctKeys, Join, RestoreFrom, FlatMap;
    var sorted := Sort(raw.observations, ById);
    SortPermutes(raw.observations, ById);
    SortPermutes(raw.relationships, RelationshipById);
    forall o | 0 <= o < |sorted| ensures sorted[o] in raw.observations {
      assert sorted[o] in multiset(raw.observations);
    }
    RestoresAll(raw.observations, sorted);
  }

  // ---------- The tables in terms of the rows alone ----------

  /** The eight columns in their order: the first one that differs decides. */
  ghost predicate KeyBefore(a: SignatureKey, b: SignatureKey) {
    if a.sublane != b.sublane then TextLeq(a.sublane, b.sublane)
    else if a.policy != b.policy then TextLeq(a.policy, b.policy)
    else if a.language != b.language then TextLeq(a.language, b.language)
    else if a.compilerSpec != b.compilerSpec then TextLeq(a.compilerSpec, b.compilerSpec)
    else if a.fullHash != b.fullHash then TextLeq(a.fullHash, b.fullHash)
    else if a.specificHash != b.specificHash then TextLeq(a.specificHash, b.specificHash)
    else if a.additionalSize != b.additionalSize then a.additionalSize < b.additionalSize
    else a.codeUnitSize <= b.codeUnitSize
  }

  lemma RowStep(x: Column, s: seq<Column>, y: Column, t: seq<Column>)
    ensures RowLeq([x] + s, [y] + t) <==> if x == y then RowLeq(s, t) else ColumnLeq(x, y)
  {
    hide ColumnLeq;
    assert ([x] + s)[1..] == s && ([y] + t)[1..] == t;
  }

  lemma ColumnAt(a: seq<Column>, b: seq<Column>, k: nat)
    requires k < |a| == |b|
    ensures RowLeq(a[k..], b[k..]) <==> if a[k] == b[k] then RowLeq(a[k + 1..], b[k + 1..]) else ColumnLeq(a[k], b[k])
  {
    hide RowLeq, ColumnLeq;
    assert a[k..] == [a[k]] + a[k + 1..] && b[k..] == [b[k]] + b[k + 1..];
    RowStep(a[k], a[k + 1..], b[k], b[k + 1..]);
  }

  lemma TextColumn(a: string, b: string)
    ensures ColumnLeq(Text(a), Text(b)) <==> TextLeq(a, b)
  {
    LexLeqIff(a, b);
  }

  /** The last four columns. */
  ghost predicate TailBefore(a: SignatureKey, b: SignatureKey) {
    if a.fullHash != b.fullHash then TextLeq(a.fullHash, b.fullHash)
    else if a.specificHash != b.specificHash then TextLeq(a.specificHash, b.specificHash)
    else if a.additionalSize != b.additionalSize then a.additionalSize < b.additionalSize
    else a.codeUnitSize <= b.codeUnitSize
  }

  lemma TailLeqIff(a: SignatureKey, b: SignatureKey)
    ensures RowLeq(Columns(a)[4..], Columns(b)[4..]) <==> TailBefore(a, b)
  {
    hide RowLeq, TextLeq, LexLeq;
    var p, q := Columns(a), Columns(b);
    TextColumn(a.fullHash, b.fullHash);
    TextColumn(a.specificHash, b.specificHash);
    ColumnAt(p, q, 4);
    ColumnAt(p, q, 5);
    ColumnAt(p, q, 6);
    ColumnAt(p, q, 7);
    assert p[8..] == [] && q[8..] == [];
    NoColumnsLeft();
  }

  lemma KeyLeqIff(a: SignatureKey, b: SignatureKey)
    ensures KeyLeq(a, b) <==> KeyBefore(a, b)
  {
    hide RowLeq, TextLeq, ColumnLeq;
    var p, q := Columns(a), Columns(b);
    TextColumn(a.sublane, b.sublane);
    TextColumn(a.policy, b.policy);
    TextColumn(a.language, b.language);
    TextColumn(a.compilerSpec, b.compilerSpec);
    ColumnAt(p, q, 0);
    ColumnAt(p, q, 1);
    ColumnAt(p, q, 2);
    ColumnAt(p, q, 3);
    TailLeqIff(a, b);
    assert p[0..] == p && q[0..] == q;
  }

  lemma NoColumnsLeft()
    ensures RowLeq([], [])
  {
  }

  /** The signature table: numbered from 1 in the order of the eight columns, each key of an observation
      once, and no other. */
  lemma SignaturesAscend(raw: Raw)
    ensures var signatures := Compaction(raw).signatures;
      && (forall i :: 0 <= i < |signatures| ==> signatures[i].id == i + 1)
      && (forall i, j :: 0 <= i < j < |signatures| ==>
            KeyBefore(signatures[i].key, signatures[j].key) && signatures[i].key != signatures[j].key)
      && (forall s :: s in signatures ==> exists o :: o in raw.observations && o.key == s.key)
      && (forall o :: o in raw.observations ==> exists s :: s in signatures && s.key == o.key)
  {
    hide Sort, KeyLeq, KeyBefore, FirstAppearances, Join, FlatMap;
    var signatures, keys := Compaction(raw).signatures, DistinctKeys(raw.observations);
    KeysAreDistinct(raw.observations);
    KeyIsAnOrder();
    SortSorts(FirstAppearances(KeysIn(raw.observations)), KeyLeq);
    forall i, j | 0 <= i < j < |signatures|
      ensures KeyBefore(signatures[i].key, signatures[j].key) && signatures[i].key != signatures[j].key
    {
      KeyLeqIff(keys[i], keys[j]);
    }
    forall o | o in raw.observations
      ensures exists s :: s in signatures && s.key == o.key
    {
      var k :| 0 <= k < |raw.observations| && raw.observations[k] == o;
      var i := KeyIsListed(raw.observations, k);
      assert signatures[i] in signatures;
    }
    forall s | s in signatures
      ensures exists o :: o in raw.observations && o.key == s.key
    {
      var i :| 0 <= i < |signatures| && signatures[i] == s;
      var k :| 0 <= k < |raw.observations| && KeysIn(raw.observations)[k] == keys[i];
      assert raw.observations[k] in raw.observations;
    }
  }

  /** The occurrence of an observation: its id, build, path and name, and the number of its signature. */
  ghost predicate OccursAs(o: Observation, c: Occurrence, signatures: seq<Signature>) {
    && c.id == o.id && c.build == o.build && c.path == o.path && c.name == o.name
    && exists s :: s in signatures && s.id == c.signatureId && s.key == o.key
  }

  lemma {:induction false} JoinedOneByOne(observations: seq<Observation>, some: seq<Observation>)
    requires forall o :: 0 <= o < |some| ==> some[o] in observations
    ensures var signatures := Number1(DistinctKeys(observations));
      var joined := FlatMap(some, Join(signatures));
      |joined| == |some| && forall i :: 0 <= i < |some| ==> OccursAs(some[i], joined[i], signatures)
  {
    hide DistinctKeys, Join, OccursAs;
    if some != [] {
      hide FlatMap;
      var n := |some| - 1;
      var signatures := Number1(DistinctKeys(observations));
      JoinedOneByOne(observations, some[..n]);
      var o :| 0 <= o < |observations| && observations[o] == some[n];
      var i := JoinsOnce(observations, o);
      JoinedOne(some[n], signatures, i);
      FlatMapSnoc(some[..n], some[n], Join(signatures));
      assert some == some[..n] + [some[n]];
    }
  }

  lemma JoinedOne(o: Observation, signatures: seq<Signature>, i: nat)
    requires i < |signatures| && signatures[i].id == i + 1 && signatures[i].key == o.key
    ensures OccursAs(o, Occurrence(o.id, i + 1, o.build, o.path, o.name), signatures)
  {
    assert signatures[i] in signatures;
  }

  /** The other tables: the observations by id, each with its signature; the relationships by id; and one
      unreviewed admission for every signature. */
  lemma TablesAre(raw: Raw) returns (order: seq<Observation>)
    ensures multiset(order) == multiset(raw.observations)
    ensures forall i, j :: 0 <= i < j < |order| ==> order[i].id <= order[j].id
    ensures var tables := Compaction(raw);
      && |tables.occurrences| == |order|
      && (forall i :: 0 <= i < |order| ==> OccursAs(order[i], tables.occurrences[i], tables.signatures))
      && multiset(tables.relationships) == multiset(raw.relationships)
      && (forall i, j :: 0 <= i < j < |tables.relationships| ==> tables.relationships[i].id <= tables.relationships[j].id)
      && |tables.admissions| == |tables.signatures|
      && (forall i :: 0 <= i < |tables.admissions| ==> tables.admissions[i] == Admission(tables.signatures[i].id, "unreviewed"))
  {
    hide Sort, Join, FlatMap, DistinctKeys, OccursAs;
    order := Sort(raw.observations, ById);
    SortPermutes(raw.observations, ById);
    SortPermutes(raw.relationships, RelationshipById);
    SortSorts(raw.observations, ById);
    SortSorts(raw.relationships, RelationshipById);
    assert forall i, j :: 0 <= i < j < |order| ==> ById(order[i], order[j]);
    var relationships := Sort(raw.relationships, RelationshipById);
    assert forall i, j :: 0 <= i < j < |relationships| ==> RelationshipById(relationships[i], relationships[j]);
    forall o | 0 <= o < |order|
      ensures order[o] in raw.observations
    {
      assert order[o] in multiset(raw.observations);
    }
    JoinedOneByOne(raw.observations, order);
  }
}
