/** Grouping rows under their keys in an insertion-ordered dictionary. */
module Grouping {
  import opened Aggregates

  datatype Group<K, V> = Group(key: K, values: seq<V>)

  /** The distinct keys in the order in which they first appear. */
  function FirstAppearances<K(==)>(keys: seq<K>): seq<K> {
    if keys == [] then []
    else
      var earlier := FirstAppearances(keys[..|keys| - 1]);
      if keys[|keys| - 1] in earlier then earlier else earlier + [keys[|keys| - 1]]
  }

  function KeysOf<K, V>(rows: seq<(K, V)>): (r: seq<K>)
    ensures |r| == |rows|
  {
    seq(|rows|, i requires 0 <= i < |rows| => rows[i].0)
  }

  /** The values filed under `key`, in row order. */
  function ValuesOf<K(==), V>(rows: seq<(K, V)>, key: K): seq<V> {
    if rows == [] then []
    else
      var last := rows[|rows| - 1];
      ValuesOf(rows[..|rows| - 1], key) + if last.0 == key then [last.1] else []
  }

  /** One group per distinct key, in order of first appearance. */
  function GroupsOf<K(==), V>(rows: seq<(K, V)>): (r: seq<Group<K, V>>)
    ensures |r| == |FirstAppearances(KeysOf(rows))|
  {
    var keys := FirstAppearances(KeysOf(rows));
    seq(|keys|, i requires 0 <= i < |keys| => Group(keys[i], ValuesOf(rows, keys[i])))
  }

  ghost predicate Distinct<K>(keys: seq<K>) {
    forall i, j :: 0 <= i < j < |keys| ==> keys[i] != keys[j]
  }

  lemma DistinctParts<K>(a: seq<K>, b: seq<K>)
    requires Distinct(a + b)
    ensures Distinct(a) && Distinct(b)
  {
    assert forall i :: 0 <= i < |a| ==> (a + b)[i] == a[i];
    assert forall i :: 0 <= i < |b| ==> (a + b)[|a| + i] == b[i];
  }

  lemma DistinctTogether<K>(a: seq<K>, b: seq<K>)
    requires Distinct(a) && Distinct(b) && forall x :: x in a ==> x !in b
    ensures Distinct(a + b)
  {
    forall i, j | 0 <= i < j < |a + b|
      ensures (a + b)[i] != (a + b)[j]
    {
      assert i < |a| ==> (a + b)[i] in a;
      assert j >= |a| ==> (a + b)[j] in b;
    }
  }

  lemma {:induction false} DistinctCounts<K>(keys: seq<K>)
    requires Distinct(keys)
    ensures forall i :: 0 <= i < |keys| ==> multiset(keys)[keys[i]] == 1
  {
    if keys != [] {
      var n := |keys| - 1;
      assert keys == keys[..n] + [keys[n]];
      DistinctCounts(keys[..n]);
      assert keys[n] !in keys[..n];
    }
  }

  lemma CountsOf<K>(a: seq<K>, b: seq<K>)
    requires Distinct(b) && forall i :: 0 <= i < |a| ==> a[i] in b
    ensures forall i :: 0 <= i < |a| ==> multiset(b)[a[i]] == 1
  {
    DistinctCounts(b);
    forall i | 0 <= i < |a|
      ensures multiset(b)[a[i]] == 1
    {
      assert a[i] in b;
      var j :| 0 <= j < |b| && b[j] == a[i];
    }
  }

  /** Without repetitions, the members fix the multiset. */
  lemma SameMembers<K>(a: seq<K>, b: seq<K>)
    requires Distinct(a) && Distinct(b)
    requires (forall i :: 0 <= i < |a| ==> a[i] in b) && (forall i :: 0 <= i < |b| ==> b[i] in a)
    ensures multiset(a) == multiset(b)
  {
    DistinctCounts(a);
    DistinctCounts(b);
    CountsOf(a, b);
    CountsOf(b, a);
    assert multiset(a) <= multiset(b) && multiset(b) <= multiset(a);
  }

  /** No two elements have the same key. */
  predicate DistinctBy<T, K(==)>(s: seq<T>, key: T -> K) {
    forall i, j :: 0 <= i < j < |s| ==> key(s[i]) != key(s[j])
  }

  /** Reordering keeps the keys of the elements apart. */
  lemma DistinctByPermute<T, K>(a: seq<T>, b: seq<T>, key: T -> K)
    requires multiset(a) == multiset(b) && DistinctBy(a, key)
    ensures DistinctBy(b, key)
  {
    assert Distinct(a);
    DistinctPermute(a, b);
    forall i, j | 0 <= i < j < |b|
      ensures key(b[i]) != key(b[j])
    {
      assert b[i] in multiset(a) && b[j] in multiset(a);
      var p :| 0 <= p < |a| && a[p] == b[i];
      var q :| 0 <= q < |a| && a[q] == b[j];
      assert p != q;
    }
  }

  /** A sequence without repetitions is as long as its set of members is large. */
  lemma {:induction false} DistinctSize<K>(keys: seq<K>, members: set<K>)
    requires Distinct(keys) && forall k :: k in members <==> k in keys
    ensures |members| == |keys|
  {
    if keys == [] {
      assert members == {};
    } else {
      var n := |keys| - 1;
      assert keys == keys[..n] + [keys[n]];
      DistinctSize(keys[..n], members - {keys[n]});
    }
  }

  /** Reordering keeps keys distinct. */
  lemma DistinctPermute<K>(keys: seq<K>, other: seq<K>)
    requires Distinct(keys) && multiset(keys) == multiset(other)
    ensures Distinct(other)
  {
    DistinctCounts(keys);
    forall i, j | 0 <= i < j < |other|
      ensures other[i] != other[j]
    {
      assert other == other[..i] + [other[i]] + other[i + 1..j] + [other[j]] + other[j + 1..];
      assert other[i] in multiset(keys);
      var k :| 0 <= k < |keys| && keys[k] == other[i];
    }
  }

  /** Appearance order keeps each key once, and every key. */
  lemma {:induction false} FirstAppearancesDistinct<K>(keys: seq<K>)
    ensures Distinct(FirstAppearances(keys))
    ensures forall i :: 0 <= i < |FirstAppearances(keys)| ==> FirstAppearances(keys)[i] in keys
    ensures forall i :: 0 <= i < |keys| ==> keys[i] in FirstAppearances(keys)
  {
    if keys != [] {
      var n := |keys| - 1;
      FirstAppearancesDistinct(keys[..n]);
      assert keys == keys[..n] + [keys[n]];
    }
  }

  lemma AppearsBefore<K>(keys: seq<K>, i: nat) returns (before: nat)
    requires i < |FirstAppearances(keys)|
    ensures before < |keys| && keys[before] == FirstAppearances(keys)[i]
  {
    FirstAppearancesDistinct(keys);
    before :| before < |keys| && keys[before] == FirstAppearances(keys)[i];
  }

  /** A key listed earlier has appeared before every appearance of a key listed later. */
  lemma {:induction false} FirstAppearancesInOrder<K>(keys: seq<K>, i: nat, j: nat, at: nat)
    requires i < j < |FirstAppearances(keys)|
    requires at < |keys| && keys[at] == FirstAppearances(keys)[j]
    ensures exists before :: 0 <= before < at && keys[before] == FirstAppearances(keys)[i]
  {
    var n := |keys| - 1;
    FirstAppearancesDistinct(keys[..n]);
    var earlier := FirstAppearances(keys[..n]);
    if at < n {
      assert keys[..n][at] == keys[at] && keys[at] in earlier;
      assert j < |earlier|;
      FirstAppearancesInOrder(keys[..n], i, j, at);
      var before :| 0 <= before < at && keys[..n][before] == earlier[i];
      assert keys[before] == earlier[i];
    } else {
      var before := AppearsBefore(keys[..n], i);
      assert keys[before] == earlier[i];
    }
  }

  lemma {:induction false} NoRowsNoValues<K, V>(rows: seq<(K, V)>, key: K)
    requires key !in KeysOf(rows)
    ensures ValuesOf(rows, key) == []
  {
    if rows != [] {
      var n := |rows| - 1;
      assert KeysOf(rows)[n] == rows[n].0;
      assert KeysOf(rows) == KeysOf(rows[..n]) + [rows[n].0];
      NoRowsNoValues(rows[..n], key);
    }
  }

  /** What one more row does to the groups. */
  lemma GroupsAfter<K, V>(rows: seq<(K, V)>, key: K, value: V, at: nat)
    requires key in KeysOf(rows) ==> at < |GroupsOf(rows)| && GroupsOf(rows)[at].key == key
    ensures key in KeysOf(rows) ==>
      GroupsOf(rows + [(key, value)]) == GroupsOf(rows)[at := Group(key, GroupsOf(rows)[at].values + [value])]
    ensures key !in KeysOf(rows) ==>
      GroupsOf(rows + [(key, value)]) == GroupsOf(rows) + [Group(key, [value])]
  {
    if key in KeysOf(rows) {
      KnownKey(rows, key, value, at);
    } else {
      NewKey(rows, key, value);
    }
  }

  lemma KnownKey<K, V>(rows: seq<(K, V)>, key: K, value: V, at: nat)
    requires key in KeysOf(rows) && at < |GroupsOf(rows)| && GroupsOf(rows)[at].key == key
    ensures GroupsOf(rows + [(key, value)]) == GroupsOf(rows)[at := Group(key, GroupsOf(rows)[at].values + [value])]
  {
    hide ValuesOf, FirstAppearances, KeysOf;
    var more := rows + [(key, value)];
    var keys := FirstAppearances(KeysOf(rows));
    FirstAppearancesDistinct(KeysOf(rows));
    KeysAfter(rows, key, value);
    assert keys[at] in keys;
    forall i | 0 <= i < |keys|
      ensures GroupsOf(more)[i] == GroupsOf(rows)[at := Group(key, GroupsOf(rows)[at].values + [value])][i]
    {
      ValuesAfter(rows, key, value, keys[i]);
    }
  }

  lemma NewKey<K, V>(rows: seq<(K, V)>, key: K, value: V)
    requires key !in KeysOf(rows)
    ensures GroupsOf(rows + [(key, value)]) == GroupsOf(rows) + [Group(key, [value])]
  {
    hide ValuesOf, FirstAppearances, KeysOf;
    var more := rows + [(key, value)];
    var keys := FirstAppearances(KeysOf(rows));
    FirstAppearancesDistinct(KeysOf(rows));
    KeysAfter(rows, key, value);
    NoRowsNoValues(rows, key);
    assert forall i :: 0 <= i < |keys| ==> keys[i] != key;
    forall i | 0 <= i <= |keys|
      ensures GroupsOf(more)[i] == (GroupsOf(rows) + [Group(key, [value])])[i]
    {
      ValuesAfter(rows, key, value, if i < |keys| then keys[i] else key);
    }
  }

  lemma KeysAfter<K, V>(rows: seq<(K, V)>, key: K, value: V)
    ensures FirstAppearances(KeysOf(rows + [(key, value)])) ==
      FirstAppearances(KeysOf(rows)) + if key in FirstAppearances(KeysOf(rows)) then [] else [key]
  {
    assert KeysOf(rows + [(key, value)]) == KeysOf(rows) + [key];
    assert (KeysOf(rows) + [key])[..|rows|] == KeysOf(rows);
  }

  lemma ValuesAfter<K, V>(rows: seq<(K, V)>, key: K, value: V, asked: K)
    ensures ValuesOf(rows + [(key, value)], asked) ==
      if asked == key then ValuesOf(rows, asked) + [value] else ValuesOf(rows, asked)
  {
    assert (rows + [(key, value)])[..|rows|] == rows;
  }

  /** The dictionary loop. */
  method GroupRows<K(==), V>(rows: seq<(K, V)>) returns (groups: seq<Group<K, V>>)
    ensures groups == GroupsOf(rows)
  {
    groups := [];
    var positions: map<K, nat> := map[];
    for n := 0 to |rows|
      invariant groups == GroupsOf(rows[..n])
      invariant forall k :: k in positions <==> k in KeysOf(rows[..n])
      invariant forall k :: k in positions ==> positions[k] < |groups| && groups[positions[k]].key == k
    {
      var (key, value) := rows[n];
      assert rows[..n + 1] == rows[..n] + [(key, value)];
      assert KeysOf(rows[..n + 1]) == KeysOf(rows[..n]) + [key];
      if key in positions {
        GroupsAfter(rows[..n], key, value, positions[key]);
        groups := groups[positions[key] := Group(key, groups[positions[key]].values + [value])];
      } else {
        GroupsAfter(rows[..n], key, value, 0);
        positions := positions[key := |groups|];
        groups := groups + [Group(key, [value])];
      }
    }
    assert rows[..|rows|] == rows;
  }

  // ---------- Nothing is lost ----------

  function Ungroup<K, V>(group: Group<K, V>): (r: seq<(K, V)>)
    ensures |r| == |group.values|
  {
    seq(|group.values|, i requires 0 <= i < |group.values| => (group.key, group.values[i]))
  }

  function UngroupAll<K, V>(groups: seq<Group<K, V>>): (r: seq<seq<(K, V)>>)
    ensures |r| == |groups|
  {
    seq(|groups|, g requires 0 <= g < |groups| => Ungroup(groups[g]))
  }

  /** The groups hold every row, as often as it was given. */
  lemma {:induction false} GroupsConserveRows<K, V>(rows: seq<(K, V)>)
    ensures multiset(Flatten(UngroupAll(GroupsOf(rows)))) == multiset(rows)
  {
    if rows != [] {
      var n := |rows| - 1;
      var key, value := rows[n].0, rows[n].1;
      var before := GroupsOf(rows[..n]);
      GroupsConserveRows(rows[..n]);
      assert rows == rows[..n] + [(key, value)];
      if key in KeysOf(rows[..n]) {
        var at := PositionOf(rows[..n], key);
        GroupsAfter(rows[..n], key, value, at);
        UngroupGrown(before, at, value);
        FlattenGrow(UngroupAll(before), at, [(key, value)]);
      } else {
        GroupsAfter(rows[..n], key, value, 0);
        assert Ungroup(Group(key, [value])) == [(key, value)];
        assert UngroupAll(GroupsOf(rows)) == UngroupAll(before) + [[(key, value)]];
        FlattenConcat(UngroupAll(before), [[(key, value)]]);
        FlattenOne([(key, value)]);
      }
    }
  }

  lemma PositionOf<K, V>(rows: seq<(K, V)>, key: K) returns (at: nat)
    requires key in KeysOf(rows)
    ensures at < |GroupsOf(rows)| && GroupsOf(rows)[at].key == key
  {
    FirstAppearancesDistinct(KeysOf(rows));
    at :| at < |FirstAppearances(KeysOf(rows))| && FirstAppearances(KeysOf(rows))[at] == key;
  }

  lemma UngroupGrown<K, V>(groups: seq<Group<K, V>>, at: nat, value: V)
    requires at < |groups|
    ensures var g := groups[at];
      UngroupAll(groups[at := Group(g.key, g.values + [value])])
        == UngroupAll(groups)[at := UngroupAll(groups)[at] + [(g.key, value)]]
  {
    var g := groups[at];
    assert Ungroup(Group(g.key, g.values + [value])) == Ungroup(g) + [(g.key, value)];
  }
}
