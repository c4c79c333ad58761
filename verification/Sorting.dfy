/** Stable sorting under a comparison, as Python's `sorted` promises it, and the facts
    about sorted sequences that the planners and digests rely on. */
module Sorting {
  import opened Sequences

  ghost predicate Total<T(!new)>(leq: (T, T) -> bool) {
    forall x, y :: leq(x, y) || leq(y, x)
  }

  ghost predicate Transitive<T(!new)>(leq: (T, T) -> bool) {
    forall x, y, z :: leq(x, y) && leq(y, z) ==> leq(x, z)
  }

  ghost predicate Antisymmetric<T(!new)>(leq: (T, T) -> bool) {
    forall x, y :: leq(x, y) && leq(y, x) ==> x == y
  }

  ghost predicate SortedBy<T>(s: seq<T>, leq: (T, T) -> bool) {
    forall i, j :: 0 <= i < j < |s| ==> leq(s[i], s[j])
  }

  /** Puts `x` before the first element it is not greater than. */
  function InsertSorted<T>(x: T, s: seq<T>, leq: (T, T) -> bool): seq<T> {
    if s == [] || leq(x, s[0]) then [x] + s
    else [s[0]] + InsertSorted(x, s[1..], leq)
  }

  function Sort<T>(s: seq<T>, leq: (T, T) -> bool): seq<T> {
    if s == [] then [] else InsertSorted(s[0], Sort(s[1..], leq), leq)
  }

  lemma {:induction false} InsertSortedPermutes<T>(x: T, s: seq<T>, leq: (T, T) -> bool)
    ensures multiset(InsertSorted(x, s, leq)) == multiset(s) + multiset{x}
    ensures |InsertSorted(x, s, leq)| == |s| + 1
  {
    if s == [] || leq(x, s[0]) {
    } else {
      InsertSortedPermutes(x, s[1..], leq);
      assert s == [s[0]] + s[1..];
    }
  }

  lemma {:induction false} InsertSortedSorts<T(!new)>(x: T, s: seq<T>, leq: (T, T) -> bool)
    requires Total(leq) && Transitive(leq) && SortedBy(s, leq)
    ensures SortedBy(InsertSorted(x, s, leq), leq)
  {
    if s == [] || leq(x, s[0]) {
    } else {
      InsertSortedSorts(x, s[1..], leq);
      var r := InsertSorted(x, s[1..], leq);
      InsertSortedPermutes(x, s[1..], leq);
      forall j | 0 <= j < |r|
        ensures leq(s[0], r[j])
      {
        assert r[j] in multiset(r);
      }
    }
  }

  /** Sorting keeps every element, with its multiplicity. */
  lemma {:induction false} SortPermutes<T>(s: seq<T>, leq: (T, T) -> bool)
    ensures multiset(Sort(s, leq)) == multiset(s)
    ensures |Sort(s, leq)| == |s|
  {
    if s != [] {
      SortPermutes(s[1..], leq);
      InsertSortedPermutes(s[0], Sort(s[1..], leq), leq);
      assert s == [s[0]] + s[1..];
    }
  }

  lemma SortMembers<T>(s: seq<T>, leq: (T, T) -> bool)
    ensures forall x :: x in s <==> x in Sort(s, leq)
  {
    SortPermutes(s, leq);
    forall x
      ensures x in s <==> x in Sort(s, leq)
    {
      assert x in multiset(s) <==> x in multiset(Sort(s, leq));
    }
  }

  lemma {:induction false} SortSorts<T(!new)>(s: seq<T>, leq: (T, T) -> bool)
    requires Total(leq) && Transitive(leq)
    ensures SortedBy(Sort(s, leq), leq)
  {
    if s != [] {
      SortSorts(s[1..], leq);
      InsertSortedSorts(s[0], Sort(s[1..], leq), leq);
    }
  }

  /** Any two wanted elements tie. */
  ghost predicate Tied<T(!new)>(wanted: T -> bool, leq: (T, T) -> bool) {
    forall x, y :: wanted(x) && wanted(y) ==> leq(x, y)
  }

  lemma {:induction false} InsertSortedStable<T(!new)>(x: T, s: seq<T>, leq: (T, T) -> bool, wanted: T -> bool)
    requires Tied(wanted, leq)
    ensures Select(InsertSorted(x, s, leq), wanted) == Select([x], wanted) + Select(s, wanted)
  {
    hide Select, Tied;
    if s == [] || leq(x, s[0]) {
      SelectConcat([x], s, wanted);
    } else {
      InsertSortedStable(x, s[1..], leq, wanted);
      assert s == [s[0]] + s[1..];
      SelectConcat([s[0]], InsertSorted(x, s[1..], leq), wanted);
      SelectConcat([s[0]], s[1..], wanted);
      SelectOne(x, wanted);
      SelectOne(s[0], wanted);
      TiedPair(x, s[0], leq, wanted);
    }
  }

  lemma TiedPair<T(!new)>(x: T, y: T, leq: (T, T) -> bool, wanted: T -> bool)
    requires Tied(wanted, leq) && !leq(x, y)
    ensures !(wanted(x) && wanted(y))
  {
  }

  /** Sorting is stable: elements that tie stay in the order in which they were given. */
  lemma {:induction false} SortStable<T(!new)>(s: seq<T>, leq: (T, T) -> bool, wanted: T -> bool)
    requires Tied(wanted, leq)
    ensures Select(Sort(s, leq), wanted) == Select(s, wanted)
  {
    if s != [] {
      hide Select, Tied;
      SortStable(s[1..], leq, wanted);
      InsertSortedStable(s[0], Sort(s[1..], leq), leq, wanted);
      assert s == [s[0]] + s[1..];
      SelectConcat([s[0]], s[1..], wanted);
    }
  }

  /** Members of `s` that tie are the same. */
  ghost predicate NoTies<T>(s: seq<T>, leq: (T, T) -> bool) {
    forall i, j :: 0 <= i < |s| && 0 <= j < |s| && leq(s[i], s[j]) && leq(s[j], s[i]) ==> s[i] == s[j]
  }

  lemma SameFirst<T(!new)>(a: seq<T>, b: seq<T>, leq: (T, T) -> bool)
    requires NoTies(a, leq) && SortedBy(a, leq) && SortedBy(b, leq)
    requires multiset(a) == multiset(b) && a != [] && b != []
    ensures a[0] == b[0]
  {
    assert a[0] in multiset(b) && b[0] in multiset(a);
    var i :| 0 <= i < |b| && b[i] == a[0];
    var j :| 0 <= j < |a| && a[j] == b[0];
    assert i > 0 ==> leq(b[0], b[i]);
    assert j > 0 ==> leq(a[0], a[j]);
    assert leq(a[0], a[j]) && leq(a[j], a[0]) ==> a[0] == a[j];
  }

  lemma RestOf<T>(s: seq<T>)
    requires s != []
    ensures multiset(s[1..]) == multiset(s) - multiset{s[0]}
  {
    assert s == [s[0]] + s[1..];
  }

  /** Where only equal elements tie, the multiset fixes the sorted sequence. */
  lemma {:induction false} SortedUnique<T(!new)>(a: seq<T>, b: seq<T>, leq: (T, T) -> bool)
    requires NoTies(a, leq) && SortedBy(a, leq) && SortedBy(b, leq)
    requires multiset(a) == multiset(b)
    ensures a == b
  {
    hide SortedBy, NoTies;
    assert |multiset(a)| == |a| && |multiset(b)| == |b|;
    if a != [] {
      SameFirst(a, b, leq);
      RestOf(a);
      RestOf(b);
      SortedTail(a, leq);
      SortedTail(b, leq);
      SortedUnique(a[1..], b[1..], leq);
      assert a == [a[0]] + a[1..] && b == [b[0]] + b[1..];
    }
  }

  lemma SortedTail<T>(s: seq<T>, leq: (T, T) -> bool)
    requires s != [] && SortedBy(s, leq)
    ensures SortedBy(s[1..], leq)
    ensures NoTies(s, leq) ==> NoTies(s[1..], leq)
  {
  }

  /** Sorting forgets the order of its input. */
  lemma SortForgetsOrder<T(!new)>(a: seq<T>, b: seq<T>, leq: (T, T) -> bool)
    requires Total(leq) && Transitive(leq) && NoTies(a, leq)
    requires multiset(a) == multiset(b)
    ensures Sort(a, leq) == Sort(b, leq)
  {
    SortPermutes(a, leq);
    SortPermutes(b, leq);
    SortSorts(a, leq);
    SortSorts(b, leq);
    var sorted := Sort(a, leq);
    forall i, j | 0 <= i < |sorted| && 0 <= j < |sorted| && leq(sorted[i], sorted[j]) && leq(sorted[j], sorted[i])
      ensures sorted[i] == sorted[j]
    {
      assert sorted[i] in multiset(a) && sorted[j] in multiset(a);
    }
    SortedUnique(sorted, Sort(b, leq), leq);
  }
}
