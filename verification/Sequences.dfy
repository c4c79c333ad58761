/** Parts of sequences: the members that a condition picks, and where they stood. */
module Sequences {

  lemma Associative<T>(a: seq<T>, b: seq<T>, c: seq<T>)
    ensures a + b + c == a + (b + c)
  {
  }

  /** The wanted members, in the order given. */
  function Select<T>(s: seq<T>, wanted: T -> bool): seq<T> {
    if s == [] then []
    else
      var front, last := Select(s[..|s| - 1], wanted), s[|s| - 1];
      if wanted(last) then front + [last] else front
  }

  lemma SelectSnoc<T>(s: seq<T>, x: T, wanted: T -> bool)
    ensures Select(s + [x], wanted) == Select(s, wanted) + if wanted(x) then [x] else []
  {
    assert (s + [x])[..|s|] == s;
  }

  lemma {:induction false} SelectConcat<T>(a: seq<T>, b: seq<T>, wanted: T -> bool)
    ensures Select(a + b, wanted) == Select(a, wanted) + Select(b, wanted)
  {
    if b == [] {
      assert a + b == a;
    } else {
      var n := |b| - 1;
      SelectConcat(a, b[..n], wanted);
      assert a + b == a + b[..n] + [b[n]];
      SelectSnoc(a + b[..n], b[n], wanted);
    }
  }

  lemma SelectOne<T>(x: T, wanted: T -> bool)
    ensures Select([x], wanted) == if wanted(x) then [x] else []
  {
    assert [x][..0] == [];
  }

  lemma {:induction false} SelectMembers<T>(s: seq<T>, wanted: T -> bool)
    ensures forall x :: x in Select(s, wanted) <==> x in s && wanted(x)
  {
    if s != [] {
      SelectMembers(s[..|s| - 1], wanted);
      assert s == s[..|s| - 1] + [s[|s| - 1]];
    }
  }

  // ---------- Positions ----------

  ghost predicate Rising(at: seq<nat>) {
    forall i, j :: 0 <= i < j < |at| ==> at[i] < at[j]
  }

  lemma SamePlace(at: seq<nat>, i: nat, j: nat)
    requires Rising(at) && i < |at| && j < |at| && at[i] == at[j]
    ensures i == j
  {
  }

  lemma FrontPlaces(at: seq<nat>)
    requires at != [] && Rising(at)
    ensures Rising(at[..|at| - 1])
    ensures forall k :: k in at[..|at| - 1] <==> k in at && k != at[|at| - 1]
    ensures at[|at| - 1] in at && forall k :: k in at ==> k <= at[|at| - 1]
  {
    assert at == at[..|at| - 1] + [at[|at| - 1]];
  }

  lemma NothingOrSome<T>(s: seq<T>)
    ensures s == [] || exists x :: x in s
  {
    if s != [] {
      assert s[0] in s;
    }
  }

  /** The places in order are determined by which they are. */
  lemma {:induction false} SamePlaces(a: seq<nat>, b: seq<nat>)
    requires Rising(a) && Rising(b) && forall k :: k in a <==> k in b
    ensures a == b
  {
    hide Rising;
    if a == [] {
      NothingOrSome(b);
    } else {
      assert a[0] in a;
      var n, m := |a| - 1, |b| - 1;
      FrontPlaces(a);
      FrontPlaces(b);
      assert a[n] in b && b[m] in a && a[n] == b[m];
      var front, other := a[..n], b[..m];
      forall k
        ensures k in front <==> k in other
      {
        assert k in front <==> k in a && k != a[n];
        assert k in other <==> k in b && k != b[m];
      }
      SamePlaces(front, other);
      assert a == front + [a[n]] && b == other + [b[m]];
    }
  }

  /** `at` lists, in increasing order, positions of `s` at which the members of `part` stand. */
  ghost predicate Embeds<T>(at: seq<nat>, part: seq<T>, s: seq<T>) {
    && |at| == |part|
    && (forall i :: 0 <= i < |at| ==> at[i] < |s| && s[at[i]] == part[i])
    && Rising(at)
  }

  lemma EmbedsMore<T>(at: seq<nat>, part: seq<T>, s: seq<T>)
    requires s != [] && Embeds(at, part, s[..|s| - 1])
    ensures Embeds(at, part, s) && Embeds(at + [|s| - 1], part + [s[|s| - 1]], s)
  {
  }

  /** The selected members keep the order in which they stood, and are all that are wanted. */
  lemma {:induction false} SelectEmbeds<T>(s: seq<T>, wanted: T -> bool) returns (at: seq<nat>)
    ensures Embeds(at, Select(s, wanted), s)
    ensures forall k: nat :: k in at <==> k < |s| && wanted(s[k])
  {
    if s == [] {
      at := [];
    } else {
      hide Embeds;
      var n := |s| - 1;
      at := SelectEmbeds(s[..n], wanted);
      EmbedsMore(at, Select(s[..n], wanted), s);
      if wanted(s[n]) {
        at := at + [n];
      }
    }
  }
}
