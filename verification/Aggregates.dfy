/** Totals and concatenations over sequences and over sequences of groups. */
module Aggregates {
  import opened Sequences
  import opened Sums

  function Weigh<T>(s: seq<T>, w: T -> real): real {
    if s == [] then 0.0 else Weigh(s[..|s| - 1], w) + w(s[|s| - 1])
  }

  /** The groups one after the other. */
  function Flatten<T>(groups: seq<seq<T>>): seq<T> {
    if groups == [] then [] else Flatten(groups[..|groups| - 1]) + groups[|groups| - 1]
  }

  lemma {:induction false} WeighConcat<T>(a: seq<T>, b: seq<T>, w: T -> real)
    ensures Weigh(a + b, w) == Weigh(a, w) + Weigh(b, w)
  {
    if b == [] {
      assert a + b == a;
    } else {
      WeighConcat(a, b[..|b| - 1], w);
      assert (a + b)[..|a + b| - 1] == a + b[..|b| - 1];
    }
  }

  lemma WeighSnoc<T>(s: seq<T>, x: T, w: T -> real)
    ensures Weigh(s + [x], w) == Weigh(s, w) + w(x)
  {
    assert (s + [x])[..|s|] == s;
  }

  lemma WeighOne<T>(x: T, w: T -> real)
    ensures Weigh([x], w) == w(x)
  {
    assert [x][..0] == [];
  }

  lemma WeighRemove<T>(s: seq<T>, i: nat, w: T -> real)
    requires i < |s|
    ensures Weigh(s, w) == Weigh(s[..i] + s[i + 1..], w) + w(s[i])
    ensures multiset(s[..i] + s[i + 1..]) == multiset(s) - multiset{s[i]}
  {
    hide Weigh;
    assert s == s[..i] + [s[i]] + s[i + 1..];
    WeighConcat(s[..i] + [s[i]], s[i + 1..], w);
    WeighConcat(s[..i], s[i + 1..], w);
    WeighConcat(s[..i], [s[i]], w);
    WeighOne(s[i], w);
  }

  /** The total does not depend on the order of the elements. */
  lemma {:induction false} WeighPermute<T>(a: seq<T>, b: seq<T>, w: T -> real)
    requires multiset(a) == multiset(b)
    ensures Weigh(a, w) == Weigh(b, w)
  {
    assert |multiset(a)| == |a| && |multiset(b)| == |b|;
    if a != [] {
      var n := |a| - 1;
      assert a == a[..n] + [a[n]];
      assert a[n] in multiset(b);
      var i :| 0 <= i < |b| && b[i] == a[n];
      WeighRemove(b, i, w);
      WeighPermute(a[..n], b[..i] + b[i + 1..], w);
    }
  }

  lemma {:induction false} WeighMonotone<T>(s: seq<T>, low: T -> real, high: T -> real)
    requires forall i :: 0 <= i < |s| ==> low(s[i]) <= high(s[i])
    ensures Weigh(s, low) <= Weigh(s, high)
  {
    if s != [] {
      WeighMonotone(s[..|s| - 1], low, high);
    }
  }

  lemma {:induction false} WeighNonNegative<T>(s: seq<T>, w: T -> real)
    requires forall i :: 0 <= i < |s| ==> w(s[i]) >= 0.0
    ensures Weigh(s, w) >= 0.0
  {
    if s != [] {
      WeighNonNegative(s[..|s| - 1], w);
    }
  }

  lemma {:induction false} WeighMember<T>(s: seq<T>, i: nat, w: T -> real)
    requires i < |s| && forall j :: 0 <= j < |s| ==> w(s[j]) >= 0.0
    ensures w(s[i]) <= Weigh(s, w)
  {
    var n := |s| - 1;
    if i < n {
      WeighMember(s[..n], i, w);
    } else {
      WeighNonNegative(s[..n], w);
    }
  }

  lemma {:induction false} WeighUniform<T>(s: seq<T>, w: T -> real, each: real)
    requires forall i :: 0 <= i < |s| ==> w(s[i]) == each
    ensures Weigh(s, w) == Sum(seq(|s|, _ => each))
  {
    if s != [] {
      WeighUniform(s[..|s| - 1], w, each);
      assert seq(|s|, _ => each)[..|s| - 1] == seq(|s| - 1, _ => each);
    }
  }

  // ---------- Groups ----------

  lemma {:induction false} FlattenMember<T>(groups: seq<seq<T>>, g: nat, i: nat)
    requires g < |groups| && i < |groups[g]|
    ensures groups[g][i] in Flatten(groups)
  {
    var n := |groups| - 1;
    if g < n {
      FlattenMember(groups[..n], g, i);
    }
  }

  lemma {:induction false} FlattenConcat<T>(a: seq<seq<T>>, b: seq<seq<T>>)
    ensures Flatten(a + b) == Flatten(a) + Flatten(b)
  {
    if b == [] {
      assert a + b == a;
    } else {
      var front, last := b[..|b| - 1], b[|b| - 1];
      FlattenConcat(a, front);
      FlattenSnoc(a + front, last);
      assert a + b == a + front + [last];
      Associative(Flatten(a), Flatten(front), last);
    }
  }

  lemma FlattenSnoc<T>(groups: seq<seq<T>>, last: seq<T>)
    ensures Flatten(groups + [last]) == Flatten(groups) + last
  {
    assert (groups + [last])[..|groups|] == groups;
  }

  lemma FlattenOne<T>(group: seq<T>)
    ensures Flatten([group]) == group
  {
    assert Flatten([group][..0]) == [];
  }

  /** Growing one group grows the whole by the same elements. */
  lemma {:induction false} FlattenGrow<T>(groups: seq<seq<T>>, g: nat, xs: seq<T>)
    requires g < |groups|
    ensures multiset(Flatten(groups[g := groups[g] + xs])) == multiset(Flatten(groups)) + multiset(xs)
  {
    hide Flatten;
    var n := |groups| - 1;
    var front, last := groups[..n], groups[n];
    assert groups == front + [last];
    FlattenSnoc(front, last);
    if g < n {
      FlattenGrow(front, g, xs);
      assert groups[g := groups[g] + xs] == front[g := front[g] + xs] + [last];
      FlattenSnoc(front[g := front[g] + xs], last);
    } else {
      assert groups[g := groups[g] + xs] == front + [last + xs];
      FlattenSnoc(front, last + xs);
    }
  }

  function GroupWeights<T>(groups: seq<seq<T>>, w: T -> real): (r: seq<real>)
    ensures |r| == |groups|
  {
    seq(|groups|, g requires 0 <= g < |groups| => Weigh(groups[g], w))
  }

  /** All elements weigh what their groups weigh together. */
  lemma {:induction false} FlattenWeighs<T>(groups: seq<seq<T>>, w: T -> real)
    ensures Weigh(Flatten(groups), w) == Sum(GroupWeights(groups, w))
  {
    if groups == [] {
      assert Flatten(groups) == [];
    } else {
      hide Weigh;
      var n := |groups| - 1;
      FlattenWeighs(groups[..n], w);
      WeighConcat(Flatten(groups[..n]), groups[n], w);
      assert GroupWeights(groups, w)[..n] == GroupWeights(groups[..n], w);
    }
  }

  // ---------- Expansion of every element ----------

  function FlatMap<A, B>(s: seq<A>, f: A -> seq<B>): seq<B> {
    if s == [] then [] else FlatMap(s[..|s| - 1], f) + f(s[|s| - 1])
  }

  /** Mapping to sequences and joining them. */
  lemma {:induction false} FlatMapFlattens<A, B>(s: seq<A>, f: A -> seq<B>, parts: seq<seq<B>>)
    requires |parts| == |s| && forall i :: 0 <= i < |s| ==> parts[i] == f(s[i])
    ensures FlatMap(s, f) == Flatten(parts)
  {
    if s != [] {
      FlatMapFlattens(s[..|s| - 1], f, parts[..|s| - 1]);
    }
  }

  lemma FlatMapSnoc<A, B>(s: seq<A>, x: A, f: A -> seq<B>)
    ensures FlatMap(s + [x], f) == FlatMap(s, f) + f(x)
  {
    assert (s + [x])[..|s|] == s;
  }

  lemma {:induction false} FlatMapConcat<A, B>(a: seq<A>, b: seq<A>, f: A -> seq<B>)
    ensures FlatMap(a + b, f) == FlatMap(a, f) + FlatMap(b, f)
  {
    if b == [] {
      assert a + b == a;
    } else {
      var front, last := b[..|b| - 1], b[|b| - 1];
      FlatMapConcat(a, front, f);
      FlatMapSnoc(a + front, last, f);
      assert a + b == a + front + [last];
      Associative(FlatMap(a, f), FlatMap(front, f), f(last));
    }
  }

  lemma FlatMapOne<A, B>(x: A, f: A -> seq<B>)
    ensures FlatMap([x], f) == f(x)
  {
    assert FlatMap([x][..0], f) == [];
  }

  lemma FlatMapRemove<A, B>(s: seq<A>, i: nat, f: A -> seq<B>)
    requires i < |s|
    ensures multiset(FlatMap(s, f)) == multiset(FlatMap(s[..i] + s[i + 1..], f)) + multiset(f(s[i]))
    ensures multiset(s[..i] + s[i + 1..]) == multiset(s) - multiset{s[i]}
  {
    hide FlatMap;
    assert s == s[..i] + [s[i]] + s[i + 1..];
    FlatMapConcat(s[..i] + [s[i]], s[i + 1..], f);
    FlatMapConcat(s[..i], s[i + 1..], f);
    FlatMapConcat(s[..i], [s[i]], f);
    FlatMapOne(s[i], f);
  }

  /** Expanding the same elements in another order yields the same results in another order. */
  lemma {:induction false} FlatMapPermute<A, B>(a: seq<A>, b: seq<A>, f: A -> seq<B>)
    requires multiset(a) == multiset(b)
    ensures multiset(FlatMap(a, f)) == multiset(FlatMap(b, f))
  {
    assert |multiset(a)| == |a| && |multiset(b)| == |b|;
    if a != [] {
      var n := |a| - 1;
      assert a == a[..n] + [a[n]];
      assert a[n] in multiset(b);
      var i :| 0 <= i < |b| && b[i] == a[n];
      FlatMapRemove(b, i, f);
      FlatMapPermute(a[..n], b[..i] + b[i + 1..], f);
    }
  }

  lemma {:induction false} FlatMapMember<A, B>(s: seq<A>, i: nat, x: B, f: A -> seq<B>)
    requires i < |s| && x in f(s[i])
    ensures x in FlatMap(s, f)
  {
    if i < |s| - 1 {
      FlatMapMember(s[..|s| - 1], i, x, f);
    }
  }

  lemma {:induction false} FlatMapOrigin<A, B>(s: seq<A>, x: B, f: A -> seq<B>) returns (i: nat)
    requires x in FlatMap(s, f)
    ensures i < |s| && x in f(s[i])
  {
    i := |s| - 1;
    if x !in f(s[i]) {
      i := FlatMapOrigin(s[..|s| - 1], x, f);
    }
  }
}
