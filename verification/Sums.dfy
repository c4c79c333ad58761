/** Sums of hours and minutes, as exact real numbers. */
module Sums {

  function Sum(s: seq<real>): real {
    if s == [] then 0.0 else Sum(s[..|s| - 1]) + s[|s| - 1]
  }

  lemma SumOne(x: real)
    ensures Sum([x]) == x
  {
    assert [x][..0] == [];
  }

  lemma {:induction false} SumConcat(a: seq<real>, b: seq<real>)
    ensures Sum(a + b) == Sum(a) + Sum(b)
  {
    if b == [] {
      assert a + b == a;
    } else {
      SumConcat(a, b[..|b| - 1]);
      assert (a + b)[..|a + b| - 1] == a + b[..|b| - 1];
    }
  }

  ghost predicate NonNegative(s: seq<real>) {
    forall i :: 0 <= i < |s| ==> s[i] >= 0.0
  }

  lemma {:induction false} SumNonNegative(s: seq<real>)
    requires NonNegative(s)
    ensures Sum(s) >= 0.0
  {
    if s != [] {
      SumNonNegative(s[..|s| - 1]);
    }
  }

  lemma {:induction false} SumConstant(x: real, n: nat)
    ensures Sum(seq(n, _ => x)) == n as real * x
  {
    if n > 0 {
      SumConstant(x, n - 1);
      assert seq(n, _ => x)[..n - 1] == seq(n - 1, _ => x);
    }
  }

  lemma SumUpdate(s: seq<real>, i: nat, x: real)
    requires i < |s|
    ensures Sum(s[i := x]) == Sum(s) - s[i] + x
  {
    assert s == s[..i] + [s[i]] + s[i + 1..];
    assert s[i := x] == s[..i] + [x] + s[i + 1..];
    SumConcat(s[..i] + [s[i]], s[i + 1..]);
    SumConcat(s[..i], [s[i]]);
    SumConcat(s[..i] + [x], s[i + 1..]);
    SumConcat(s[..i], [x]);
    assert Sum([x]) == Sum([]) + x && Sum([s[i]]) == Sum([]) + s[i];
  }

  lemma {:induction false} SumAtMost(s: seq<real>, n: real, limit: real)
    requires n == |s| as real && forall i :: 0 <= i < |s| ==> s[i] <= limit
    ensures Sum(s) <= n * limit
  {
    if s != [] {
      SumAtMost(s[..|s| - 1], n - 1.0, limit);
      assert n * limit == (n - 1.0) * limit + limit;
    }
  }

  lemma {:induction false} SumAtLeast(s: seq<real>, n: real, limit: real)
    requires n == |s| as real && forall i :: 0 <= i < |s| ==> limit <= s[i]
    ensures n * limit <= Sum(s)
  {
    if s != [] {
      SumAtLeast(s[..|s| - 1], n - 1.0, limit);
      assert n * limit == (n - 1.0) * limit + limit;
    }
  }
}
