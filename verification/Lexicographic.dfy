/** The order Python and SQLite's binary collation give to strings: character by character,
    a proper prefix first. */
module Lexicographic {
  import opened Sorting

  predicate LexLeq(a: string, b: string) {
    a == [] || (b != [] && (a[0] < b[0] || (a[0] == b[0] && LexLeq(a[1..], b[1..]))))
  }

  lemma {:induction false} LexTotal(a: string, b: string)
    ensures LexLeq(a, b) || LexLeq(b, a)
  {
    if a != [] && b != [] {
      LexTotal(a[1..], b[1..]);
    }
  }

  lemma {:induction false} LexTransitive(a: string, b: string, c: string)
    requires LexLeq(a, b) && LexLeq(b, c)
    ensures LexLeq(a, c)
  {
    if a != [] && a[0] == b[0] == c[0] {
      LexTransitive(a[1..], b[1..], c[1..]);
    }
  }

  lemma {:induction false} LexAntisymmetric(a: string, b: string)
    requires LexLeq(a, b) && LexLeq(b, a)
    ensures a == b
  {
    if a != [] {
      LexAntisymmetric(a[1..], b[1..]);
      assert a == [a[0]] + a[1..] && b == [b[0]] + b[1..];
    }
  }

  lemma LexIsAnOrder()
    ensures Total(LexLeq) && Transitive(LexLeq) && Antisymmetric(LexLeq)
  {
    forall a, b ensures LexLeq(a, b) || LexLeq(b, a) {
      LexTotal(a, b);
    }
    forall a, b, c | LexLeq(a, b) && LexLeq(b, c) ensures LexLeq(a, c) {
      LexTransitive(a, b, c);
    }
    forall a, b | LexLeq(a, b) && LexLeq(b, a) ensures a == b {
      LexAntisymmetric(a, b);
    }
  }

  /** `a` has the smaller character at the first place where the two differ. */
  ghost predicate SmallerAt(a: string, b: string, k: nat) {
    k < |a| && k < |b| && a[k] < b[k] && forall i :: 0 <= i < k ==> a[i] == b[i]
  }

  ghost predicate TextLeq(a: string, b: string) {
    a <= b || exists k: nat :: SmallerAt(a, b, k)
  }

  /** One string comes before another as a prefix of it, or by the first character that differs. */
  lemma {:induction false} LexLeqIff(a: string, b: string)
    ensures LexLeq(a, b) <==> TextLeq(a, b)
  {
    if a != [] && b != [] {
      if a[0] == b[0] {
        LexLeqIff(a[1..], b[1..]);
        TextLeqTail(a, b);
      } else {
        assert a[0] < b[0] ==> SmallerAt(a, b, 0);
        assert forall k: nat :: SmallerAt(a, b, k) ==> k == 0;
      }
    }
  }

  lemma TextLeqTail(a: string, b: string)
    requires a != [] && b != [] && a[0] == b[0]
    ensures TextLeq(a, b) <==> TextLeq(a[1..], b[1..])
  {
    assert a == [a[0]] + a[1..] && b == [b[0]] + b[1..];
    forall k: nat | SmallerAt(a, b, k)
      ensures k > 0 && SmallerAt(a[1..], b[1..], k - 1)
    {
    }
    forall k: nat | SmallerAt(a[1..], b[1..], k)
      ensures SmallerAt(a, b, k + 1)
    {
      assert forall i :: 0 < i <= k ==> a[i] == a[1..][i - 1] && b[i] == b[1..][i - 1];
    }
  }
}
