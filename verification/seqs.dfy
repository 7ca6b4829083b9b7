/** Identities on sequences, stated once for every element type. */
module Seqs {

  lemma InitLast<T>(s: seq<T>)
    requires |s| > 0
    ensures s[..|s| - 1] + [s[|s| - 1]] == s
  {
  }

  lemma SplitAround<T>(s: seq<T>, i: nat)
    requires i < |s|
    ensures s == (s[..i] + [s[i]]) + s[i + 1..]
  {
  }

  lemma HeadTail<T>(s: seq<T>)
    requires |s| > 0
    ensures [s[0]] + s[1..] == s
  {
  }

  lemma MultisetRemove<T>(s: seq<T>, i: nat)
    requires i < |s|
    ensures multiset(s[..i] + s[i + 1..]) == multiset(s) - multiset{s[i]}
  {
    SplitAround(s, i);
    assert multiset(s) == multiset(s[..i]) + multiset{s[i]} + multiset(s[i + 1..]);
  }

  /** An element of a sub-multiset occurs somewhere in the larger one. */
  lemma Occurrence<T>(a: seq<T>, b: seq<T>, i: nat) returns (j: nat)
    requires i < |a| && multiset(a) <= multiset(b)
    ensures j < |b| && b[j] == a[i]
  {
    assert a[i] in multiset(a);
    assert a[i] in multiset(b);
    j :| 0 <= j < |b| && b[j] == a[i];
  }

  /** The sum of `f` over the elements, in order. */
  function SumBy<T>(s: seq<T>, f: T -> int): int {
    if |s| == 0 then 0 else f(s[0]) + SumBy(s[1..], f)
  }

  lemma {:induction false} SumByConcat<T>(a: seq<T>, b: seq<T>, f: T -> int)
    ensures SumBy(a + b, f) == SumBy(a, f) + SumBy(b, f)
  {
    if |a| > 0 {
      assert (a + b)[0] == a[0];
      assert (a + b)[1..] == a[1..] + b;
      SumByConcat(a[1..], b, f);
    } else {
      assert a + b == b;
    }
  }

  /** Taking out the element at `i` takes its value out of the sum. */
  lemma SumByRemove<T>(s: seq<T>, i: nat, f: T -> int)
    requires i < |s|
    ensures SumBy(s, f) == f(s[i]) + SumBy(s[..i] + s[i + 1..], f)
  {
    var front, mid, back := s[..i], [s[i]], s[i + 1..];
    SplitAround(s, i);
    assert SumBy(mid, f) == f(s[i]) by {
      assert mid[1..] == [];
    }
    SumByConcat(front + mid, back, f);
    SumByConcat(front, mid, f);
    SumByConcat(front, back, f);
  }

  /** The sum does not depend on the order of the elements. */
  lemma {:induction false} SumByPermutation<T>(a: seq<T>, b: seq<T>, f: T -> int)
    requires multiset(a) == multiset(b)
    ensures SumBy(a, f) == SumBy(b, f)
    decreases |a|
  {
    if |a| > 0 {
      var i := Occurrence(a, b, 0);
      MultisetRemove(a, 0);
      MultisetRemove(b, i);
      SumByPermutation(a[..0] + a[1..], b[..i] + b[i + 1..], f);
      SumByRemove(a, 0, f);
      SumByRemove(b, i, f);
    } else {
      assert |b| == |multiset(b)| == 0;
    }
  }
}
