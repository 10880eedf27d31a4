/** Sums over lists, and that their order does not matter. */
module Sums {
  function SumBy<T>(f: T -> nat, items: seq<T>): nat {
    if items == [] then 0 else SumBy(f, items[..|items| - 1]) + f(items[|items| - 1])
  }

  lemma SumStep<T>(f: T -> nat, items: seq<T>, item: T)
    ensures SumBy(f, items + [item]) == SumBy(f, items) + f(item)
  {
    assert (items + [item])[..|items|] == items;
  }

  function RemoveAt<T>(items: seq<T>, i: nat): seq<T>
    requires i < |items|
  {
    items[..i] + items[i + 1..]
  }

  lemma RemoveMultiset<T>(items: seq<T>, i: nat)
    requires i < |items|
    ensures multiset(RemoveAt(items, i)) == multiset(items) - multiset{items[i]}
  {
    assert items == items[..i] + [items[i]] + items[i + 1..];
  }

  lemma {:induction false} SumRemove<T>(f: T -> nat, items: seq<T>, i: nat)
    requires i < |items|
    ensures SumBy(f, items) == SumBy(f, RemoveAt(items, i)) + f(items[i])
    decreases |items|
  {
    var n := |items| - 1;
    if i == n {
      assert RemoveAt(items, i) == items[..n];
    } else {
      SumRemove(f, items[..n], i);
      assert RemoveAt(items, i) == RemoveAt(items[..n], i) + [items[n]];
      SumStep(f, RemoveAt(items[..n], i), items[n]);
    }
  }

  lemma {:induction false} SumPermutes<T>(f: T -> nat, a: seq<T>, b: seq<T>)
    requires multiset(a) == multiset(b)
    ensures SumBy(f, a) == SumBy(f, b)
    decreases |a|
  {
    assert |a| == |multiset(a)| && |b| == |multiset(b)|;
    if a != [] {
      var n := |a| - 1;
      assert a[n] in multiset(a) && a[n] in multiset(b);
      var i :| 0 <= i < |b| && b[i] == a[n];
      RemoveMultiset(b, i);
      RemoveMultiset(a, n);
      assert RemoveAt(a, n) == a[..n];
      SumPermutes(f, a[..n], RemoveAt(b, i));
      SumRemove(f, b, i);
    }
  }

  /** Permuted lists have the same elements and the same length. */
  lemma PermutedElements<T>(a: seq<T>, b: seq<T>)
    requires multiset(a) == multiset(b)
    ensures |a| == |b| && forall x :: x in a <==> x in b
  {
    assert |a| == |multiset(a)| && |b| == |multiset(b)|;
    assert forall x :: x in a <==> x in multiset(a);
    assert forall x :: x in b <==> x in multiset(b);
  }
}
