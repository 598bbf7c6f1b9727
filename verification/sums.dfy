/** Sums over lists, which no reordering changes. */
module Sums {

  function Sum<T>(f: T -> int, items: seq<T>): int {
    if |items| == 0 then 0 else Sum(f, items[..|items| - 1]) + f(items[|items| - 1])
  }

  function Absolute(n: int): nat {
    if n < 0 then -n else n
  }

  lemma {:induction false} SumAppend<T>(f: T -> int, a: seq<T>, b: seq<T>)
    ensures Sum(f, a + b) == Sum(f, a) + Sum(f, b)
    decreases |b|
  {
    if |b| == 0 {
      assert a + b == a;
    } else {
      var front := b[..|b| - 1];
      assert (a + b)[..|a + b| - 1] == a + front;
      SumAppend(f, a, front);
    }
  }

  lemma {:induction false} SumWithout<T>(f: T -> int, items: seq<T>, i: nat)
    requires i < |items|
    ensures Sum(f, items) == Sum(f, items[..i] + items[i + 1..]) + f(items[i])
  {
    assert items == items[..i] + ([items[i]] + items[i + 1..]);
    SumAppend(f, items[..i], [items[i]] + items[i + 1..]);
    SumAppend(f, [items[i]], items[i + 1..]);
    SumAppend(f, items[..i], items[i + 1..]);
    assert Sum(f, [items[i]]) == Sum(f, []) + f(items[i]);
  }

  lemma {:induction false} BagWithout<T>(items: seq<T>, i: nat)
    requires i < |items|
    ensures multiset(items[..i] + items[i + 1..]) == multiset(items) - multiset{items[i]}
  {
    assert items == items[..i] + [items[i]] + items[i + 1..];
  }

  /** The order of a list does not matter to its sum. */
  lemma {:induction false} SumPermutation<T>(f: T -> int, a: seq<T>, b: seq<T>)
    requires multiset(a) == multiset(b)
    ensures Sum(f, a) == Sum(f, b)
    decreases |a|
  {
    assert |a| == |multiset(a)| == |multiset(b)| == |b|;
    if |a| > 0 {
      var n := |a| - 1;
      BagWithout(a, n);
      assert a[n + 1..] == [] && a[..n] + [] == a[..n];
      assert a[n] in multiset(b);
      var i :| 0 <= i < |b| && b[i] == a[n];
      BagWithout(b, i);
      SumPermutation(f, a[..n], b[..i] + b[i + 1..]);
      SumWithout(f, b, i);
    }
  }
}
