/** Byte-string order and sorting by it. */
module Order {
  import opened ByteStrings

  /** Bytewise lexicographic order, as byte strings and UTF-8 text compare. */
  predicate LexLe(a: Bytes, b: Bytes) {
    |a| == 0 || (|b| > 0 && (a[0] < b[0] || (a[0] == b[0] && LexLe(a[1..], b[1..]))))
  }

  predicate LexLess(a: Bytes, b: Bytes) {
    LexLe(a, b) && a != b
  }

  lemma {:induction false} LexTotal(a: Bytes, b: Bytes)
    ensures LexLe(a, b) || LexLe(b, a)
    ensures LexLe(a, a)
    decreases |a|
  {
    if |a| > 0 {
      LexTotal(a[1..], if |b| > 0 then b[1..] else []);
    }
  }

  lemma {:induction false} LexAntisymmetric(a: Bytes, b: Bytes)
    requires LexLe(a, b) && LexLe(b, a)
    ensures a == b
    decreases |a|
  {
    if |a| > 0 && |b| > 0 {
      LexAntisymmetric(a[1..], b[1..]);
      assert a == [a[0]] + a[1..] && b == [b[0]] + b[1..];
    }
  }

  lemma {:induction false} LexTransitive(a: Bytes, b: Bytes, c: Bytes)
    requires LexLe(a, b) && LexLe(b, c)
    ensures LexLe(a, c)
    decreases |a|
  {
    if |a| > 0 && a[0] == b[0] == c[0] {
      LexTransitive(a[1..], b[1..], c[1..]);
    }
  }

  /** Records sort by a first and then a second byte string. */
  type Key = (Bytes, Bytes)

  predicate KeyLe(a: Key, b: Key) {
    LexLess(a.0, b.0) || (a.0 == b.0 && LexLe(a.1, b.1))
  }

  predicate KeyLess(a: Key, b: Key) {
    KeyLe(a, b) && a != b
  }

  lemma {:induction false} KeyTotal(a: Key, b: Key)
    ensures KeyLe(a, b) || KeyLe(b, a)
    ensures KeyLe(a, a)
  {
    LexTotal(a.0, b.0);
    LexTotal(a.1, b.1);
    LexTotal(a.1, a.1);
  }

  lemma {:induction false} KeyAntisymmetric(a: Key, b: Key)
    requires KeyLe(a, b) && KeyLe(b, a)
    ensures a == b
  {
    if a.0 != b.0 {
      LexAntisymmetric(a.0, b.0);
    } else {
      LexAntisymmetric(a.1, b.1);
    }
  }

  lemma {:induction false} KeyTransitive(a: Key, b: Key, c: Key)
    requires KeyLe(a, b) && KeyLe(b, c)
    ensures KeyLe(a, c)
  {
    if a.0 == b.0 == c.0 {
      LexTransitive(a.1, b.1, c.1);
    } else if a.0 != b.0 && b.0 != c.0 {
      LexTransitive(a.0, b.0, c.0);
      if a.0 == c.0 {
        LexAntisymmetric(a.0, b.0);
      }
    }
  }

  // ---------- sorting records ----------

  predicate SortedBy<T>(key: T -> Key, s: seq<T>) {
    forall i, j :: 0 <= i < j < |s| ==> KeyLe(key(s[i]), key(s[j]))
  }

  /** Inserts after every element whose key is no greater, so sorting is stable. */
  function Insert<T>(key: T -> Key, x: T, s: seq<T>): seq<T> {
    if |s| == 0 || KeyLe(key(s[|s| - 1]), key(x)) then s + [x]
    else Insert(key, x, s[..|s| - 1]) + [s[|s| - 1]]
  }

  function Sort<T>(key: T -> Key, s: seq<T>): seq<T> {
    if |s| == 0 then [] else Insert(key, s[|s| - 1], Sort(key, s[..|s| - 1]))
  }

  lemma {:induction false} InsertedBelow<T>(key: T -> Key, x: T, front: seq<T>, r: seq<T>, last: T)
    requires SortedBy(key, front + [last]) && SortedBy(key, r) && KeyLe(key(x), key(last))
    requires multiset(r) == multiset(front) + multiset{x}
    ensures SortedBy(key, r + [last])
  {
    hide KeyLe;
    forall i | 0 <= i < |r| ensures KeyLe(key(r[i]), key(last)) {
      assert r[i] in multiset(r);
      if r[i] in front {
        var j :| 0 <= j < |front| && front[j] == r[i];
        assert KeyLe(key((front + [last])[j]), key((front + [last])[|front|]));
      }
    }
  }

  lemma {:induction false} InsertSpec<T>(key: T -> Key, x: T, s: seq<T>)
    requires SortedBy(key, s)
    ensures multiset(Insert(key, x, s)) == multiset(s) + multiset{x}
    ensures SortedBy(key, Insert(key, x, s))
    decreases |s|
  {
    if |s| == 0 {
    } else {
      var front, last := s[..|s| - 1], s[|s| - 1];
      assert s == front + [last];
      if KeyLe(key(last), key(x)) {
        forall i | 0 <= i < |s| ensures KeyLe(key(s[i]), key(x)) {
          if i < |s| - 1 {
            KeyTransitive(key(s[i]), key(last), key(x));
          }
        }
      } else {
        KeyTotal(key(last), key(x));
        InsertSpec(key, x, front);
        InsertedBelow(key, x, front, Insert(key, x, front), last);
      }
    }
  }

  lemma {:induction false} SortSpec<T>(key: T -> Key, s: seq<T>)
    ensures multiset(Sort(key, s)) == multiset(s)
    ensures SortedBy(key, Sort(key, s))
    decreases |s|
  {
    if |s| > 0 {
      SortSpec(key, s[..|s| - 1]);
      InsertSpec(key, s[|s| - 1], Sort(key, s[..|s| - 1]));
      assert s == s[..|s| - 1] + [s[|s| - 1]];
    }
  }

  /** A list already in order is left as it is. */
  lemma {:induction false} SortKeepsSorted<T>(key: T -> Key, s: seq<T>)
    requires SortedBy(key, s)
    ensures Sort(key, s) == s
    decreases |s|
  {
    if |s| > 0 {
      SortKeepsSorted(key, s[..|s| - 1]);
      assert s == s[..|s| - 1] + [s[|s| - 1]];
      if |s| > 1 {
        assert KeyLe(key(s[|s| - 2]), key(s[|s| - 1]));
      }
    }
  }

  // ---------- strictly ascending lists ----------

  /** Each item sorts strictly after the one before it. */
  predicate Ascending<T>(key: T -> Key, items: seq<T>) {
    forall i :: 0 <= i < |items| - 1 ==> KeyLess(key(items[i]), key(items[i + 1]))
  }

  predicate KeysDistinct<T>(key: T -> Key, items: seq<T>) {
    forall i, j :: 0 <= i < j < |items| ==> key(items[i]) != key(items[j])
  }

  lemma {:induction false} AscendingPairs<T>(key: T -> Key, items: seq<T>, i: nat, j: nat)
    requires Ascending(key, items) && i < j < |items|
    ensures KeyLess(key(items[i]), key(items[j]))
    decreases j - i
  {
    if i + 1 < j {
      AscendingPairs(key, items, i, j - 1);
      KeyTransitive(key(items[i]), key(items[j - 1]), key(items[j]));
      if key(items[i]) == key(items[j]) {
        KeyAntisymmetric(key(items[j - 1]), key(items[j]));
      }
    }
  }

  /** No two items of a bag share a key. */
  ghost predicate BagDistinct<T(!new)>(key: T -> Key, bag: multiset<T>) {
    forall x, y :: x in bag && y in bag && key(x) == key(y) ==> x == y && bag[x] == 1
  }

  /** Distinctness only depends on which items there are, not on their order. */
  lemma {:induction false} DistinctByCount<T(!new)>(key: T -> Key, items: seq<T>)
    ensures KeysDistinct(key, items) <==> BagDistinct(key, multiset(items))
    decreases |items|
  {
    if KeysDistinct(key, items) {
      DistinctCounts(key, items);
    } else {
      var i, j :| 0 <= i < j < |items| && key(items[i]) == key(items[j]);
      assert items[i] in multiset(items) && items[j] in multiset(items);
      if items[i] == items[j] {
        assert items[i] in multiset(items[..j]) && items[j] in multiset(items[j..]);
        assert items == items[..j] + items[j..];
        assert multiset(items)[items[i]] >= 2;
      }
    }
  }

  lemma {:induction false} DistinctCounts<T(!new)>(key: T -> Key, items: seq<T>)
    requires KeysDistinct(key, items)
    ensures BagDistinct(key, multiset(items))
    decreases |items|
  {
    if |items| > 0 {
      var front, last := items[..|items| - 1], items[|items| - 1];
      assert items == front + [last];
      NotIn(key, front, last);
      DistinctCounts(key, front);
      forall x, y | x in multiset(items) && y in multiset(items) && key(x) == key(y)
        ensures x == y && multiset(items)[x] == 1
      {
        assert x == last || x in multiset(front);
        assert y == last || y in multiset(front);
      }
    }
  }

  lemma {:induction false} NotIn<T(!new)>(key: T -> Key, front: seq<T>, last: T)
    requires KeysDistinct(key, front + [last])
    ensures last !in multiset(front)
    ensures forall x :: x in multiset(front) ==> key(x) != key(last)
    ensures KeysDistinct(key, front)
  {
    var items := front + [last];
    forall i | 0 <= i < |front| ensures key(front[i]) != key(last) {
      assert items[i] == front[i] && items[|front|] == last;
    }
    forall i, j | 0 <= i < j < |front| ensures key(front[i]) != key(front[j]) {
      assert items[i] == front[i] && items[j] == front[j];
    }
  }

  /** Sorting gives a strictly ascending list exactly when no two items share a key. */
  lemma {:induction false} SortAscendsIff<T(!new)>(key: T -> Key, items: seq<T>)
    ensures Ascending(key, Sort(key, items)) <==> KeysDistinct(key, items)
  {
    var sorted := Sort(key, items);
    SortSpec(key, items);
    DistinctByCount(key, items);
    DistinctByCount(key, sorted);
    if Ascending(key, sorted) {
      forall i, j | 0 <= i < j < |sorted| ensures key(sorted[i]) != key(sorted[j]) {
        AscendingPairs(key, sorted, i, j);
      }
    }
  }

  // ---------- sorting byte strings ----------

  function Itself(s: Bytes): Key {
    (s, [])
  }

  function SortBytes(s: seq<Bytes>): seq<Bytes> {
    Sort(Itself, s)
  }

  lemma {:induction false} LastIsGreatest(a: seq<Bytes>, x: Bytes)
    requires SortedBy(Itself, a) && x in a
    ensures KeyLe(Itself(x), Itself(a[|a| - 1]))
  {
    var i :| 0 <= i < |a| && a[i] == x;
    if i < |a| - 1 {
      assert KeyLe(Itself(a[i]), Itself(a[|a| - 1]));
    } else {
      KeyTotal(Itself(x), Itself(x));
    }
  }

  lemma {:induction false} FrontMultiset(a: seq<Bytes>)
    requires |a| > 0
    ensures a == a[..|a| - 1] + [a[|a| - 1]]
    ensures multiset(a[..|a| - 1]) == multiset(a) - multiset{a[|a| - 1]}
  {
    assert a == a[..|a| - 1] + [a[|a| - 1]];
  }

  lemma {:induction false} FrontSorted(a: seq<Bytes>)
    requires |a| > 0 && SortedBy(Itself, a)
    ensures SortedBy(Itself, a[..|a| - 1])
  {
    hide KeyLe;
  }

  lemma {:induction false} LastsEqual(a: seq<Bytes>, b: seq<Bytes>)
    requires SortedBy(Itself, a) && SortedBy(Itself, b) && multiset(a) == multiset(b)
    requires |a| > 0 && |b| > 0
    ensures a[|a| - 1] == b[|b| - 1]
  {
    var x, y := a[|a| - 1], b[|b| - 1];
    assert x in multiset(b) && y in multiset(a);
    LastIsGreatest(b, x);
    LastIsGreatest(a, y);
    KeyAntisymmetric(Itself(x), Itself(y));
  }

  lemma {:induction false} SortedUnique(a: seq<Bytes>, b: seq<Bytes>)
    requires SortedBy(Itself, a) && SortedBy(Itself, b) && multiset(a) == multiset(b)
    ensures a == b
    decreases |a|
  {
    hide SortedBy;
    assert |multiset(a)| == |multiset(b)|;
    assert |a| == |b|;
    if |a| > 0 {
      LastsEqual(a, b);
      FrontMultiset(a);
      FrontMultiset(b);
      FrontSorted(a);
      FrontSorted(b);
      SortedUnique(a[..|a| - 1], b[..|b| - 1]);
    }
  }

  /** Two lists sort to the same list exactly when one is a permutation of the other. */
  lemma {:induction false} SortBytesEqualIff(a: seq<Bytes>, b: seq<Bytes>)
    ensures SortBytes(a) == SortBytes(b) <==> multiset(a) == multiset(b)
  {
    SortSpec(Itself, a);
    SortSpec(Itself, b);
    if multiset(a) == multiset(b) {
      SortedUnique(SortBytes(a), SortBytes(b));
    }
  }
}
