/** Canonical text: decimal numbers, hexadecimal digests, and fields joined by an unescaped bar. */
module Text {
  import opened ByteStrings

  const BAR: Byte := 124
  const MINUS: Byte := 45
  const ZERO: Byte := 48

  function Repeated(b: Byte, n: nat): (r: Bytes)
    ensures |r| == n && forall i :: 0 <= i < n ==> r[i] == b
  {
    if n == 0 then [] else [b] + Repeated(b, n - 1)
  }

  // ---------- decimal ----------

  function Natural(n: nat): (r: Bytes)
    ensures |r| > 0
    ensures forall i :: 0 <= i < |r| ==> ZERO <= r[i] <= ZERO + 9
  {
    if n < 10 then [ZERO + n] else Natural(n / 10) + [ZERO + n % 10]
  }

  function Decimal(n: int): Bytes {
    if n < 0 then [MINUS] + Natural(-n) else Natural(n)
  }

  lemma {:induction false} NaturalInjective(m: nat, n: nat)
    requires Natural(m) == Natural(n)
    ensures m == n
    decreases m + n
  {
    var a, b := Natural(m), Natural(n);
    assert |a| == if m < 10 then 1 else |Natural(m / 10)| + 1;
    assert |b| == if n < 10 then 1 else |Natural(n / 10)| + 1;
    if m >= 10 && n >= 10 {
      assert Natural(m / 10) == a[..|a| - 1] == b[..|b| - 1] == Natural(n / 10);
      NaturalInjective(m / 10, n / 10);
      assert a[|a| - 1] == b[|b| - 1];
    } else if m < 10 && n < 10 {
      assert a[0] == b[0];
    }
  }

  lemma {:induction false} DecimalInjective(m: int, n: int)
    requires Decimal(m) == Decimal(n)
    ensures m == n
  {
    assert Decimal(m)[0] == Decimal(n)[0];
    if m < 0 && n < 0 {
      assert Natural(-m) == Decimal(m)[1..] == Decimal(n)[1..] == Natural(-n);
      NaturalInjective(-m, -n);
    } else if m >= 0 && n >= 0 {
      NaturalInjective(m, n);
    }
  }

  // ---------- hexadecimal ----------

  function HexDigit(n: nat): Byte
    requires n < 16
  {
    if n < 10 then ZERO + n else 87 + n
  }

  function Hex(bytes: Bytes): (r: Bytes)
    ensures |r| == 2 * |bytes|
    ensures forall i :: 0 <= i < |r| ==> r[i] != BAR
  {
    if |bytes| == 0 then []
    else [HexDigit(bytes[0] / 16), HexDigit(bytes[0] % 16)] + Hex(bytes[1..])
  }

  lemma {:induction false} HexInjective(a: Bytes, b: Bytes)
    requires Hex(a) == Hex(b)
    ensures a == b
    decreases |a|
  {
    if |a| > 0 {
      var x, y := Hex(a), Hex(b);
      assert x[0] == y[0] && x[1] == y[1];
      assert Hex(a[1..]) == x[2..] == y[2..] == Hex(b[1..]);
      HexInjective(a[1..], b[1..]);
      assert a == [a[0]] + a[1..] && b == [b[0]] + b[1..];
    }
  }

  // ---------- joining ----------

  function Bars(s: Bytes): nat {
    if |s| == 0 then 0 else Bars(s[..|s| - 1]) + if s[|s| - 1] == BAR then 1 else 0
  }

  predicate BarFree(s: Bytes) {
    forall i :: 0 <= i < |s| ==> s[i] != BAR
  }

  lemma {:induction false} BarFreeHasNone(s: Bytes)
    requires BarFree(s)
    ensures Bars(s) == 0
  {
    if |s| > 0 {
      BarFreeHasNone(s[..|s| - 1]);
    }
  }

  lemma {:induction false} BarsPrefix(s: Bytes, n: nat)
    requires n < |s| && s[n] == BAR
    ensures Bars(s[..n]) < Bars(s)
    decreases |s|
  {
    var shorter := s[..|s| - 1];
    if n == |s| - 1 {
    } else {
      assert shorter[..n] == s[..n];
      BarsPrefix(shorter, n);
    }
  }

  /** `first|rest` splits one way once the number of bars in `first` is known. */
  lemma {:induction false} SplitUnique(first: Bytes, rest: Bytes, other: Bytes, remainder: Bytes)
    requires first + [BAR] + rest == other + [BAR] + remainder && Bars(first) == Bars(other)
    ensures first == other && rest == remainder
  {
    var whole := first + [BAR] + rest;
    assert whole[..|first|] == first && whole[|first|] == BAR;
    assert whole[..|other|] == other && whole[|other|] == BAR;
    if |first| < |other| {
      assert other[|first|] == BAR && other[..|first|] == first;
      BarsPrefix(other, |first|);
    } else if |other| < |first| {
      assert first[|other|] == BAR && first[..|other|] == other;
      BarsPrefix(first, |other|);
    }
    assert rest == whole[|first| + 1..] && remainder == whole[|other| + 1..];
  }

  function Joined(fields: seq<Bytes>): Bytes
    requires |fields| > 0
  {
    if |fields| == 1 then fields[0] else fields[0] + [BAR] + Joined(fields[1..])
  }

  /** All but the last field hold as many bars in one list as in the other. */
  predicate SameBars(a: seq<Bytes>, b: seq<Bytes>) {
    |a| == |b| && forall i :: 0 <= i < |a| - 1 ==> Bars(a[i]) == Bars(b[i])
  }

  /** Joined lists of fields with the same bars are equal exactly when the lists are. */
  lemma {:induction false} JoinedUnique(a: seq<Bytes>, b: seq<Bytes>)
    requires |a| > 0 && SameBars(a, b) && Joined(a) == Joined(b)
    ensures a == b
    decreases |a|
  {
    if |a| > 1 {
      SplitUnique(a[0], Joined(a[1..]), b[0], Joined(b[1..]));
      JoinedUnique(a[1..], b[1..]);
      assert a == [a[0]] + a[1..] && b == [b[0]] + b[1..];
    }
  }

  lemma {:induction false} BarsAdd(s: Bytes, t: Bytes)
    ensures Bars(s + t) == Bars(s) + Bars(t)
    decreases |t|
  {
    if |t| == 0 {
      assert s + t == s;
    } else {
      assert (s + t)[..|s + t| - 1] == s + t[..|t| - 1];
      BarsAdd(s, t[..|t| - 1]);
    }
  }

  /** Where only field `k` may hold bars, the joined text holds those and one between each two fields. */
  lemma {:induction false} JoinedBars(fields: seq<Bytes>, k: int)
    requires |fields| > 0 && forall i :: 0 <= i < |fields| && i != k ==> Bars(fields[i]) == 0
    ensures Bars(Joined(fields)) == |fields| - 1 + if 0 <= k < |fields| then Bars(fields[k]) else 0
    decreases |fields|
  {
    hide Bars;
    if |fields| > 1 {
      JoinedBars(fields[1..], k - 1);
      BarsAdd(fields[0] + [BAR], Joined(fields[1..]));
      BarsAdd(fields[0], [BAR]);
      OneBar();
    }
  }

  lemma {:induction false} OneBar()
    ensures Bars([BAR]) == 1
  {
    assert [BAR][..0] == [];
  }

  /** So lists in which only field `k` may hold bars join to one text exactly when they are equal. */
  lemma {:induction false} OneBarredFieldUnique(a: seq<Bytes>, b: seq<Bytes>, k: nat)
    requires |a| == |b| && k < |a| && Joined(a) == Joined(b)
    requires forall i :: 0 <= i < |a| && i != k ==> Bars(a[i]) == Bars(b[i]) == 0
    ensures SameBars(a, b) && a == b
  {
    hide Bars;
    JoinedBars(a, k);
    JoinedBars(b, k);
    JoinedUnique(a, b);
  }

  lemma {:induction false} JoinedAppend(a: seq<Bytes>, b: seq<Bytes>)
    requires |a| > 0 && |b| > 0
    ensures Joined(a + b) == Joined(a) + [BAR] + Joined(b)
    decreases |a|
  {
    if |a| == 1 {
      assert (a + b)[1..] == b;
    } else {
      assert (a + b)[1..] == a[1..] + b;
      JoinedAppend(a[1..], b);
    }
  }

  /** A field that is itself a joined list reads as its fields. */
  lemma {:induction false} JoinedNested(a: seq<Bytes>, inner: seq<Bytes>, b: seq<Bytes>)
    requires |inner| > 0
    ensures Joined(a + [Joined(inner)] + b) == Joined(a + inner + b)
  {
    hide Joined;
    JoinedOne(Joined(inner));
    if |b| > 0 {
      JoinedAppend([Joined(inner)], b);
      JoinedAppend(inner, b);
    } else {
      assert [Joined(inner)] + b == [Joined(inner)] && inner + b == inner;
    }
    assert a + [Joined(inner)] + b == a + ([Joined(inner)] + b) && a + inner + b == a + (inner + b);
    if |a| > 0 {
      JoinedAppend(a, [Joined(inner)] + b);
      JoinedAppend(a, inner + b);
    } else {
      assert a + ([Joined(inner)] + b) == [Joined(inner)] + b && a + (inner + b) == inner + b;
    }
  }

  lemma {:induction false} JoinedOne(field: Bytes)
    ensures Joined([field]) == field
  {
  }

  lemma {:induction false} NumbersAreBarFree(n: int)
    ensures BarFree(Decimal(n)) && Bars(Decimal(n)) == 0
  {
    BarFreeHasNone(Decimal(n));
  }
}
