/** Byte strings. */
module ByteStrings {

  type Byte = b: int | 0 <= b < 256

  type Bytes = seq<Byte>

  /** Joins a list of byte strings. */
  function Concat(parts: seq<Bytes>): Bytes {
    if |parts| == 0 then [] else parts[0] + Concat(parts[1..])
  }

  lemma {:induction false} ConcatSplit(a: seq<Bytes>, b: seq<Bytes>)
    ensures Concat(a + b) == Concat(a) + Concat(b)
  {
    if |a| == 0 {
      assert a + b == b;
    } else {
      assert (a + b)[1..] == a[1..] + b;
      ConcatSplit(a[1..], b);
    }
  }

  /** Hexadecimal in either case, 64 digits long. */
  predicate IsCidText(c: Bytes) {
    |c| == 64 && forall i :: 0 <= i < |c| ==> 48 <= c[i] <= 57 || 97 <= c[i] <= 102 || 65 <= c[i] <= 70
  }
}
