/** The audit event chain: each event's text names the hash of the event before it. */
module Audit {
  import opened Wrappers
  import opened ByteStrings
  import opened Text
  import opened Canonical
  import opened Merkle

  datatype AuditEvent = AuditEvent(
    sequence: nat,
    occurredAt: int,
    kind: Bytes,
    actorId: Bytes,
    subjectId: Bytes,
    previousHash: Bytes,
    eventHash: Bytes)

  datatype AuditError = BadSequence | BrokenChain

  const EVENT_TAG: Bytes := [97, 99, 109, 46, 97, 117, 100, 105, 116, 45, 101, 118, 101, 110, 116, 46, 118, 49]
  const GENESIS_HASH: Bytes := Repeated(ZERO, 64)

  function Fields(e: AuditEvent): seq<Bytes> {
    [EVENT_TAG, Decimal(e.sequence), Decimal(e.occurredAt), e.kind, e.actorId, e.subjectId, e.previousHash]
  }

  function EventText(e: AuditEvent): Bytes {
    Joined(Fields(e))
  }

  function EventHash(hash: Hash, e: AuditEvent): Bytes {
    Hex(hash(EventText(e)))
  }

  function Append(hash: Hash, previous: Option<AuditEvent>, occurredAt: int, kind: Bytes, actorId: Bytes, subjectId: Bytes)
    : AuditEvent
  {
    var sequence := if previous.Some? then previous.value.sequence + 1 else 0;
    var previousHash := if previous.Some? then previous.value.eventHash else GENESIS_HASH;
    var e := AuditEvent(sequence, occurredAt, kind, actorId, subjectId, previousHash, []);
    e.(eventHash := EventHash(hash, e))
  }

  function Last(events: seq<AuditEvent>): Option<AuditEvent> {
    if |events| == 0 then None else Some(events[|events| - 1])
  }

  predicate Linked(hash: Hash, events: seq<AuditEvent>, i: nat)
    requires i < |events|
  {
    && events[i].sequence == i
    && events[i].previousHash == (if i == 0 then GENESIS_HASH else events[i - 1].eventHash)
    && events[i].eventHash == EventHash(hash, events[i])
  }

  predicate ChainOk(hash: Hash, events: seq<AuditEvent>) {
    forall i :: 0 <= i < |events| ==> Linked(hash, events, i)
  }

  /** An event holds its place when it is numbered, names the hash before it and is hashed over all its fields. */
  lemma {:induction false} LinkedIff(hash: Hash, events: seq<AuditEvent>, i: nat)
    requires i < |events|
    ensures Linked(hash, events, i) <==>
            var e := events[i];
            && e.sequence == i
            && e.previousHash == (if i == 0 then seq(64, _ => 48) else events[i - 1].eventHash)
            && e.eventHash == Hex(hash(Joined([
                 Ascii("acm.audit-event.v1"), Decimal(i), Decimal(e.occurredAt), e.kind, e.actorId, e.subjectId, e.previousHash])))
  {
    hide Joined, Decimal;
    assert EVENT_TAG == Ascii("acm.audit-event.v1");
    assert GENESIS_HASH == seq(64, _ => 48);
  }

  method VerifyChain(hash: Hash, events: seq<AuditEvent>) returns (r: Result<(), AuditError>)
    ensures r.Ok? <==> ChainOk(hash, events)
    ensures r == Err(BadSequence) ==>
              exists i :: 0 <= i < |events| && events[i].sequence != i && forall j :: 0 <= j < i ==> Linked(hash, events, j)
  {
    for index := 0 to |events|
      invariant forall i :: 0 <= i < index ==> Linked(hash, events, i)
    {
      var event := events[index];
      if event.sequence != index {
        assert !Linked(hash, events, index);
        return Err(BadSequence);
      }
      var expected := if index == 0 then GENESIS_HASH else events[index - 1].eventHash;
      if event.previousHash != expected || event.eventHash != EventHash(hash, event) {
        assert !Linked(hash, events, index);
        return Err(BrokenChain);
      }
    }
    r := Ok(());
  }

  /** Appending to a chain that verifies gives a chain that verifies. */
  lemma {:induction false} AppendKeepsChain(hash: Hash, events: seq<AuditEvent>, at: int, kind: Bytes,
          actor: Bytes, subject: Bytes)
    requires ChainOk(hash, events)
    ensures ChainOk(hash, events + [Append(hash, Last(events), at, kind, actor, subject)])
  {
    var e := Append(hash, Last(events), at, kind, actor, subject);
    var longer := events + [e];
    assert EventText(e.(eventHash := [])) == EventText(e);
    assert |events| > 0 ==> Linked(hash, events, |events| - 1);
    forall i | 0 <= i < |longer| ensures Linked(hash, longer, i) {
      if i < |events| {
        assert Linked(hash, events, i);
      }
    }
  }

  // ---------- what the last hash fixes ----------

  ghost function Texts(events: seq<AuditEvent>): set<Bytes> {
    set e | e in events :: EventText(e)
  }

  /** The only fields that may hold a bar and are not last hold as many in one event as in the other. */
  predicate SameSplit(a: AuditEvent, b: AuditEvent) {
    Bars(a.kind) == Bars(b.kind) && Bars(a.actorId) == Bars(b.actorId)
  }

  /** What equal texts say whatever the text fields hold: the numbers, and the hash of the event before. */
  lemma {:induction false} TextFixesFrame(a: AuditEvent, b: AuditEvent)
    requires EventText(a) == EventText(b) && |a.previousHash| == |b.previousHash| == 64
    ensures a.sequence == b.sequence && a.occurredAt == b.occurredAt && a.previousHash == b.previousHash
  {
    var f, g := Fields(a), Fields(b);
    NumbersAreBarFree(a.sequence);
    NumbersAreBarFree(b.sequence);
    NumbersAreBarFree(a.occurredAt);
    NumbersAreBarFree(b.occurredAt);
    SplitUnique(f[0], Joined(f[1..]), g[0], Joined(g[1..]));
    assert f[1..][1..] == f[2..] && g[1..][1..] == g[2..];
    SplitUnique(f[1], Joined(f[2..]), g[1], Joined(g[2..]));
    assert f[2..][1..] == f[3..] && g[2..][1..] == g[3..];
    SplitUnique(f[2], Joined(f[3..]), g[2], Joined(g[3..]));
    DecimalInjective(a.sequence, b.sequence);
    DecimalInjective(a.occurredAt, b.occurredAt);
    JoinedEnds(f);
    JoinedEnds(g);
  }

  lemma {:induction false} JoinedEnds(fields: seq<Bytes>)
    requires |fields| > 0
    ensures var last := fields[|fields| - 1];
            |last| <= |Joined(fields)| && Joined(fields)[|Joined(fields)| - |last|..] == last
  {
    if |fields| > 1 {
      JoinedEnds(fields[1..]);
    }
  }

  /** Events of equal text are equal exactly when they split alike. */
  lemma {:induction false} TextFixesEvent(hash: Hash, a: AuditEvent, b: AuditEvent)
    requires EventText(a) == EventText(b) && |a.previousHash| == |b.previousHash| == 64
    requires a.eventHash == EventHash(hash, a) && b.eventHash == EventHash(hash, b)
    ensures a == b <==> SameSplit(a, b)
  {
    TextFixesFrame(a, b);
    if SameSplit(a, b) {
      var f, g := Fields(a), Fields(b);
      var middle, other := f[3..], g[3..];
      assert f[..3] == g[..3];
      SameTail(f, g, 3);
      SplitUnique(middle[0], Joined(middle[1..]), other[0], Joined(other[1..]));
      SplitUnique(middle[1], Joined(middle[2..]), other[1], Joined(other[2..])) by {
        assert middle[1..][1..] == middle[2..] && other[1..][1..] == other[2..];
      }
      assert middle[2..][1..] == [a.previousHash] && other[2..][1..] == [b.previousHash];
      assert Joined(middle[2..]) == a.subjectId + [BAR] + a.previousHash;
      assert Joined(other[2..]) == b.subjectId + [BAR] + b.previousHash;
      assert |a.subjectId| == |b.subjectId|;
      assert a.subjectId == Joined(middle[2..])[..|a.subjectId|] == b.subjectId;
    }
  }

  lemma {:induction false} SameTail(f: seq<Bytes>, g: seq<Bytes>, n: nat)
    requires n < |f| == |g| && f[..n] == g[..n] && Joined(f) == Joined(g)
    ensures Joined(f[n..]) == Joined(g[n..])
    decreases n
  {
    if n > 0 {
      assert f[0] == f[..n][0] == g[..n][0] == g[0];
      SplitUnique(f[0], Joined(f[1..]), g[0], Joined(g[1..]));
      assert f[1..][..n - 1] == f[..n][1..] && g[1..][..n - 1] == g[..n][1..];
      SameTail(f[1..], g[1..], n - 1);
      assert f[1..][n - 1..] == f[n..] && g[1..][n - 1..] == g[n..];
    } else {
      assert f[n..] == f && g[n..] == g;
    }
  }

  lemma {:induction false} HashLength(hash: Hash, events: seq<AuditEvent>, i: nat)
    requires ChainOk(hash, events) && i < |events|
    ensures |events[i].previousHash| == 64
  {
    assert Linked(hash, events, i);
    if i > 0 {
      assert Linked(hash, events, i - 1);
    }
  }

  /**
    Two chains that verify and end in the same event hash have the same length and, event by
    event, the same text, times and hashes; they are identical exactly when their events split
    alike.
   */
  lemma {:induction false} LastHashBindsChain(hash: Hash, a: seq<AuditEvent>, b: seq<AuditEvent>)
    requires ChainOk(hash, a) && ChainOk(hash, b) && |a| > 0 && |b| > 0
    requires CollisionFree(hash, Texts(a) + Texts(b))
    requires a[|a| - 1].eventHash == b[|b| - 1].eventHash
    ensures |a| == |b|
    ensures forall i :: 0 <= i < |a| ==> EventText(a[i]) == EventText(b[i])
    ensures forall i :: 0 <= i < |a| ==> a[i].occurredAt == b[i].occurredAt && a[i].eventHash == b[i].eventHash
    ensures a == b <==> forall i :: 0 <= i < |a| ==> SameSplit(a[i], b[i])
    decreases |a|
  {
    hide EventText, EventHash, SameSplit;
    var m, n := |a| - 1, |b| - 1;
    LastEventsAgree(hash, a, b);
    if m > 0 {
      ChainPrefix(hash, a, m);
      ChainPrefix(hash, b, n);
      assert Texts(a[..m]) + Texts(b[..n]) <= Texts(a) + Texts(b);
      assert Linked(hash, a, m) && Linked(hash, b, n);
      LastHashBindsChain(hash, a[..m], b[..n]);
      PrefixesAndLast(a, b);
    } else {
      assert a == [a[m]] && b == [b[n]];
    }
  }

  lemma {:induction false} LastEventsAgree(hash: Hash, a: seq<AuditEvent>, b: seq<AuditEvent>)
    requires ChainOk(hash, a) && ChainOk(hash, b) && |a| > 0 && |b| > 0
    requires CollisionFree(hash, Texts(a) + Texts(b))
    requires a[|a| - 1].eventHash == b[|b| - 1].eventHash
    ensures |a| == |b|
    ensures var x, y := a[|a| - 1], b[|b| - 1];
            && EventText(x) == EventText(y) && x.occurredAt == y.occurredAt && x.previousHash == y.previousHash
            && (x == y <==> SameSplit(x, y))
  {
    var m, n := |a| - 1, |b| - 1;
    var x, y := a[m], b[n];
    assert Linked(hash, a, m) && Linked(hash, b, n);
    HexInjective(hash(EventText(x)), hash(EventText(y)));
    assert x in a && y in b && EventText(x) == EventText(y);
    HashLength(hash, a, m);
    HashLength(hash, b, n);
    TextFixesFrame(x, y);
    TextFixesEvent(hash, x, y);
  }

  lemma {:induction false} PrefixesAndLast(a: seq<AuditEvent>, b: seq<AuditEvent>)
    requires |a| == |b| > 0
    ensures a == b <==> a[..|a| - 1] == b[..|b| - 1] && a[|a| - 1] == b[|b| - 1]
    ensures forall i :: 0 <= i < |a| - 1 ==> a[i] == a[..|a| - 1][i] && b[i] == b[..|b| - 1][i]
  {
    assert a == a[..|a| - 1] + [a[|a| - 1]] && b == b[..|b| - 1] + [b[|b| - 1]];
  }

  lemma {:induction false} ChainPrefix(hash: Hash, events: seq<AuditEvent>, n: nat)
    requires ChainOk(hash, events) && n <= |events|
    ensures ChainOk(hash, events[..n])
  {
    forall i | 0 <= i < n ensures Linked(hash, events[..n], i) {
      assert Linked(hash, events, i);
    }
  }

  /** With no bar in any kind or actor, the last hash fixes the whole chain. */
  lemma {:induction false} BarFreeChainsEqual(hash: Hash, a: seq<AuditEvent>, b: seq<AuditEvent>)
    requires ChainOk(hash, a) && ChainOk(hash, b) && |a| > 0 && |b| > 0
    requires CollisionFree(hash, Texts(a) + Texts(b))
    requires a[|a| - 1].eventHash == b[|b| - 1].eventHash
    requires forall e :: e in a || e in b ==> BarFree(e.kind) && BarFree(e.actorId)
    ensures a == b
  {
    LastHashBindsChain(hash, a, b);
    forall i | 0 <= i < |a| ensures SameSplit(a[i], b[i]) {
      assert a[i] in a && b[i] in b;
      BarFreeHasNone(a[i].kind);
      BarFreeHasNone(b[i].kind);
      BarFreeHasNone(a[i].actorId);
      BarFreeHasNone(b[i].actorId);
    }
  }

  /** A bar inside a field lets two different chains of one event verify with the same hash. */
  lemma {:induction false} BarsCollide(hash: Hash) returns (a: seq<AuditEvent>, b: seq<AuditEvent>)
    ensures ChainOk(hash, a) && ChainOk(hash, b) && |a| == |b| == 1 && a != b
    ensures a[0].eventHash == b[0].eventHash
  {
    a := [Append(hash, None, 0, [1, BAR, 2], [3], [4])];
    b := [Append(hash, None, 0, [1], [2, BAR, 3], [4])];
    AppendKeepsChain(hash, [], 0, [1, BAR, 2], [3], [4]);
    AppendKeepsChain(hash, [], 0, [1], [2, BAR, 3], [4]);
    assert [] + a == a && [] + b == b;
    var f, g := Fields(a[0]), Fields(b[0]);
    JoinedFour(f[3..]);
    JoinedFour(g[3..]);
    assert [1, BAR, 2] + [BAR] + [3] == [1] + [BAR] + [2, BAR, 3];
    SameWhole(f, g, 3);
    assert a[0] != b[0];
  }

  lemma {:induction false} JoinedFour(f: seq<Bytes>)
    requires |f| == 4
    ensures Joined(f) == (f[0] + [BAR] + f[1]) + ([BAR] + f[2] + [BAR] + f[3])
  {
    assert f[1..][1..] == f[2..] && f[2..][1..] == f[3..] && f[3..] == [f[3]];
    assert Joined(f[2..]) == f[2] + [BAR] + f[3];
    assert Joined(f[1..]) == f[1] + [BAR] + Joined(f[2..]);
  }

  lemma {:induction false} SameWhole(f: seq<Bytes>, g: seq<Bytes>, n: nat)
    requires n < |f| == |g| && f[..n] == g[..n] && Joined(f[n..]) == Joined(g[n..])
    ensures Joined(f) == Joined(g)
    decreases n
  {
    if n > 0 {
      assert f[0] == f[..n][0] == g[..n][0] == g[0];
      assert f[1..][..n - 1] == f[..n][1..] && g[1..][..n - 1] == g[..n][1..];
      assert f[1..][n - 1..] == f[n..] && g[1..][n - 1..] == g[n..];
      SameWhole(f[1..], g[1..], n - 1);
    } else {
      assert f[n..] == f && g[n..] == g;
    }
  }

  // ---------- the day's Merkle root ----------

  function EventHashes(events: seq<AuditEvent>): seq<Bytes> {
    seq(|events|, i requires 0 <= i < |events| => events[i].eventHash)
  }

  function AuditRoot(hash: Hash, events: seq<AuditEvent>): Bytes {
    Hex(MerkleRoot(hash, EventHashes(events)))
  }

  /** The shortest roots: a fixed text's hash for no event, and hashes of event hashes, paired and hashed again. */
  lemma {:induction false} ShortRoots(hash: Hash, a: AuditEvent, b: AuditEvent)
    ensures AuditRoot(hash, []) == Hex(hash(Ascii("acm.audit.empty.v1")))
    ensures AuditRoot(hash, [a]) == Hex(hash(a.eventHash))
    ensures AuditRoot(hash, [a, b]) == Hex(hash(hash(a.eventHash) + hash(b.eventHash)))
  {
    hide Hex;
    assert EMPTY_INPUT == Ascii("acm.audit.empty.v1");
    assert EventHashes([a]) == [a.eventHash] && EventHashes([a, b]) == [a.eventHash, b.eventHash];
    JoinOne([Leaf(a.eventHash)]);
    assert Leaves([a.eventHash]) == [Leaf(a.eventHash)];
    var level := Leaves([a.eventHash, b.eventHash]);
    assert level == [Leaf(a.eventHash), Leaf(b.eventHash)] && Padded(level) == level;
    assert PairedTrees(level) == [Node(Leaf(a.eventHash), Leaf(b.eventHash))];
    JoinOne(PairedTrees(level));
    var pair := Node(Leaf(a.eventHash), Leaf(b.eventHash));
    assert TreeOf([a.eventHash, b.eventHash]) == Join(level) == pair;
    assert Pair(hash(a.eventHash), hash(b.eventHash)) == hash(a.eventHash) + hash(b.eventHash);
    assert DigestOf(hash, pair) == hash(hash(a.eventHash) + hash(b.eventHash));
  }

  /** Events of one chain never share a hash. */
  lemma {:induction false} ChainHashesDistinct(hash: Hash, events: seq<AuditEvent>)
    requires ChainOk(hash, events) && CollisionFree(hash, Texts(events))
    ensures Distinct(EventHashes(events))
  {
    forall i, j | 0 <= i < j < |events| ensures EventHashes(events)[i] != EventHashes(events)[j] {
      assert Linked(hash, events, i) && Linked(hash, events, j);
      if events[i].eventHash == events[j].eventHash {
        HexInjective(hash(EventText(events[i])), hash(EventText(events[j])));
        assert events[i] in events && events[j] in events;
        HashLength(hash, events, i);
        HashLength(hash, events, j);
        TextFixesFrame(events[i], events[j]);
      }
    }
  }

  /** Two verified chains with equal audit roots are identical exactly when their events split alike. */
  lemma {:induction false} RootBindsChain(hash: Hash, a: seq<AuditEvent>, b: seq<AuditEvent>)
    requires ChainOk(hash, a) && ChainOk(hash, b)
    requires CollisionFree(hash, Texts(a) + Texts(b)) && Comparable(hash, EventHashes(a), EventHashes(b))
    requires AuditRoot(hash, a) == AuditRoot(hash, b)
    ensures |a| == |b|
    ensures a == b <==> forall i :: 0 <= i < |a| ==> SameSplit(a[i], b[i])
  {
    ChainHashesDistinct(hash, a);
    ChainHashesDistinct(hash, b);
    HexInjective(MerkleRoot(hash, EventHashes(a)), MerkleRoot(hash, EventHashes(b)));
    RootBindsList(hash, EventHashes(a), EventHashes(b));
    assert |EventHashes(a)| == |EventHashes(b)|;
    if |a| > 0 {
      assert EventHashes(a)[|a| - 1] == EventHashes(b)[|b| - 1];
      LastHashBindsChain(hash, a, b);
    }
  }
}
