/** The replica-aware credit ledger and the price of storage. */
module Credit {
  import opened Wrappers
  import opened MachineIntegers
  import opened Sums

  const MILLI_PER_GIB_HOUR: nat := 1000

  datatype CreditReason = MonthlyBaseGrant | AuditedStorageEarned | ReplicatedStorageConsumed | Expired

  datatype CreditEntry = CreditEntry(
    idempotencyKey: string,
    milliGibHour: I64,
    reason: CreditReason,
    occurredAt: I64,
    expiresAt: Option<I64>)

  datatype CreditError = Overflow | Duplicate | Invalid

  // ---------- balances ----------

  predicate Live(e: CreditEntry, now: int) {
    e.expiresAt.None? || e.expiresAt.value > now
  }

  /** Adds the live amounts in order, giving up at the first sum that does not fit. */
  function Balance(entries: seq<CreditEntry>, now: int): Result<I64, CreditError> {
    if |entries| == 0 then Ok(0)
    else
      var e := entries[|entries| - 1];
      match Balance(entries[..|entries| - 1], now)
      case Err(error) => Err(error)
      case Ok(sum) =>
        if !Live(e, now) then Ok(sum)
        else
          match CheckedAddI64(sum, e.milliGibHour)
          case Some(total) => Ok(total)
          case None => Err(Overflow)
  }

  function LiveAmount(now: int): CreditEntry -> int {
    (e: CreditEntry) => if e.expiresAt == None || e.expiresAt.value > now then e.milliGibHour else 0
  }

  function Magnitude(): CreditEntry -> int {
    (e: CreditEntry) => Absolute(e.milliGibHour)
  }

  /** The exact sum of the amounts that have not expired. */
  function Exact(entries: seq<CreditEntry>, now: int): int {
    Sum(LiveAmount(now), entries)
  }

  /** A balance is given exactly when every running sum fits, and it is then the exact sum. */
  lemma {:induction false} BalanceIffRunningSumsFit(entries: seq<CreditEntry>, now: int)
    ensures Balance(entries, now).Ok? <==> forall n :: 0 <= n <= |entries| ==> FitsI64(Exact(entries[..n], now))
    ensures Balance(entries, now).Ok? ==> Balance(entries, now).value == Exact(entries, now)
    decreases |entries|
  {
    assert entries[..|entries|] == entries;
    if |entries| > 0 {
      var front := entries[..|entries| - 1];
      BalanceIffRunningSumsFit(front, now);
      assert forall n :: 0 <= n <= |front| ==> front[..n] == entries[..n];
      assert FitsI64(Exact(front, now)) <==> FitsI64(Exact(entries[..|front|], now));
    }
  }

  lemma {:induction false} MagnitudeBounds(entries: seq<CreditEntry>, now: int)
    ensures Absolute(Exact(entries, now)) <= Sum(Magnitude(), entries)
    decreases |entries|
  {
    if |entries| > 0 {
      MagnitudeBounds(entries[..|entries| - 1], now);
    }
  }

  lemma {:induction false} MagnitudeOfFront(entries: seq<CreditEntry>, n: nat)
    requires n <= |entries|
    ensures Sum(Magnitude(), entries[..n]) <= Sum(Magnitude(), entries)
    decreases |entries|
  {
    if n < |entries| {
      var front := entries[..|entries| - 1];
      MagnitudeOfFront(front, n);
      assert front[..n] == entries[..n];
    } else {
      assert entries[..n] == entries;
    }
  }

  /** While the total magnitude fits, every balance is the exact sum. */
  lemma {:induction false} BalanceExact(entries: seq<CreditEntry>, now: int)
    requires Sum(Magnitude(), entries) <= I64_MAX
    ensures Balance(entries, now) == Ok(Exact(entries, now))
  {
    forall n | 0 <= n <= |entries| ensures FitsI64(Exact(entries[..n], now)) {
      MagnitudeOfFront(entries, n);
      MagnitudeBounds(entries[..n], now);
    }
    BalanceIffRunningSumsFit(entries, now);
  }

  // ---------- recording ----------

  predicate HasKey(entries: seq<CreditEntry>, key: string) {
    exists i :: 0 <= i < |entries| && entries[i].idempotencyKey == key
  }

  function Refusal(entries: seq<CreditEntry>, e: CreditEntry): Option<CreditError> {
    if e.idempotencyKey == "" then Some(Invalid)
    else if HasKey(entries, e.idempotencyKey) then Some(Duplicate)
    else
      match Balance(entries, e.occurredAt)
      case Err(error) => Some(error)
      case Ok(sum) => if CheckedAddI64(sum, e.milliGibHour).None? then Some(Overflow) else None
  }

  /** An entry is refused for an empty key, else for a known one, else when its amount does not fit its own moment's balance. */
  lemma {:induction false} RefusalIff(entries: seq<CreditEntry>, e: CreditEntry)
    ensures Refusal(entries, e) == Some(Invalid) <==> e.idempotencyKey == ""
    ensures Refusal(entries, e) == Some(Duplicate) <==>
              e.idempotencyKey != "" && exists i :: 0 <= i < |entries| && entries[i].idempotencyKey == e.idempotencyKey
    ensures Refusal(entries, e) == None <==>
              && e.idempotencyKey != "" && (forall i :: 0 <= i < |entries| ==> entries[i].idempotencyKey != e.idempotencyKey)
              && (forall n :: 0 <= n <= |entries| ==> FitsI64(Exact(entries[..n], e.occurredAt)))
              && -0x8000_0000_0000_0000 <= Exact(entries, e.occurredAt) + e.milliGibHour <= 0x7FFF_FFFF_FFFF_FFFF
  {
    hide Exact;
    BalanceIffRunningSumsFit(entries, e.occurredAt);
    BalanceOverflows(entries, e.occurredAt);
  }

  lemma {:induction false} BalanceOverflows(entries: seq<CreditEntry>, now: int)
    ensures Balance(entries, now).Err? ==> Balance(entries, now).error == Overflow
    decreases |entries|
  {
    if |entries| > 0 {
      BalanceOverflows(entries[..|entries| - 1], now);
    }
  }

  function Recorded(entries: seq<CreditEntry>, e: CreditEntry): seq<CreditEntry> {
    if Refusal(entries, e).None? then entries + [e] else entries
  }

  predicate KeysUnique(entries: seq<CreditEntry>) {
    && (forall i :: 0 <= i < |entries| ==> entries[i].idempotencyKey != "")
    && forall i, j :: 0 <= i < j < |entries| ==> entries[i].idempotencyKey != entries[j].idempotencyKey
  }

  class CreditLedger {
    var entries: seq<CreditEntry>

    ghost predicate Valid()
      reads this
    {
      KeysUnique(entries)
    }

    constructor ()
      ensures Valid() && entries == []
    {
      entries := [];
    }

    method Record(e: CreditEntry) returns (r: Result<(), CreditError>)
      requires Valid()
      modifies this
      ensures Valid() && entries == Recorded(old(entries), e)
      ensures r == match Refusal(old(entries), e) case None => Ok(()) case Some(error) => Err(error)
    {
      var known := false;
      for i := 0 to |entries|
        invariant known <==> HasKey(entries[..i], e.idempotencyKey)
      {
        known := known || entries[i].idempotencyKey == e.idempotencyKey;
        assert entries[..i + 1] == entries[..i] + [entries[i]];
        assert forall k :: 0 <= k < i ==> entries[..i + 1][k] == entries[..i][k];
      }
      assert entries[..|entries|] == entries;
      if e.idempotencyKey == "" {
        return Err(Invalid);
      }
      if known {
        return Err(Duplicate);
      }
      var balance := BalanceAt(e.occurredAt);
      if balance.Err? {
        return Err(balance.error);
      }
      if CheckedAddI64(balance.value, e.milliGibHour).None? {
        return Err(Overflow);
      }
      entries := entries + [e];
      r := Ok(());
    }

    method BalanceAt(now: I64) returns (r: Result<I64, CreditError>)
      ensures r == Balance(entries, now)
    {
      var sum: I64 := 0;
      for i := 0 to |entries|
        invariant Balance(entries[..i], now) == Ok(sum)
      {
        assert entries[..i + 1][..i] == entries[..i];
        if Live(entries[i], now) {
          var total := CheckedAddI64(sum, entries[i].milliGibHour);
          if total.None? {
            BalanceFailsFrom(entries, i + 1, now);
            return Err(Overflow);
          }
          sum := total.value;
        }
      }
      assert entries[..|entries|] == entries;
      r := Ok(sum);
    }
  }

  /** Once a running sum does not fit, nothing later mends it. */
  lemma {:induction false} BalanceFailsFrom(entries: seq<CreditEntry>, n: nat, now: int)
    requires n <= |entries| && Balance(entries[..n], now) == Err(Overflow)
    ensures Balance(entries, now) == Err(Overflow)
    decreases |entries|
  {
    if n < |entries| {
      var front := entries[..|entries| - 1];
      assert front[..n] == entries[..n];
      BalanceFailsFrom(front, n, now);
    } else {
      assert entries[..n] == entries;
    }
  }

  /**
    Recording looks at one moment only, the entry's own. The balance at any other moment is
    given afterwards exactly when it was given before and the entry, if live then, still fits.
   */
  lemma {:induction false} RecordKeepsBalanceIff(entries: seq<CreditEntry>, e: CreditEntry, now: int)
    requires Refusal(entries, e).None?
    ensures Balance(Recorded(entries, e), now).Ok? <==>
              && Balance(entries, now).Ok?
              && (Live(e, now) ==> FitsI64(Exact(entries, now) + e.milliGibHour))
  {
    BalanceIffRunningSumsFit(entries, now);
    assert (entries + [e])[..|entries|] == entries;
  }

  /** An accepted entry after which an earlier balance overflows. */
  lemma {:induction false} RecordCanOverflowAnotherMoment() returns (entries: seq<CreditEntry>, e: CreditEntry)
    ensures Balance(entries, 5) == Ok(I64_MAX) && Refusal(entries, e).None?
    ensures Balance(Recorded(entries, e), 5) == Err(Overflow)
  {
    entries := [CreditEntry("grant", I64_MAX, MonthlyBaseGrant, 0, Some(10))];
    e := CreditEntry("audit", 1, AuditedStorageEarned, 10, None);
    assert entries[..0] == [];
    assert forall now :: Balance(entries[..0], now) == Ok(0);
    assert (entries + [e])[..1] == entries;
    assert Balance(entries, 10) == Ok(0);
  }

  // ---------- deliveries ----------

  /** What a ledger holds after a run of deliveries, refused ones included. */
  function Delivered(deliveries: seq<CreditEntry>): seq<CreditEntry> {
    if |deliveries| == 0 then []
    else Recorded(Delivered(deliveries[..|deliveries| - 1]), deliveries[|deliveries| - 1])
  }

  /** The first delivery under each key. */
  function FirstSeen(deliveries: seq<CreditEntry>): seq<CreditEntry> {
    if |deliveries| == 0 then []
    else
      var seen := FirstSeen(deliveries[..|deliveries| - 1]);
      var e := deliveries[|deliveries| - 1];
      if HasKey(seen, e.idempotencyKey) then seen else seen + [e]
  }

  /** Whenever the magnitudes of the distinct entries fit, exactly the first delivery of each key is recorded. */
  lemma {:induction false} DeliveredIsFirstSeen(deliveries: seq<CreditEntry>)
    requires forall e :: e in deliveries ==> e.idempotencyKey != ""
    requires Sum(Magnitude(), FirstSeen(deliveries)) <= I64_MAX
    ensures Delivered(deliveries) == FirstSeen(deliveries)
    decreases |deliveries|
  {
    if |deliveries| > 0 {
      var front, e := deliveries[..|deliveries| - 1], deliveries[|deliveries| - 1];
      var seen := FirstSeen(front);
      SumAppend(Magnitude(), seen, [e]);
      assert [e][..0] == [];
      assert Sum(Magnitude(), [e]) == Absolute(e.milliGibHour);
      DeliveredIsFirstSeen(front);
      BalanceExact(seen, e.occurredAt);
      MagnitudeBounds(seen, e.occurredAt);
    }
  }

  /** A key is never delivered with two different entries. */
  predicate Consistent(deliveries: seq<CreditEntry>) {
    forall a, b :: a in deliveries && b in deliveries && a.idempotencyKey == b.idempotencyKey ==> a == b
  }

  /** The list holds exactly what was delivered, each entry once. */
  ghost predicate HoldsEach(seen: seq<CreditEntry>, deliveries: seq<CreditEntry>) {
    forall e :: multiset(seen)[e] == if e in deliveries then 1 else 0
  }

  lemma {:induction false} FirstSeenHoldsEach(deliveries: seq<CreditEntry>)
    requires Consistent(deliveries)
    ensures HoldsEach(FirstSeen(deliveries), deliveries)
    decreases |deliveries|
  {
    hide HoldsEach;
    if |deliveries| > 0 {
      var front, e := deliveries[..|deliveries| - 1], deliveries[|deliveries| - 1];
      assert deliveries == front + [e];
      FirstSeenHoldsEach(front);
      HoldsOneMore(FirstSeen(front), front, e);
    } else {
      NothingHeld();
    }
  }

  lemma {:induction false} NothingHeld()
    ensures HoldsEach([], [])
  {
  }

  /** One more delivery is held already exactly when its key is. */
  lemma {:induction false} HoldsOneMore(seen: seq<CreditEntry>, front: seq<CreditEntry>, e: CreditEntry)
    requires HoldsEach(seen, front) && Consistent(front + [e])
    ensures HoldsEach(if HasKey(seen, e.idempotencyKey) then seen else seen + [e], front + [e])
  {
    assert forall d :: d in front + [e] <==> d in front || d == e;
    assert forall d :: d in multiset(seen) <==> d in front;
    if i :| 0 <= i < |seen| && seen[i].idempotencyKey == e.idempotencyKey {
      assert seen[i] in multiset(seen) && e in front + [e];
    } else {
      assert e !in seen;
    }
  }

  lemma {:induction false} FirstSeenKeysUnique(deliveries: seq<CreditEntry>)
    requires forall e :: e in deliveries ==> e.idempotencyKey != ""
    ensures KeysUnique(FirstSeen(deliveries))
    decreases |deliveries|
  {
    if |deliveries| > 0 {
      FirstSeenKeysUnique(deliveries[..|deliveries| - 1]);
      assert deliveries[|deliveries| - 1] in deliveries;
    }
  }

  /**
    Two runs of deliveries of the same keyed entries, in any order and with any redeliveries,
    leave the same entries, each once, and the same balance at every time.
   */
  lemma {:induction false} OrderAndRedeliveryDoNotMatter(a: seq<CreditEntry>, b: seq<CreditEntry>, now: int)
    requires Consistent(a) && (forall e :: e in a ==> e.idempotencyKey != "") && forall e :: e in a <==> e in b
    requires Sum(Magnitude(), FirstSeen(a)) <= I64_MAX
    ensures multiset(Delivered(a)) == multiset(Delivered(b)) && KeysUnique(Delivered(a))
    ensures forall e :: e in Delivered(a) <==> e in a
    ensures Balance(Delivered(a), now) == Balance(Delivered(b), now) == Ok(Exact(FirstSeen(a), now))
  {
    hide FirstSeen, Delivered, Balance, Sum, KeysUnique;
    FirstSeenHoldsEach(a);
    FirstSeenHoldsEach(b);
    FirstSeenKeysUnique(a);
    assert multiset(FirstSeen(a)) == multiset(FirstSeen(b));
    assert forall e :: e in FirstSeen(a) <==> e in multiset(FirstSeen(a));
    SumPermutation(Magnitude(), FirstSeen(a), FirstSeen(b));
    SumPermutation(LiveAmount(now), FirstSeen(a), FirstSeen(b));
    DeliveredIsFirstSeen(a);
    DeliveredIsFirstSeen(b);
    BalanceExact(FirstSeen(a), now);
    BalanceExact(FirstSeen(b), now);
  }

  // ---------- the price of storage ----------

  /** A byte-hour unit: one GiB for one hour, in byte seconds. */
  const GIB_HOUR: nat := 1024 * 1024 * 1024 * 3600

  function DivCeil(n: nat, d: nat): nat
    requires d > 0
  {
    n / d + if n % d > 0 then 1 else 0
  }

  function PhysicalStorageCost(bytes: U64, replicas: U32, seconds: U64): Result<I64, CreditError> {
    if replicas == 0 then Err(Invalid)
    else
      match CheckedMulU128(bytes, replicas)
      case None => Err(Overflow)
      case Some(copies) =>
        match CheckedMulU128(copies, seconds)
        case None => Err(Overflow)
        case Some(byteSeconds) =>
          match CheckedMulU128(byteSeconds, MILLI_PER_GIB_HOUR)
          case None => Err(Overflow)
          case Some(numerator) =>
            var cost := DivCeil(numerator, GIB_HOUR);
            if cost <= I64_MAX then Ok(cost) else Err(Overflow)
  }

  /** Milli byte seconds, which the cost measures in hours of 1,073,741,824 bytes. */
  function Usage(bytes: nat, replicas: nat, seconds: nat): nat {
    bytes * replicas * seconds * 1_000
  }

  /** `c` is the least whole number of units that covers `n`. */
  predicate IsCeiling(c: int, n: nat) {
    (c - 1) * 3_865_470_566_400 < n <= c * 3_865_470_566_400
  }

  lemma {:induction false} DivCeilIsCeiling(n: nat)
    ensures IsCeiling(DivCeil(n, GIB_HOUR), n)
    ensures forall c :: IsCeiling(c, n) ==> c == DivCeil(n, GIB_HOUR)
  {
  }

  lemma {:induction false} ProductBound(a: nat, b: nat, x: nat, y: nat)
    requires a <= x && b <= y
    ensures a * b <= x * y
  {
    assert a * b <= x * b <= x * y;
  }

  lemma {:induction false} HugeUsage(n: nat, c: int)
    requires IsCeiling(c, n) && n > U128_MAX
    ensures c > I64_MAX
  {
    assert U128_MAX > I64_MAX * GIB_HOUR;
  }

  /** The cost is given exactly when the exact ceiling fits, and it is then that ceiling. */
  lemma {:induction false} CostIsExactCeiling(bytes: U64, replicas: U32, seconds: U64, c: int)
    requires IsCeiling(c, Usage(bytes, replicas, seconds))
    ensures PhysicalStorageCost(bytes, replicas, seconds) ==
            if replicas == 0 then Err(Invalid) else if c <= I64_MAX then Ok(c) else Err(Overflow)
  {
    hide DivCeil, IsCeiling;
    var n := Usage(bytes, replicas, seconds);
    ProductBound(bytes, replicas, U64_MAX, U32_MAX);
    DivCeilIsCeiling(n);
    if n > U128_MAX {
      HugeUsage(n, c);
    }
  }

  /** More bytes, copies or time never cost less, and whatever a larger use can be charged for, a smaller one can. */
  lemma {:induction false} CostMonotone(bytes: U64, replicas: U32, seconds: U64, moreBytes: U64, moreReplicas: U32,
          moreSeconds: U64)
    requires 0 < replicas <= moreReplicas && bytes <= moreBytes && seconds <= moreSeconds
    requires PhysicalStorageCost(moreBytes, moreReplicas, moreSeconds).Ok?
    ensures PhysicalStorageCost(bytes, replicas, seconds).Ok?
    ensures PhysicalStorageCost(bytes, replicas, seconds).value <= PhysicalStorageCost(moreBytes, moreReplicas, moreSeconds).value
  {
    hide PhysicalStorageCost, DivCeil;
    ProductBound(bytes, replicas, moreBytes, moreReplicas);
    ProductBound(bytes * replicas, seconds, moreBytes * moreReplicas, moreSeconds);
    var less, more := Usage(bytes, replicas, seconds), Usage(moreBytes, moreReplicas, moreSeconds);
    DivCeilIsCeiling(less);
    DivCeilIsCeiling(more);
    CostIsExactCeiling(bytes, replicas, seconds, DivCeil(less, GIB_HOUR));
    CostIsExactCeiling(moreBytes, moreReplicas, moreSeconds, DivCeil(more, GIB_HOUR));
  }

  lemma {:induction false} SplitCeiling(x: nat, y: nat)
    ensures DivCeil(x + y, GIB_HOUR) <= DivCeil(x, GIB_HOUR) + DivCeil(y, GIB_HOUR) <= DivCeil(x + y, GIB_HOUR) + 1
  {
    DivCeilIsCeiling(x);
    DivCeilIsCeiling(y);
    DivCeilIsCeiling(x + y);
  }

  /** What is to be charged for, and what it costs. */
  datatype Hold = Hold(bytes: U64, replicas: U32, seconds: U64) {
    function Cost(): Result<I64, CreditError> {
      PhysicalStorageCost(bytes, replicas, seconds)
    }

    function Milli(): nat {
      Usage(bytes, replicas, seconds)
    }
  }

  /** Charging apart what divides a use costs at least the whole and at most one unit more. */
  lemma {:induction false} CostOfParts(whole: Hold, one: Hold, other: Hold)
    requires one.replicas > 0 && other.replicas > 0 && whole.replicas > 0
    requires whole.Milli() == one.Milli() + other.Milli() && whole.Cost().Ok?
    ensures one.Cost().Ok? && other.Cost().Ok?
    ensures whole.Cost().value <= one.Cost().value + other.Cost().value <= whole.Cost().value + 1
  {
    hide PhysicalStorageCost, DivCeil, Usage;
    var x, y, z := one.Milli(), other.Milli(), whole.Milli();
    SplitCeiling(x, y);
    DivCeilIsCeiling(x);
    DivCeilIsCeiling(y);
    DivCeilIsCeiling(z);
    CostIsExactCeiling(one.bytes, one.replicas, one.seconds, DivCeil(x, GIB_HOUR));
    CostIsExactCeiling(other.bytes, other.replicas, other.seconds, DivCeil(y, GIB_HOUR));
    CostIsExactCeiling(whole.bytes, whole.replicas, whole.seconds, DivCeil(z, GIB_HOUR));
  }

  /** Dividing the bytes, or the copies, or the time, divides the use. */
  lemma {:induction false} PartsDivideUse(a: nat, b: nat, y: nat, z: nat)
    ensures Usage(a + b, y, z) == Usage(a, y, z) + Usage(b, y, z)
    ensures Usage(y, a + b, z) == Usage(y, a, z) + Usage(y, b, z)
    ensures Usage(y, z, a + b) == Usage(y, z, a) + Usage(y, z, b)
  {
    UsageSplits(a, b, y);
    UsageSplits(a * y, b * y, z);
    UsageSplits(y * a, y * b, z);
    UsageSplits(a, b, y * z);
  }

  lemma {:induction false} UsageSplits(a: nat, b: nat, c: nat)
    ensures (a + b) * c == a * c + b * c && c * (a + b) == c * a + c * b
  {
  }
}
