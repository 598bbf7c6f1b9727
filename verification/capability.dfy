/** Signed capability manifests and the exact division of their price. */
module Capability {
  import opened Wrappers
  import opened ByteStrings
  import opened MachineIntegers
  import opened Identity
  import opened Order
  import opened Sums

  datatype OfferingKind =
    | Release
    | Access
    | Query
    | CapabilityInvocation
    | ContinuousFeed
    | AttestedResult
    | OutcomeContract

  datatype RevenueSplit = RevenueSplit(recipientId: Bytes, role: Bytes, basisPoints: U16)

  datatype ManifestBody = ManifestBody(
    manifestVersion: U16,
    creatorPublicKey: PublicKey,
    kind: OfferingKind,
    title: Bytes,
    packageCid: Bytes,
    executionPolicyCid: Bytes,
    currency: Bytes,
    priceMinor: U64,
    splits: seq<RevenueSplit>,
    issuedAt: I64,
    expiresAt: I64)

  /** `cap_` and the hash of a manifest's identity bytes. */
  datatype CapabilityId = CapabilityId(manifest: ManifestBody)

  datatype CapabilityManifest = CapabilityManifest(
    body: ManifestBody,
    capabilityId: CapabilityId,
    signature: Signature<(ManifestBody, CapabilityId)>)

  datatype CapabilityError = Invalid | Splits | BadSignature

  const WHOLE: nat := 10000

  function SplitKey(s: RevenueSplit): Key {
    (s.recipientId, s.role)
  }

  predicate SplitOk(s: RevenueSplit) {
    s.recipientId != [] && s.role != [] && s.basisPoints > 0
  }

  function BasisPoints(): RevenueSplit -> int {
    (s: RevenueSplit) => s.basisPoints
  }

  /** The total is added up in 32 bits, so it wraps. */
  predicate SplitsOk(splits: seq<RevenueSplit>) {
    && splits != []
    && (forall s :: s in splits ==> SplitOk(s))
    && Ascending(SplitKey, splits)
    && Sum(BasisPoints(), splits) % (U32_MAX + 1) == WHOLE
  }

  predicate HeaderOk(b: ManifestBody) {
    && b.manifestVersion == 1
    && b.title != []
    && |b.currency| == 3
    && b.priceMinor != 0
    && b.issuedAt >= 0
    && b.expiresAt > b.issuedAt
    && IsCidText(b.packageCid)
    && IsCidText(b.executionPolicyCid)
  }

  function ValidateShape(b: ManifestBody): Result<(), CapabilityError> {
    if !HeaderOk(b) then Err(Invalid)
    else if !SplitsOk(b.splits) then Err(Splits)
    else Ok(())
  }

  function Sign(b: ManifestBody): CapabilityManifest {
    var id := CapabilityId(b);
    CapabilityManifest(b, id, Signature(b.creatorPublicKey, (b, id)))
  }

  function Issue(draft: ManifestBody): Result<CapabilityManifest, CapabilityError> {
    var b := draft.(manifestVersion := 1, splits := Sort(SplitKey, draft.splits));
    match ValidateShape(b)
    case Err(e) => Err(e)
    case Ok(_) => Ok(Sign(b))
  }

  function Verify(m: CapabilityManifest): Result<(), CapabilityError> {
    match ValidateShape(m.body)
    case Err(e) => Err(e)
    case Ok(_) =>
      if m.capabilityId != CapabilityId(m.body) then Err(Invalid)
      else if !Verifies(m.body.creatorPublicKey, (m.body, m.capabilityId), m.signature) then Err(BadSignature)
      else Ok(())
  }

  /**
    Whoever signs what, a manifest verifies exactly when its creator's key made the signature,
    over this body and its own identifier, and the body is of version 1, names its price, its
    currency and its packages, lasts some time, and has splits in order that add up to 10,000.
   */
  lemma {:induction false} VerifiesIff(body: ManifestBody, id: CapabilityId, k: PublicKey, signed: ManifestBody, signedId: CapabilityId)
    ensures Verify(CapabilityManifest(body, id, Signature(k, (signed, signedId)))).Ok? <==>
              && k == body.creatorPublicKey && signed == body && signedId == id == CapabilityId(body)
              && body.manifestVersion == 1 && body.title != [] && |body.currency| == 3 && body.priceMinor > 0
              && 0 <= body.issuedAt < body.expiresAt && IsCidText(body.packageCid) && IsCidText(body.executionPolicyCid)
              && body.splits != [] && Ascending(SplitKey, body.splits)
              && (forall s :: s in body.splits ==> s.recipientId != [] && s.role != [] && s.basisPoints > 0)
              && Sum(BasisPoints(), body.splits) % 0x1_0000_0000 == 10_000
  {
    hide Ascending, IsCidText, Sum;
  }

  /** Splits given in any order pass the check once sorted exactly when no recipient has a role twice and they total the whole. */
  lemma {:induction false} SortedSplitsOkIff(splits: seq<RevenueSplit>)
    ensures multiset(Sort(SplitKey, splits)) == multiset(splits)
    ensures SplitsOk(Sort(SplitKey, splits)) <==>
              && splits != [] && (forall s :: s in splits ==> SplitOk(s)) && KeysDistinct(SplitKey, splits)
              && Sum(BasisPoints(), splits) % (U32_MAX + 1) == WHOLE
  {
    hide SplitOk, KeysDistinct, Ascending, Sort, Sum;
    var sorted := Sort(SplitKey, splits);
    SortSpec(SplitKey, splits);
    SortAscendsIff(SplitKey, splits);
    SumPermutation(BasisPoints(), sorted, splits);
    assert forall s :: s in sorted <==> s in multiset(sorted);
    assert forall s :: s in splits <==> s in multiset(splits);
    assert |sorted| == |multiset(sorted)| == |multiset(splits)| == |splits|;
  }

  /** When a manifest is issued; its splits are then those given, and it verifies. */
  lemma {:induction false} IssueSucceedsIff(draft: ManifestBody)
    ensures Issue(draft).Ok? <==>
              && HeaderOk(draft.(manifestVersion := 1)) && draft.splits != []
              && (forall s :: s in draft.splits ==> SplitOk(s)) && KeysDistinct(SplitKey, draft.splits)
              && Sum(BasisPoints(), draft.splits) % (U32_MAX + 1) == WHOLE
    ensures Issue(draft).Ok? ==>
              && Verify(Issue(draft).value).Ok?
              && multiset(Issue(draft).value.body.splits) == multiset(draft.splits)
  {
    hide SplitsOk, SplitOk, KeysDistinct, Sort, Sum, IsCidText;
    SortedSplitsOkIff(draft.splits);
  }

  // ---------- dividing the price ----------

  datatype Allocation = Allocation(recipientId: Bytes, amountMinor: U64)

  /** A share of the price, rounded down, computed with a saturating product. */
  function ShareOf(price: U64, basisPoints: U16): U64 {
    SaturatingMulU64(price, basisPoints) / WHOLE
  }

  function Share(price: U64): RevenueSplit -> int {
    (s: RevenueSplit) => ShareOf(price, s.basisPoints)
  }

  function Paid(): Allocation -> int {
    (x: Allocation) => x.amountMinor
  }

  /** What is left for the last split once the others have their shares; in 64 bits this wraps. */
  function Remainder(price: U64, splits: seq<RevenueSplit>): int
    requires |splits| > 0
  {
    price - Sum(Share(price), splits[..|splits| - 1])
  }

  function Allocations(price: U64, splits: seq<RevenueSplit>): (r: seq<Allocation>)
    ensures |r| == |splits|
  {
    seq(|splits|, i requires 0 <= i < |splits| => AllocationAt(price, splits, i))
  }

  function AllocationAt(price: U64, splits: seq<RevenueSplit>, i: nat): Allocation
    requires i < |splits|
  {
    Allocation(
      splits[i].recipientId,
      if i + 1 == |splits| then WrapU64(Remainder(price, splits)) else ShareOf(price, splits[i].basisPoints))
  }

  lemma {:induction false} AllocationsAre(price: U64, splits: seq<RevenueSplit>, values: seq<Allocation>)
    requires |values| == |splits| && forall i :: 0 <= i < |splits| ==> values[i] == AllocationAt(price, splits, i)
    ensures values == Allocations(price, splits)
  {
    hide AllocationAt;
  }

  /** The last split takes what the others leave, so nothing is lost to rounding. */
  method Allocate(m: CapabilityManifest) returns (r: Result<seq<Allocation>, CapabilityError>)
    ensures r == match Verify(m) case Err(e) => Err(e) case Ok(_) => Ok(Allocations(m.body.priceMinor, m.body.splits))
  {
    hide WrapU64, ShareOf, ValidateShape, Allocations;
    var verified := Verify(m);
    if verified.Err? {
      return Err(verified.error);
    }
    var price, splits := m.body.priceMinor, m.body.splits;
    var givenOut: U64 := 0;
    var values: seq<Allocation> := [];
    for index := 0 to |splits|
      invariant index < |splits| ==> givenOut == WrapU64(Sum(Share(price), splits[..index]))
      invariant |values| == index
      invariant forall i :: 0 <= i < index ==> values[i] == AllocationAt(price, splits, i)
    {
      var amount: U64;
      if index + 1 == |splits| {
        amount := WrapU64(price - givenOut);
        WrapOfDifference(price, Sum(Share(price), splits[..index]));
      } else {
        amount := ShareOf(price, splits[index].basisPoints);
        WrapOfSum(Sum(Share(price), splits[..index]), amount);
        assert splits[..index + 1][..index] == splits[..index];
      }
      givenOut := WrapU64(givenOut + amount);
      values := values + [Allocation(splits[index].recipientId, amount)];
    }
    AllocationsAre(price, splits, values);
    r := Ok(values);
  }

  lemma {:induction false} WrapOfDifference(a: int, b: int)
    ensures WrapU64(a - WrapU64(b)) == WrapU64(a - b)
  {
    var m := U64_MAX + 1;
    assert a - b == a - b % m - m * (b / m);
    WrapShift(a - b % m, -(b / m));
  }

  lemma {:induction false} WrapOfSum(a: int, b: int)
    ensures WrapU64(WrapU64(a) + b) == WrapU64(a + b)
  {
    var m := U64_MAX + 1;
    WrapShift(a % m + b, a / m);
  }

  lemma {:induction false} WrapShift(a: int, k: int)
    ensures WrapU64(a + k * (U64_MAX + 1)) == WrapU64(a)
  {
  }

  // ---------- the division is exact ----------

  /** The shares of all but the last leave it something. */
  predicate Conserves(price: U64, splits: seq<RevenueSplit>)
    requires |splits| > 0
  {
    Remainder(price, splits) >= 0
  }

  lemma {:induction false} ShareBounded(price: U64, basisPoints: U16)
    ensures ShareOf(price, basisPoints) * WHOLE <= price * basisPoints
  {
    assert SaturatingMulU64(price, basisPoints) <= price * basisPoints;
  }

  lemma {:induction false} Distribute(price: int, a: int, b: int)
    ensures price * (a + b) == price * a + price * b
  {
  }

  lemma {:induction false} ProductBound(price: nat, a: nat, b: nat)
    requires a <= b
    ensures price * a <= price * b
  {
  }

  lemma {:induction false} SharesBounded(price: U64, splits: seq<RevenueSplit>)
    ensures 0 <= Sum(Share(price), splits) && 0 <= Sum(BasisPoints(), splits)
    ensures Sum(Share(price), splits) * WHOLE <= price * Sum(BasisPoints(), splits)
    decreases |splits|
  {
    if |splits| > 0 {
      var front, last := splits[..|splits| - 1], splits[|splits| - 1];
      SharesBounded(price, front);
      ShareBounded(price, last.basisPoints);
      Distribute(price, Sum(BasisPoints(), front), last.basisPoints);
    }
  }

  lemma {:induction false} CountBounds(splits: seq<RevenueSplit>)
    requires forall s :: s in splits ==> SplitOk(s)
    ensures |splits| <= Sum(BasisPoints(), splits) <= 0xFFFF * |splits|
    decreases |splits|
  {
    if |splits| > 0 {
      CountBounds(splits[..|splits| - 1]);
      assert splits[|splits| - 1] in splits;
    }
  }

  /** Whether the 32-bit total wrapped shows in the number of splits. */
  lemma {:induction false} TotalExactIff(splits: seq<RevenueSplit>)
    requires SplitsOk(splits)
    ensures Sum(BasisPoints(), splits) == WHOLE <==> |splits| <= WHOLE
    ensures |splits| <= WHOLE || |splits| > 65537
  {
    CountBounds(splits);
  }

  lemma {:induction false} AmountsSum(price: U64, splits: seq<RevenueSplit>, n: nat)
    requires n < |splits|
    ensures Sum(Paid(), Allocations(price, splits)[..n]) == Sum(Share(price), splits[..n])
    decreases n
  {
    if n > 0 {
      var all := Allocations(price, splits);
      AmountsSum(price, splits, n - 1);
      assert all[..n][..n - 1] == all[..n - 1] && splits[..n][..n - 1] == splits[..n - 1];
    }
  }

  /** The amounts total the price exactly when the last share does not go below nothing. */
  lemma {:induction false} AllocationsTotalIff(price: U64, splits: seq<RevenueSplit>)
    requires |splits| > 0
    ensures Sum(Paid(), Allocations(price, splits)) == price <==> Conserves(price, splits)
    ensures Conserves(price, splits) ==> forall x :: x in Allocations(price, splits) ==> x.amountMinor <= price
    ensures !Conserves(price, splits) ==> Sum(Paid(), Allocations(price, splits)) > U64_MAX
  {
    var all, n := Allocations(price, splits), |splits| - 1;
    AmountsSum(price, splits, n);
    assert all[..|all| - 1] == all[..n];
    SharesBounded(price, splits[..n]);
    assert Sum(Paid(), all) == price - Remainder(price, splits) + WrapU64(Remainder(price, splits));
    if Conserves(price, splits) {
      forall x | x in all ensures x.amountMinor <= price {
        var i :| 0 <= i < |all| && all[i] == x;
        if i < n {
          ShareWithin(price, splits[..n], i);
        }
      }
    } else {
      WrapNegative(Remainder(price, splits), price);
    }
  }

  lemma {:induction false} WrapNegative(r: int, price: U64)
    requires r < 0
    ensures price - r + WrapU64(r) > U64_MAX
  {
    var m := U64_MAX + 1;
    assert WrapU64(r) - r == m * -(r / m);
    assert r / m <= -1;
  }

  lemma {:induction false} ShareWithin(price: U64, splits: seq<RevenueSplit>, i: nat)
    requires i < |splits|
    ensures Share(price)(splits[i]) <= Sum(Share(price), splits)
    decreases |splits|
  {
    SharesBounded(price, splits[..|splits| - 1]);
    if i < |splits| - 1 {
      ShareWithin(price, splits[..|splits| - 1], i);
    }
  }

  /** Every verified manifest of at most 10,000 splits conserves its price, whether or not products saturate. */
  lemma {:induction false} AllocationsConserve(m: CapabilityManifest)
    requires Verify(m).Ok? && |m.body.splits| <= WHOLE
    ensures Conserves(m.body.priceMinor, m.body.splits)
    ensures Sum(Paid(), Allocations(m.body.priceMinor, m.body.splits)) == m.body.priceMinor
  {
    var price, splits := m.body.priceMinor, m.body.splits;
    TotalExactIff(splits);
    SplitsConserve(price, splits);
    AllocationsTotalIff(price, splits);
  }

  lemma {:induction false} SplitsConserve(price: U64, splits: seq<RevenueSplit>)
    requires |splits| > 0 && Sum(BasisPoints(), splits) == WHOLE
    ensures Conserves(price, splits)
  {
    var front := splits[..|splits| - 1];
    SharesBounded(price, front);
    ProductBound(price, Sum(BasisPoints(), front), WHOLE);
  }

  /** Splits that pass the check conserve every price exactly when there are at most 10,000 of them. */
  lemma {:induction false} ConservesEveryPriceIff(splits: seq<RevenueSplit>)
    requires SplitsOk(splits)
    ensures (forall price: U64 :: Conserves(price, splits)) <==> |splits| <= WHOLE
  {
    TotalExactIff(splits);
    if |splits| <= WHOLE {
      forall price: U64 ensures Conserves(price, splits) {
        SplitsConserve(price, splits);
      }
    } else {
      var front := splits[..|splits| - 1];
      SharesAtWhole(front);
      CountBounds(splits);
      assert Sum(BasisPoints(), splits) >= U32_MAX + 1 + WHOLE;
      assert !Conserves(WHOLE, splits);
    }
  }

  lemma {:induction false} SharesAtWhole(splits: seq<RevenueSplit>)
    ensures Sum(Share(WHOLE), splits) == Sum(BasisPoints(), splits)
    decreases |splits|
  {
    if |splits| > 0 {
      SharesAtWhole(splits[..|splits| - 1]);
    }
  }

  /** Three bytes that sort as the number does. */
  function Numbered(i: nat): Bytes
    requires i < 0x1000000
  {
    [i / 0x10000, i / 0x100 % 0x100, i % 0x100]
  }

  lemma {:induction false} NumberedAscend(i: nat)
    requires i + 1 < 0x1000000
    ensures LexLess(Numbered(i), Numbered(i + 1))
  {
    var a, b := Numbered(i), Numbered(i + 1);
    DigitsCarry(i);
    ThreeAscend(a, b);
    assert a[2] != b[2];
  }

  lemma {:induction false} DigitsCarry(i: nat)
    requires i + 1 < 0x1000000
    ensures var a, b := Numbered(i), Numbered(i + 1);
            a[2] != b[2] && (a[0] < b[0] || (a[0] == b[0] && (a[1] < b[1] || (a[1] == b[1] && a[2] <= b[2]))))
  {
    var low, j := i % 0x100, i / 0x100;
    assert i == 0x100 * j + low;
    if low < 0xFF {
      assert (i + 1) / 0x100 == j && (i + 1) % 0x100 == low + 1;
    } else {
      assert (i + 1) / 0x100 == j + 1 && (i + 1) % 0x100 == 0;
    }
    assert i / 0x10000 == j / 0x100 && (i + 1) / 0x10000 == ((i + 1) / 0x100) / 0x100;
  }

  lemma {:induction false} ThreeAscend(a: Bytes, b: Bytes)
    requires |a| == |b| == 3
    requires a[0] < b[0] || (a[0] == b[0] && (a[1] < b[1] || (a[1] == b[1] && a[2] <= b[2])))
    ensures LexLe(a, b)
  {
    assert a[1..][1..] == [a[2]] && b[1..][1..] == [b[2]] && [a[2]][1..] == [];
    assert LexLe([a[2]], [b[2]]) <== a[2] <= b[2];
  }

  /** There are splits that pass the check only because their total wraps. */
  lemma {:induction false} WrappedTotalPasses() returns (splits: seq<RevenueSplit>)
    ensures SplitsOk(splits) && |splits| == 65538 && exists price: U64 :: !Conserves(price, splits)
  {
    hide LexLess, LexLe;
    var n := 65537;
    splits := seq(n, i requires 0 <= i < n => RevenueSplit(Numbered(i), [1], 0xFFFF)) + [RevenueSplit(Numbered(n), [1], 10001)];
    assert splits[..|splits| - 1] == splits[..n];
    EqualAmounts(splits[..n]);
    forall i | 0 <= i < |splits| - 1 ensures KeyLess(SplitKey(splits[i]), SplitKey(splits[i + 1])) {
      NumberedAscend(i);
      assert splits[i].recipientId == Numbered(i) && splits[i + 1].recipientId == Numbered(i + 1);
      assert Numbered(i)[2] != Numbered(i + 1)[2];
    }
    ConservesEveryPriceIff(splits);
  }

  lemma {:induction false} EqualAmounts(splits: seq<RevenueSplit>)
    requires forall s :: s in splits ==> s.basisPoints == 0xFFFF
    ensures Sum(BasisPoints(), splits) == 0xFFFF * |splits|
    decreases |splits|
  {
    if |splits| > 0 {
      EqualAmounts(splits[..|splits| - 1]);
      assert splits[|splits| - 1] in splits;
    }
  }

  // ---------- how close each share is ----------

  /** A share but the last is the exact floor as long as saturation does not lower it. */
  lemma {:induction false} ShareIsFloorIff(price: U64, s: RevenueSplit)
    ensures Share(price)(s) == price * s.basisPoints / WHOLE <==> price * s.basisPoints / WHOLE <= U64_MAX / WHOLE
  {
    var exact := price * s.basisPoints;
    if exact <= U64_MAX {
      assert exact / WHOLE <= U64_MAX / WHOLE;
    } else {
      assert exact / WHOLE >= U64_MAX / WHOLE;
    }
  }

  predicate Unsaturated(price: U64, splits: seq<RevenueSplit>) {
    forall s :: s in splits ==> price * s.basisPoints <= U64_MAX
  }

  /** Below saturation the last split gets at least its exact share, and less than one unit more for each split. */
  lemma {:induction false} LastShareBounds(price: U64, splits: seq<RevenueSplit>)
    requires |splits| > 0 && Sum(BasisPoints(), splits) == WHOLE
    requires Unsaturated(price, splits[..|splits| - 1])
    ensures var last := Allocations(price, splits)[|splits| - 1].amountMinor;
            price * splits[|splits| - 1].basisPoints <= last * WHOLE < price * splits[|splits| - 1].basisPoints + |splits| * WHOLE
  {
    hide Unsaturated, ShareOf, Allocations, Sum;
    var front, bp := splits[..|splits| - 1], splits[|splits| - 1].basisPoints;
    LastAmount(price, splits);
    assert Sum(BasisPoints(), splits) == Sum(BasisPoints(), front) + bp by {
      SumLast(splits);
    }
    SharesBounded(price, front);
    FloorsLoseLittle(price, front);
    Distribute(price, Sum(BasisPoints(), front), bp);
    LastBounds(price, Sum(Share(price), front), price * Sum(BasisPoints(), front), price * bp, |splits|);
  }

  /** Shares that total the whole leave the last split the price less the others. */
  lemma {:induction false} LastAmount(price: U64, splits: seq<RevenueSplit>)
    requires |splits| > 0 && Sum(BasisPoints(), splits) == WHOLE
    ensures Allocations(price, splits)[|splits| - 1].amountMinor == price - Sum(Share(price), splits[..|splits| - 1])
  {
    hide ShareOf;
    SplitsConserve(price, splits);
    SharesBounded(price, splits[..|splits| - 1]);
  }

  lemma {:induction false} SumLast(splits: seq<RevenueSplit>)
    requires |splits| > 0
    ensures Sum(BasisPoints(), splits) == Sum(BasisPoints(), splits[..|splits| - 1]) + splits[|splits| - 1].basisPoints
  {
  }

  lemma {:induction false} LastBounds(price: U64, shares: nat, front: nat, last: nat, n: nat)
    requires front + last == price * WHOLE && n > 0
    requires shares * WHOLE <= front <= shares * WHOLE + (n - 1) * (WHOLE - 1)
    ensures last <= (price - shares) * WHOLE < last + n * WHOLE
  {
  }

  lemma {:induction false} FloorsLoseLittle(price: U64, splits: seq<RevenueSplit>)
    requires Unsaturated(price, splits)
    ensures price * Sum(BasisPoints(), splits) <= Sum(Share(price), splits) * WHOLE + |splits| * (WHOLE - 1)
    decreases |splits|
  {
    if |splits| > 0 {
      var front, last := splits[..|splits| - 1], splits[|splits| - 1];
      FloorsLoseLittle(price, front);
      assert last in splits;
      var exact := price * last.basisPoints;
      assert exact <= exact / WHOLE * WHOLE + WHOLE - 1;
      Distribute(price, Sum(BasisPoints(), front), last.basisPoints);
    }
  }
}
