/** Settlement instructions: a payer's signed order to pay a manifest's price out to its recipients. */
module Settlement {
  import opened Wrappers
  import opened ByteStrings
  import opened MachineIntegers
  import opened Identity
  import opened Order
  import opened Sums
  import opened Capability

  datatype InstructionBody = InstructionBody(
    instructionVersion: U16,
    capabilityId: CapabilityId,
    executionId: Bytes,
    currency: Bytes,
    totalMinor: U64,
    allocations: seq<Allocation>,
    idempotencyKey: Bytes,
    issuedAt: I64,
    expiresAt: I64,
    payerPublicKey: PublicKey)

  type InstructionId = HashedId<InstructionBody>

  datatype SettlementInstruction = SettlementInstruction(
    body: InstructionBody,
    instructionId: InstructionId,
    signature: Signature<(InstructionBody, InstructionId)>)

  datatype SettlementError =
    | Invalid
    | BadAllocation
    | Time
    | BadSignature
    | CapabilityFailed(reason: CapabilityError)

  const EXECUTION_PREFIX: Bytes := [101, 120, 101, 95]

  function RecipientKey(a: Allocation): Key {
    (a.recipientId, [])
  }

  function CheckedTotal(allocations: seq<Allocation>): Option<U64> {
    if |allocations| == 0 then Some(0)
    else
      match CheckedTotal(allocations[..|allocations| - 1])
      case None => None
      case Some(sum) => CheckedAddU64(sum, allocations[|allocations| - 1].amountMinor)
  }

  predicate AllocationsOrdered(allocations: seq<Allocation>) {
    && allocations != []
    && Ascending(RecipientKey, allocations)
    && forall a :: a in allocations ==> a.recipientId != [] && a.amountMinor > 0
  }

  predicate TermsOk(b: InstructionBody) {
    && EXECUTION_PREFIX <= b.executionId
    && |b.idempotencyKey| >= 16
    && b.issuedAt >= 0
    && b.expiresAt > b.issuedAt
  }

  function Validate(b: InstructionBody, m: CapabilityManifest): Result<(), SettlementError> {
    match Capability.Verify(m)
    case Err(e) => Err(CapabilityFailed(e))
    case Ok(_) =>
      match CheckedTotal(b.allocations)
      case None => Err(BadAllocation)
      case Some(total) =>
        if || b.instructionVersion != 1
           || b.capabilityId != m.capabilityId
           || b.currency != m.body.currency
           || b.totalMinor != m.body.priceMinor
           || total != b.totalMinor
           || !AllocationsOrdered(b.allocations)
           || !TermsOk(b)
        then Err(BadAllocation)
        else Ok(())
  }

  function Sign(b: InstructionBody): SettlementInstruction {
    var id := HashedId(b);
    SettlementInstruction(b, id, Signature(b.payerPublicKey, (b, id)))
  }

  /** What the payer orders, before its allocations are known. */
  function Draft(m: CapabilityManifest, executionId: Bytes, idempotencyKey: Bytes, issuedAt: I64, expiresAt: I64,
          payer: PublicKey)
    : InstructionBody
  {
    InstructionBody(1, m.capabilityId, executionId, m.body.currency, m.body.priceMinor, [], idempotencyKey, issuedAt, expiresAt, payer)
  }

  function Issue(m: CapabilityManifest, executionId: Bytes, idempotencyKey: Bytes, issuedAt: I64, expiresAt: I64,
          payer: PublicKey)
    : Result<SettlementInstruction, SettlementError>
  {
    match Capability.Verify(m)
    case Err(e) => Err(CapabilityFailed(e))
    case Ok(_) =>
      var allocations := Sort(RecipientKey, Allocations(m.body.priceMinor, m.body.splits));
      var b := Draft(m, executionId, idempotencyKey, issuedAt, expiresAt, payer).(allocations := allocations);
      match Validate(b, m)
      case Err(e) => Err(e)
      case Ok(_) => Ok(Sign(b))
  }

  function Verify(s: SettlementInstruction, m: CapabilityManifest, now: I64): Result<(), SettlementError> {
    match Validate(s.body, m)
    case Err(e) => Err(e)
    case Ok(_) =>
      if now < s.body.issuedAt || now > s.body.expiresAt then Err(Time)
      else if s.instructionId != HashedId(s.body) then Err(SettlementError.Invalid)
      else if !Verifies(s.body.payerPublicKey, (s.body, s.instructionId), s.signature) then Err(SettlementError.BadSignature)
      else Ok(())
  }

  // ---------- what is checked ----------

  lemma {:induction false} CheckedTotalIsSum(allocations: seq<Allocation>)
    ensures Sum(Paid(), allocations) >= 0
    ensures CheckedTotal(allocations) == if Sum(Paid(), allocations) <= U64_MAX then Some(Sum(Paid(), allocations)) else None
    decreases |allocations|
  {
    if |allocations| > 0 {
      CheckedTotalIsSum(allocations[..|allocations| - 1]);
    }
  }

  /**
    Whoever signs what, an instruction verifies exactly when its payer's key made the signature,
    over this body and its own identifier, within its time, and the body pays out the whole price
    of a manifest that verifies, in that manifest's currency, under an identifier and a key.
   */
  lemma {:induction false} VerifiesIff(body: InstructionBody, id: InstructionId, k: PublicKey, signed: InstructionBody,
          signedId: InstructionId, m: CapabilityManifest, now: I64)
    ensures Verify(SettlementInstruction(body, id, Signature(k, (signed, signedId))), m, now).Ok? <==>
              && k == body.payerPublicKey && signed == body && signedId == id == HashedId(body)
              && Capability.Verify(m).Ok? && body.capabilityId == m.capabilityId
              && body.instructionVersion == 1 && body.currency == m.body.currency
              && body.totalMinor == m.body.priceMinor == Sum(Paid(), body.allocations)
              && body.allocations != [] && Ascending(RecipientKey, body.allocations)
              && (forall a :: a in body.allocations ==> a.recipientId != [] && a.amountMinor > 0)
              && [101, 120, 101, 95] <= body.executionId && |body.idempotencyKey| >= 16
              && 0 <= body.issuedAt < body.expiresAt && body.issuedAt <= now <= body.expiresAt
  {
    hide Ascending, Sum, Capability.Verify;
    CheckedTotalIsSum(body.allocations);
  }

  /** Any positive payments to different recipients that total the price verify, whatever the manifest's own splits. */
  lemma {:induction false} AnyDivisionOfThePriceVerifies(m: CapabilityManifest, b: InstructionBody,
          allocations: seq<Allocation>, now: I64)
    requires Capability.Verify(m).Ok? && TermsOk(b)
    requires b.instructionVersion == 1 && b.capabilityId == m.capabilityId
    requires b.currency == m.body.currency && b.totalMinor == m.body.priceMinor
    requires b.issuedAt <= now <= b.expiresAt
    ensures Verify(Sign(b.(allocations := allocations)), m, now).Ok? <==>
              AllocationsOrdered(allocations) && Sum(Paid(), allocations) == m.body.priceMinor
  {
    CheckedTotalIsSum(allocations);
  }

  /** A verified instruction need not pay what the manifest allocates. */
  lemma {:induction false} OtherPaymentsVerify(m: CapabilityManifest, issued: SettlementInstruction, now: I64)
    returns (other: SettlementInstruction)
    requires Verify(issued, m, now).Ok?
    ensures Verify(other, m, now).Ok? && other.body.capabilityId == issued.body.capabilityId
    ensures multiset(other.body.allocations) != multiset(Allocations(m.body.priceMinor, m.body.splits))
  {
    hide Allocations, IsCidText, SplitsOk;
    var recipient: Bytes := if Allocation([1], m.body.priceMinor) in Allocations(m.body.priceMinor, m.body.splits) then [2] else [1];
    var b := issued.body.(allocations := [Allocation(recipient, m.body.priceMinor)]);
    other := Sign(b);
    assert b.allocations[..0] == [];
    assert Sum(Paid(), b.allocations) == m.body.priceMinor;
    AnyDivisionOfThePriceVerifies(m, b, b.allocations, now);
    var all := Allocations(m.body.priceMinor, m.body.splits);
    if recipient == [2] {
      assert Allocation([1], m.body.priceMinor) in multiset(all);
    } else {
      assert Allocation([1], m.body.priceMinor) !in multiset(all);
      assert Allocation([1], m.body.priceMinor) in multiset(b.allocations);
    }
  }

  // ---------- issuing ----------

  predicate RecipientsDistinct(splits: seq<RevenueSplit>) {
    forall i, j :: 0 <= i < j < |splits| ==> splits[i].recipientId != splits[j].recipientId
  }

  lemma {:induction false} SplitsNonEmpty(splits: seq<RevenueSplit>)
    requires SplitsOk(splits)
    ensures |splits| > 0
  {
  }

  /** Sorting the allocations pays the same recipients the same amounts. */
  lemma {:induction false} SortedPaysTheSame(all: seq<Allocation>)
    ensures multiset(Sort(RecipientKey, all)) == multiset(all)
    ensures Sum(Paid(), Sort(RecipientKey, all)) == Sum(Paid(), all)
  {
    hide Sort, Sum;
    SortSpec(RecipientKey, all);
    SumPermutation(Paid(), Sort(RecipientKey, all), all);
  }

  lemma {:induction false} AllocationRecipients(price: U64, splits: seq<RevenueSplit>)
    requires SplitsOk(splits)
    ensures |Allocations(price, splits)| == |splits|
    ensures forall a :: a in Allocations(price, splits) ==> a.recipientId != []
    ensures KeysDistinct(RecipientKey, Allocations(price, splits)) <==> RecipientsDistinct(splits)
  {
    hide WrapU64, ShareOf, Remainder;
    var all := Allocations(price, splits);
    assert forall i :: 0 <= i < |all| ==> all[i].recipientId == splits[i].recipientId && splits[i] in splits;
  }

  /** Sorted, the allocations are in order exactly when recipients differ and each is paid something. */
  lemma {:induction false} SortedOrderedIff(price: U64, splits: seq<RevenueSplit>)
    requires SplitsOk(splits)
    ensures AllocationsOrdered(Sort(RecipientKey, Allocations(price, splits))) <==>
              RecipientsDistinct(splits) && forall a :: a in Allocations(price, splits) ==> a.amountMinor > 0
  {
    hide Ascending, Sort, Allocations, SplitsOk, RecipientsDistinct, KeysDistinct;
    var all := Allocations(price, splits);
    var sorted := Sort(RecipientKey, all);
    SplitsNonEmpty(splits);
    SortedPaysTheSame(all);
    SortAscendsIff(RecipientKey, all);
    AllocationRecipients(price, splits);
    assert forall a :: a in sorted <==> a in multiset(sorted);
    assert forall a :: a in all <==> a in multiset(all);
    assert |sorted| == |multiset(sorted)| == |multiset(all)| == |all|;
  }

  /**
    When a settlement is issued. It then pays every recipient what the manifest allocates and
    exactly the price in all, and it verifies from its first second to its last and at no
    other time.
   */
  lemma {:induction false} IssueSucceedsIff(m: CapabilityManifest, executionId: Bytes, key: Bytes, issuedAt: I64,
          expiresAt: I64, payer: PublicKey, now: I64)
    ensures Issue(m, executionId, key, issuedAt, expiresAt, payer).Ok? <==>
              && Capability.Verify(m).Ok? && Conserves(m.body.priceMinor, m.body.splits)
              && RecipientsDistinct(m.body.splits)
              && (forall a :: a in Allocations(m.body.priceMinor, m.body.splits) ==> a.amountMinor > 0)
              && EXECUTION_PREFIX <= executionId && |key| >= 16 && 0 <= issuedAt < expiresAt
    ensures Issue(m, executionId, key, issuedAt, expiresAt, payer).Ok? ==>
              var s := Issue(m, executionId, key, issuedAt, expiresAt, payer).value;
              && multiset(s.body.allocations) == multiset(Allocations(m.body.priceMinor, m.body.splits))
              && Sum(Paid(), s.body.allocations) == m.body.priceMinor
              && Verify(s, m, now) == if issuedAt <= now <= expiresAt then Ok(()) else Err(Time)
  {
    hide Allocations, IsCidText, SplitsOk, Sum, Sort, AllocationsOrdered, Remainder, RecipientsDistinct;
    if Capability.Verify(m).Ok? {
      var price, splits := m.body.priceMinor, m.body.splits;
      SplitsNonEmpty(splits);
      SortedPaysTheSame(Allocations(price, splits));
      SortedOrderedIff(price, splits);
      AllocationsTotalIff(price, splits);
      CheckedTotalIsSum(Sort(RecipientKey, Allocations(price, splits)));
    }
  }

  /** For at most 10,000 splits the price is always conserved, so the rest decides. */
  lemma {:induction false} IssueConserves(m: CapabilityManifest, executionId: Bytes, key: Bytes, issuedAt: I64,
          expiresAt: I64, payer: PublicKey)
    requires |m.body.splits| <= WHOLE && Capability.Verify(m).Ok?
    ensures Issue(m, executionId, key, issuedAt, expiresAt, payer).Ok? <==>
              && RecipientsDistinct(m.body.splits)
              && (forall a :: a in Allocations(m.body.priceMinor, m.body.splits) ==> a.amountMinor > 0)
              && EXECUTION_PREFIX <= executionId && |key| >= 16 && 0 <= issuedAt < expiresAt
  {
    AllocationsConserve(m);
    IssueSucceedsIff(m, executionId, key, issuedAt, expiresAt, payer, issuedAt);
  }
}
