/** Federation bundles: sorted, signed exports whose Merkle root a target community receipts. */
module Federation {
  import opened Wrappers
  import opened ByteStrings
  import opened Identity
  import opened Order
  import opened Merkle

  datatype FederationError = Invalid | ItemOrder | BadSignature

  datatype ExportItem = ExportItem(category: Bytes, itemId: Bytes, contentCid: Bytes)

  datatype BundleBody = BundleBody(
    bundleVersion: nat,
    sourceCommunityId: Bytes,
    targetCommunityId: Option<Bytes>,
    ownerPublicKey: PublicKey,
    items: seq<ExportItem>,
    createdAt: int)

  type BundleId = HashedId<BundleBody>

  datatype FederationBundle = FederationBundle(
    body: BundleBody,
    bundleId: BundleId,
    signature: Signature<(BundleBody, BundleId)>)

  datatype ReceiptBody = ReceiptBody(
    receiptVersion: nat,
    bundleId: BundleId,
    targetCommunityId: Bytes,
    importedRoot: Digest,
    operatorPublicKey: PublicKey,
    importedAt: int)

  datatype MigrationReceipt = MigrationReceipt(body: ReceiptBody, signature: Signature<ReceiptBody>)

  function ItemKey(item: ExportItem): Key {
    (item.category, item.itemId)
  }

  predicate ItemOk(item: ExportItem) {
    item.category != [] && item.itemId != [] && IsCidText(item.contentCid)
  }

  function ValidateShape(b: BundleBody): Result<(), FederationError> {
    if || b.bundleVersion != 1
       || b.sourceCommunityId == []
       || b.targetCommunityId == Some([])
       || b.items == []
       || b.createdAt < 0
       || exists item :: item in b.items && !ItemOk(item)
    then Err(Invalid)
    else if !Ascending(ItemKey, b.items) then Err(ItemOrder)
    else Ok(())
  }

  function Export(source: Bytes, target: Option<Bytes>, items: seq<ExportItem>, createdAt: int, owner: PublicKey)
    : Result<FederationBundle, FederationError>
  {
    var body := BundleBody(1, source, target, owner, Sort(ItemKey, items), createdAt);
    match ValidateShape(body)
    case Err(e) => Err(e)
    case Ok(_) =>
      var id := HashedId(body);
      Ok(FederationBundle(body, id, Signature(owner, (body, id))))
  }

  function Verify(b: FederationBundle): Result<(), FederationError> {
    match ValidateShape(b.body)
    case Err(e) => Err(e)
    case Ok(_) =>
      if b.bundleId != HashedId(b.body) then Err(Invalid)
      else if !Verifies(b.body.ownerPublicKey, (b.body, b.bundleId), b.signature) then Err(BadSignature)
      else Ok(())
  }

  /**
    Whoever signs what, a bundle verifies exactly when its owner's key made the signature, over
    this body and its own identifier, and the body is of version 1 with items in order.
   */
  lemma {:induction false} VerifiesIff(body: BundleBody, id: BundleId, k: PublicKey, signed: BundleBody, signedId: BundleId)
    ensures Verify(FederationBundle(body, id, Signature(k, (signed, signedId)))).Ok? <==>
              && k == body.ownerPublicKey && signed == body && signedId == id == HashedId(body)
              && body.bundleVersion == 1 && body.sourceCommunityId != [] && body.targetCommunityId != Some([]) && body.createdAt >= 0
              && body.items != [] && Ascending(ItemKey, body.items)
              && forall item :: item in body.items ==> item.category != [] && item.itemId != [] && IsCidText(item.contentCid)
  {
    hide Ascending, IsCidText;
  }

  // ---------- exporting ----------

  /** When an export succeeds; what it holds is then a sorted permutation of what was given, and it verifies. */
  lemma {:induction false} ExportSucceedsIff(source: Bytes, target: Option<Bytes>, items: seq<ExportItem>,
          createdAt: int, owner: PublicKey)
    ensures Export(source, target, items, createdAt, owner).Ok? <==>
              && source != [] && target != Some([]) && items != [] && createdAt >= 0
              && (forall item :: item in items ==> ItemOk(item)) && KeysDistinct(ItemKey, items)
    ensures Export(source, target, items, createdAt, owner).Ok? ==>
              var b := Export(source, target, items, createdAt, owner).value;
              && Verify(b).Ok? && multiset(b.body.items) == multiset(items) && SortedBy(ItemKey, b.body.items)
  {
    hide Sort, SortedBy, KeysDistinct, Ascending, ItemOk;
    SortedItems(items);
  }

  lemma {:induction false} SortedItems(items: seq<ExportItem>)
    ensures var sorted := Sort(ItemKey, items);
            && multiset(sorted) == multiset(items) && SortedBy(ItemKey, sorted)
            && (Ascending(ItemKey, sorted) <==> KeysDistinct(ItemKey, items))
            && (sorted == [] <==> items == []) && (forall item :: item in sorted <==> item in items)
  {
    hide Sort, SortedBy, KeysDistinct, Ascending;
    var sorted := Sort(ItemKey, items);
    SortSpec(ItemKey, items);
    SortAscendsIff(ItemKey, items);
    assert forall item :: item in sorted <==> item in multiset(sorted);
    assert forall item :: item in items <==> item in multiset(items);
    assert |sorted| == |multiset(sorted)| == |multiset(items)| == |items|;
  }

  // ---------- receipts ----------

  function ItemTexts(json: ExportItem -> Bytes, items: seq<ExportItem>): seq<Bytes> {
    seq(|items|, i requires 0 <= i < |items| => json(items[i]))
  }

  function BundleRoot(hash: Hash, json: ExportItem -> Bytes, b: FederationBundle): Digest {
    MerkleRoot(hash, ItemTexts(json, b.body.items))
  }

  function ValidateReceipt(r: ReceiptBody): Result<(), FederationError> {
    if r.receiptVersion != 1 || r.targetCommunityId == [] || r.importedAt < 0 then Err(Invalid) else Ok(())
  }

  function IssueReceipt(hash: Hash, json: ExportItem -> Bytes, b: FederationBundle, target: Bytes, importedAt: int,
          operator: PublicKey)
    : Result<MigrationReceipt, FederationError>
  {
    match Verify(b)
    case Err(e) => Err(e)
    case Ok(_) =>
      if b.body.targetCommunityId != Some(target) then Err(Invalid)
      else
        var body := ReceiptBody(1, b.bundleId, target, BundleRoot(hash, json, b), operator, importedAt);
        match ValidateReceipt(body)
        case Err(e) => Err(e)
        case Ok(_) => Ok(MigrationReceipt(body, Signature(operator, body)))
  }

  function VerifyReceipt(hash: Hash, json: ExportItem -> Bytes, r: MigrationReceipt, b: FederationBundle)
    : Result<(), FederationError>
  {
    match ValidateReceipt(r.body)
    case Err(e) => Err(e)
    case Ok(_) =>
      match Verify(b)
      case Err(e) => Err(e)
      case Ok(_) =>
        if r.body.bundleId != b.bundleId || r.body.importedRoot != BundleRoot(hash, json, b) then Err(Invalid)
        else if !Verifies(r.body.operatorPublicKey, r.body, r.signature) then Err(BadSignature)
        else Ok(())
  }

  /** A receipt is issued exactly for a verified bundle addressed to its target, and then verifies against it. */
  lemma {:induction false} ReceiptVerifies(hash: Hash, json: ExportItem -> Bytes, b: FederationBundle,
          target: Bytes, at: int, operator: PublicKey)
    ensures IssueReceipt(hash, json, b, target, at, operator).Ok? <==>
              Verify(b).Ok? && b.body.targetCommunityId == Some(target) && at >= 0
    ensures IssueReceipt(hash, json, b, target, at, operator).Ok? ==>
              VerifyReceipt(hash, json, IssueReceipt(hash, json, b, target, at, operator).value, b).Ok?
  {
  }

  /**
    Whoever signs what, a receipt verifies against a bundle exactly when the bundle does, the
    receipt names it and its Merkle root, and its operator's key made the signature over it.
   */
  lemma {:induction false} ReceiptVerifiesIff(hash: Hash, json: ExportItem -> Bytes, body: ReceiptBody, k: PublicKey,
          signed: ReceiptBody, b: FederationBundle)
    ensures VerifyReceipt(hash, json, MigrationReceipt(body, Signature(k, signed)), b).Ok? <==>
              && k == body.operatorPublicKey && signed == body && Verify(b).Ok?
              && body.bundleId == b.bundleId && body.importedRoot == MerkleRoot(hash, ItemTexts(json, b.body.items))
              && body.receiptVersion == 1 && body.targetCommunityId != [] && body.importedAt >= 0
  {
    hide MerkleRoot, ItemTexts, Verify;
  }

  /** Item texts are JSON objects: distinct for distinct items, and longer than the CID inside them. */
  ghost predicate JsonFaithful(json: ExportItem -> Bytes, items: seq<ExportItem>) {
    && (forall x, y :: x in items && y in items && json(x) == json(y) ==> x == y)
    && (forall x :: x in items ==> |json(x)| > |x.contentCid|)
  }

  /** Two verified bundles with one Merkle root hold the same items, for a hash with no collision among what was hashed. */
  lemma {:induction false} RootBindsItems(hash: Hash, json: ExportItem -> Bytes, a: FederationBundle, b: FederationBundle)
    requires Verify(a).Ok? && Verify(b).Ok? && JsonFaithful(json, a.body.items + b.body.items)
    requires CollisionFree(hash, AllHashed(hash, ItemTexts(json, a.body.items)) + AllHashed(hash, ItemTexts(json, b.body.items)))
    requires BundleRoot(hash, json, a) == BundleRoot(hash, json, b)
    ensures a.body.items == b.body.items
  {
    var xs, ys := ItemTexts(json, a.body.items), ItemTexts(json, b.body.items);
    TextsDistinct(json, a, a.body.items + b.body.items);
    TextsDistinct(json, b, a.body.items + b.body.items);
    LengthSeparates(hash, xs, ys);
    RootBindsList(hash, xs, ys);
    assert |xs| == |ys|;
    forall i | 0 <= i < |a.body.items| ensures a.body.items[i] == b.body.items[i] {
      assert xs[i] == ys[i];
      assert a.body.items[i] in a.body.items + b.body.items && b.body.items[i] in a.body.items + b.body.items;
    }
  }

  lemma {:induction false} TextsDistinct(json: ExportItem -> Bytes, a: FederationBundle, all: seq<ExportItem>)
    requires Verify(a).Ok? && JsonFaithful(json, all) && forall x :: x in a.body.items ==> x in all
    ensures Distinct(ItemTexts(json, a.body.items))
    ensures forall t :: t in ItemTexts(json, a.body.items) ==> |t| > 2 * DIGEST_BYTES
  {
    var items := a.body.items;
    var texts := ItemTexts(json, items);
    forall i, j | 0 <= i < j < |items| ensures texts[i] != texts[j] {
      AscendingPairs(ItemKey, items, i, j);
      assert items[i] in items && items[j] in items;
    }
    forall t | t in texts ensures |t| > 2 * DIGEST_BYTES {
      var i :| 0 <= i < |texts| && texts[i] == t;
      assert items[i] in items && ItemOk(items[i]);
    }
  }
}
