/**
  The cryptography the vault uses, idealised once.

  A CID is an injective wrapper of the bytes it names. A sealed envelope opens only under
  the key and the associated data it was sealed with. A signature verifies only for the key
  that made it and the value it was made over. JSON is assumed to round-trip, so an
  envelope's plaintext is carried as the record that was serialised.
 */
module Sealed {
  import opened Wrappers
  import opened ByteStrings
  import opened Identity

  datatype Key = Random(id: nat) | Derived(base: Key, context: string)

  /** The `|`-joined associated data strings, one constructor for each prefix. */
  datatype Aad =
    | ChunkAad(vaultId: string, fileVersionId: string, index: nat, length: nat)
    | ManifestAad(vaultId: string, fileId: string, fileVersionId: string)
    | CatalogAad(vaultId: string, version: nat)

  /** The hash of a whole plaintext. */
  datatype PlainHash = PlainHash(plaintext: Bytes)

  datatype Cid = Cid(blob: Blob)

  /** What a storage node can hold: an encoded envelope, or bytes that do not parse as one. */
  datatype Blob =
    | Unparsable(bytes: Bytes)
    | Envelope(key: Key, aad: Aad, payload: Payload, nonce: nat)

  datatype Payload =
    | ChunkData(bytes: Bytes)
    | ManifestData(manifest: FileManifest)
    | CatalogData(signed: SignedVaultCatalog)

  datatype FileManifest = FileManifest(
    manifestVersion: nat,
    fileId: string,
    fileVersionId: string,
    plaintextHash: PlainHash,
    fileKey: Key,
    orderedChunkCids: seq<Cid>,
    chunkPlaintextLengths: seq<nat>,
    paddingLengths: seq<nat>)

  datatype CatalogFileVersion = CatalogFileVersion(
    fileId: string,
    fileVersionId: string,
    manifestCid: Cid,
    createdAt: int,
    deletedAt: Option<int>,
    retentionUntil: Option<int>)

  datatype VaultCatalog = VaultCatalog(
    catalogVersion: nat,
    vaultId: string,
    ownerMemberId: MemberId,
    previousCatalogCid: Option<Cid>,
    createdAt: int,
    files: seq<CatalogFileVersion>)

  datatype SignedVaultCatalog = SignedVaultCatalog(
    catalog: VaultCatalog,
    ownerPublicKey: PublicKey,
    ownerSignature: Signature<VaultCatalog>)

  function ManifestKey(master: Key): Key {
    Derived(master, "arcane-commons-mesh manifest key v1")
  }

  function CatalogKey(master: Key): Key {
    Derived(master, "arcane-commons-mesh catalog key v1")
  }

  function Decrypt(key: Key, blob: Blob, aad: Aad): Option<Payload> {
    if blob.Envelope? && blob.key == key && blob.aad == aad then Some(blob.payload) else None
  }

  predicate ShapeOk(m: FileManifest) {
    && m.manifestVersion == 1
    && |m.orderedChunkCids| == |m.chunkPlaintextLengths|
    && |m.orderedChunkCids| == |m.paddingLengths|
  }

  function SealManifest(master: Key, vaultId: string, m: FileManifest, nonce: nat): Option<Blob> {
    if ShapeOk(m) then
      Some(Envelope(ManifestKey(master), ManifestAad(vaultId, m.fileId, m.fileVersionId), ManifestData(m), nonce))
    else
      None
  }

  function OpenManifest(master: Key, vaultId: string, fileId: string, fileVersionId: string, blob: Blob)
    : Option<FileManifest>
  {
    match Decrypt(ManifestKey(master), blob, ManifestAad(vaultId, fileId, fileVersionId))
    case Some(ManifestData(m)) =>
      if ShapeOk(m) && m.fileId == fileId && m.fileVersionId == fileVersionId then Some(m) else None
    case _ => None
  }

  function SealCatalog(master: Key, owner: PublicKey, catalog: VaultCatalog, nonce: nat): Option<Blob> {
    if catalog.catalogVersion == 0 || catalog.ownerMemberId != MemberId(owner) then
      None
    else
      Some(Envelope(
             CatalogKey(master),
             CatalogAad(catalog.vaultId, catalog.catalogVersion),
             CatalogData(SignedVaultCatalog(catalog, owner, Signature(owner, catalog))),
             nonce))
  }

  function OpenCatalog(master: Key, vaultId: string, version: nat, owner: PublicKey, blob: Blob)
    : Option<VaultCatalog>
  {
    match Decrypt(CatalogKey(master), blob, CatalogAad(vaultId, version))
    case Some(CatalogData(signed)) =>
      if || signed.catalog.catalogVersion != version
         || signed.catalog.vaultId != vaultId
         || signed.ownerPublicKey != owner
         || signed.catalog.ownerMemberId != MemberId(owner)
         || !Verifies(owner, signed.catalog, signed.ownerSignature)
      then None
      else Some(signed.catalog)
    case _ => None
  }

  /** What is sealed as a catalog opens as that catalog, at its own version and no other. */
  lemma {:induction false} CatalogRoundTrip(master: Key, owner: PublicKey, catalog: VaultCatalog, nonce: nat, version: nat)
    requires SealCatalog(master, owner, catalog, nonce).Some?
    ensures OpenCatalog(master, catalog.vaultId, version, owner, SealCatalog(master, owner, catalog, nonce).value)
         == if version == catalog.catalogVersion then Some(catalog) else None
  {
  }

  /**
    Bytes open as the catalog of a vault at a version exactly when they are an envelope under
    that vault's catalog key, bound to both, with a catalog inside that says so itself and that
    the owner signed.
   */
  lemma {:induction false} OpensAsCatalogIff(master: Key, vaultId: string, version: nat, owner: PublicKey, blob: Blob, catalog: VaultCatalog)
    ensures OpenCatalog(master, vaultId, version, owner, blob) == Some(catalog) <==>
              && blob.Envelope? && blob.key == Derived(master, "arcane-commons-mesh catalog key v1")
              && blob.aad == CatalogAad(vaultId, version)
              && blob.payload == CatalogData(SignedVaultCatalog(catalog, owner, Signature(owner, catalog)))
              && catalog.catalogVersion == version && catalog.vaultId == vaultId && catalog.ownerMemberId == MemberId(owner)
  {
  }

  /** Only a catalog of some version, in its owner's name, is sealed. */
  lemma {:induction false} SealsCatalogIff(master: Key, owner: PublicKey, catalog: VaultCatalog, nonce: nat)
    ensures SealCatalog(master, owner, catalog, nonce).Some? <==> catalog.catalogVersion >= 1 && catalog.ownerMemberId == MemberId(owner)
  {
  }

  /**
    Bytes open as a file's manifest exactly when they are an envelope under the manifest key,
    bound to the vault, the file and its version, with a manifest inside that says so itself and
    lists a length and a padding for each chunk; exactly those are sealed.
   */
  lemma {:induction false} OpensAsManifestIff(master: Key, vaultId: string, fileId: string, fileVersionId: string, blob: Blob,
          m: FileManifest, nonce: nat)
    ensures OpenManifest(master, vaultId, fileId, fileVersionId, blob) == Some(m) <==>
              && blob.Envelope? && blob.key == Derived(master, "arcane-commons-mesh manifest key v1")
              && blob.aad == ManifestAad(vaultId, fileId, fileVersionId) && blob.payload == ManifestData(m)
              && m.fileId == fileId && m.fileVersionId == fileVersionId && m.manifestVersion == 1
              && |m.orderedChunkCids| == |m.chunkPlaintextLengths| == |m.paddingLengths|
    ensures SealManifest(master, vaultId, m, nonce).Some? <==>
              m.manifestVersion == 1 && |m.orderedChunkCids| == |m.chunkPlaintextLengths| == |m.paddingLengths|
    ensures SealManifest(master, vaultId, m, nonce).Some? ==>
              OpenManifest(master, vaultId, m.fileId, m.fileVersionId, SealManifest(master, vaultId, m, nonce).value) == Some(m)
  {
  }
}
