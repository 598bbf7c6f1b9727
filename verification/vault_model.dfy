/**
  What a local vault means: the plain file map it stands for, the objects its signed catalog
  names, and the invariant that ties the two together on six nodes of which up to two may
  have been lost or altered.
 */
module VaultModel {
  import opened Wrappers
  import opened ByteStrings
  import opened Identity
  import opened Sealed
  import opened Nodes
  import opened Chunker

  const RETENTION_SECONDS: int := 30 * 86400

  datatype VaultError =
    | NotInitialized
    | AlreadyExists
    | BadKit
    | NoReplica
    | BadCatalog
    | BadManifest
    | BadChunk
    | TooFewReplicas
    | FileNotFound
    | Io

  // ---------- the abstract vault ----------

  datatype FileEntry = FileEntry(bytes: Bytes, deletedAt: Option<int>)

  type FileMap = map<string, FileEntry>

  /** Not deleted, or deleted and still inside its retention window. */
  predicate Restorable(e: FileEntry, now: int) {
    e.deletedAt.None? || e.deletedAt.value + 2_592_000 >= now
  }

  function Lookup(files: FileMap, id: string, now: int): Option<Bytes> {
    if id in files && Restorable(files[id], now) then Some(files[id].bytes) else None
  }

  // ---------- saved pointers and what they name ----------

  /** The vault pointer that both the saved state and a recovery kit carry. */
  datatype Pointer = Pointer(vaultId: string, catalogCid: Cid, catalogVersion: nat, owner: PublicKey)

  datatype Secrets = Secrets(seed: Bytes, master: Key)

  datatype KitFile = KitFile(passphrase: string, secrets: Secrets, pointer: Pointer)

  function HeadCatalog(master: Key, p: Pointer): Option<VaultCatalog> {
    OpenCatalog(master, p.vaultId, p.catalogVersion, p.owner, p.catalogCid.blob)
  }

  /** The pointer one version back, when the catalog names a predecessor. */
  function Previous(master: Key, p: Pointer): Option<Pointer> {
    match HeadCatalog(master, p)
    case Some(catalog) =>
      if catalog.previousCatalogCid.Some? && p.catalogVersion > 0 then
        Some(Pointer(p.vaultId, catalog.previousCatalogCid.value, p.catalogVersion - 1, p.owner))
      else
        None
    case None => None
  }

  /** Every catalog CID from `p` back to the first, newest first. */
  function Chain(master: Key, p: Pointer): Option<seq<Cid>>
    decreases p.catalogVersion
  {
    match HeadCatalog(master, p)
    case None => None
    case Some(catalog) =>
      if catalog.previousCatalogCid.None? then Some([p.catalogCid])
      else if p.catalogVersion <= 1 then None
      else
        match Chain(master, Previous(master, p).value)
        case None => None
        case Some(rest) => Some([p.catalogCid] + rest)
  }

  lemma {:induction false} PreviousVault(master: Key, q: Pointer)
    ensures Previous(master, q).Some? ==>
              Previous(master, q).value.vaultId == q.vaultId && Previous(master, q).value.owner == q.owner
  {
  }

  lemma {:induction false} ChainHasHead(master: Key, p: Pointer)
    ensures Chain(master, p).Some? ==> p.catalogCid in Chain(master, p).value
  {
  }

  /** Walking back from `p`, `visited` is behind and the chain of `at` still ahead. */
  ghost predicate ChainFrom(master: Key, p: Pointer, at: Pointer, visited: seq<Cid>) {
    Chain(master, p) ==
    match Chain(master, at)
    case Some(rest) => Some(visited + rest)
    case None => None
  }

  lemma {:induction false} ChainFromStart(master: Key, p: Pointer)
    ensures ChainFrom(master, p, p, [])
  {
    hide Chain;
    assert Chain(master, p).Some? ==> [] + Chain(master, p).value == Chain(master, p).value;
  }

  /** One catalog further back: the walk ends at a first catalog, breaks, or goes on one version down. */
  lemma {:induction false} ChainFromStep(master: Key, p: Pointer, at: Pointer, visited: seq<Cid>)
    requires ChainFrom(master, p, at, visited)
    ensures Chain(master, p).Some? ==> at.catalogCid in Chain(master, p).value
    ensures HeadCatalog(master, at).None? ==> Chain(master, p).None?
    ensures HeadCatalog(master, at).Some? ==>
              match HeadCatalog(master, at).value.previousCatalogCid
              case None => Chain(master, p) == Some(visited + [at.catalogCid])
              case Some(c) =>
                if at.catalogVersion <= 1 then Chain(master, p).None?
                else ChainFrom(master, p, Pointer(at.vaultId, c, at.catalogVersion - 1, at.owner), visited + [at.catalogCid])
  {
    hide HeadCatalog;
    if HeadCatalog(master, at).Some? && HeadCatalog(master, at).value.previousCatalogCid.Some? && at.catalogVersion > 1 {
      var rest := Chain(master, Previous(master, at).value);
      assert rest.Some? ==> visited + ([at.catalogCid] + rest.value) == (visited + [at.catalogCid]) + rest.value;
    }
  }

  /** `q` is `p` or one of its ancestors, linked version by version. */
  predicate Descends(master: Key, p: Pointer, q: Pointer)
    decreases p.catalogVersion
  {
    p == q || (Previous(master, p).Some? && Descends(master, Previous(master, p).value, q))
  }

  predicate Expired(e: CatalogFileVersion, now: int) {
    e.retentionUntil.Some? && e.retentionUntil.value < now
  }

  function Manifest(master: Key, vaultId: string, e: CatalogFileVersion): Option<FileManifest> {
    OpenManifest(master, vaultId, e.fileId, e.fileVersionId, e.manifestCid.blob)
  }

  /** The manifest and chunks of one catalog entry. */
  ghost function Objects(master: Key, vaultId: string, e: CatalogFileVersion): set<Cid> {
    {e.manifestCid} +
    match Manifest(master, vaultId, e)
    case Some(m) => set c | c in m.orderedChunkCids
    case None => {}
  }

  ghost function LiveObjects(master: Key, vaultId: string, files: seq<CatalogFileVersion>, now: int): set<Cid> {
    set e, c | e in files && !Expired(e, now) && c in Objects(master, vaultId, e) :: c
  }

  /** Exactly what garbage collection at time `now` must keep. */
  ghost function Needed(master: Key, p: Pointer, now: int): set<Cid> {
    if Chain(master, p).Some? then
      (set c | c in Chain(master, p).value) + LiveObjects(master, p.vaultId, HeadCatalog(master, p).value.files, now)
    else
      {}
  }

  lemma {:induction false} NeededParts(master: Key, p: Pointer, now: int)
    requires Chain(master, p).Some?
    ensures HeadCatalog(master, p).Some?
    ensures Needed(master, p, now) ==
            (set c | c in Chain(master, p).value) +
            LiveObjects(master, p.vaultId, HeadCatalog(master, p).value.files, now)
  {
  }

  // ---------- putting a file back together ----------

  function DecodeChunks(m: FileManifest, vaultId: string, fileVersionId: string, i: nat): Option<Bytes>
    requires |m.orderedChunkCids| == |m.chunkPlaintextLengths| && i <= |m.orderedChunkCids|
    decreases |m.orderedChunkCids| - i
  {
    if i == |m.orderedChunkCids| then Some([])
    else
      var length := m.chunkPlaintextLengths[i];
      match Decrypt(m.fileKey, m.orderedChunkCids[i].blob, ChunkAad(vaultId, fileVersionId, i, length))
      case Some(ChunkData(bytes)) =>
        if |bytes| != length then None
        else
          (match DecodeChunks(m, vaultId, fileVersionId, i + 1)
           case Some(rest) => Some(bytes + rest)
           case None => None)
      case _ => None
  }

  /** `bytes` is decoded, and the chunks from `i` on are still ahead. */
  ghost predicate DecodedTo(m: FileManifest, vaultId: string, fileVersionId: string, i: nat, bytes: Bytes)
    requires |m.orderedChunkCids| == |m.chunkPlaintextLengths| && i <= |m.orderedChunkCids|
  {
    DecodeChunks(m, vaultId, fileVersionId, 0) ==
    match DecodeChunks(m, vaultId, fileVersionId, i)
    case Some(rest) => Some(bytes + rest)
    case None => None
  }

  lemma {:induction false} DecodedNone(m: FileManifest, vaultId: string, fileVersionId: string)
    requires |m.orderedChunkCids| == |m.chunkPlaintextLengths|
    ensures DecodedTo(m, vaultId, fileVersionId, 0, [])
  {
    hide DecodeChunks;
    assert forall rest: Bytes :: [] + rest == rest;
  }

  lemma {:induction false} DecodedAll(m: FileManifest, vaultId: string, fileVersionId: string, bytes: Bytes)
    requires |m.orderedChunkCids| == |m.chunkPlaintextLengths|
    requires DecodedTo(m, vaultId, fileVersionId, |m.orderedChunkCids|, bytes)
    ensures DecodeChunks(m, vaultId, fileVersionId, 0) == Some(bytes)
  {
    assert bytes + [] == bytes;
  }

  /** One more chunk opens and is joined on, or the whole does not decode. */
  lemma {:induction false} DecodedStep(m: FileManifest, vaultId: string, fileVersionId: string, i: nat, bytes: Bytes)
    requires |m.orderedChunkCids| == |m.chunkPlaintextLengths| && i < |m.orderedChunkCids|
    requires DecodedTo(m, vaultId, fileVersionId, i, bytes)
    ensures var length := m.chunkPlaintextLengths[i];
            var payload := Decrypt(m.fileKey, m.orderedChunkCids[i].blob, ChunkAad(vaultId, fileVersionId, i, length));
            if payload.Some? && payload.value.ChunkData? && |payload.value.bytes| == length
            then DecodedTo(m, vaultId, fileVersionId, i + 1, bytes + payload.value.bytes)
            else DecodeChunks(m, vaultId, fileVersionId, 0).None?
  {
    hide Decrypt;
    var length := m.chunkPlaintextLengths[i];
    var payload := Decrypt(m.fileKey, m.orderedChunkCids[i].blob, ChunkAad(vaultId, fileVersionId, i, length));
    var rest := DecodeChunks(m, vaultId, fileVersionId, i + 1);
    if payload.Some? && payload.value.ChunkData? && rest.Some? {
      assert bytes + (payload.value.bytes + rest.value) == (bytes + payload.value.bytes) + rest.value;
    }
  }

  /** The plaintext a catalog entry stands for, when its objects all decode and the hash agrees. */
  function Assemble(master: Key, vaultId: string, e: CatalogFileVersion): Option<Bytes> {
    match Manifest(master, vaultId, e)
    case None => None
    case Some(m) =>
      match DecodeChunks(m, vaultId, e.fileVersionId, 0)
      case None => None
      case Some(bytes) => if m.plaintextHash == PlainHash(bytes) then Some(bytes) else None
  }

  /** The `i`-th chunk a manifest lists is this piece, sealed in its place and as long as the manifest says. */
  predicate ChunkIs(m: FileManifest, vaultId: string, fileVersionId: string, i: nat, piece: Bytes) {
    && i < |m.orderedChunkCids| && i < |m.chunkPlaintextLengths| && |piece| == m.chunkPlaintextLengths[i]
    && var blob := m.orderedChunkCids[i].blob;
       && blob.Envelope? && blob.key == m.fileKey && blob.payload == ChunkData(piece)
       && blob.aad == ChunkAad(vaultId, fileVersionId, i, m.chunkPlaintextLengths[i])
  }

  /** These pieces are the chunks from the `i`-th on. */
  predicate ChunksAre(m: FileManifest, vaultId: string, fileVersionId: string, i: nat, pieces: seq<Bytes>) {
    && i + |pieces| == |m.orderedChunkCids|
    && forall k :: 0 <= k < |pieces| ==> ChunkIs(m, vaultId, fileVersionId, i + k, pieces[k])
  }

  lemma {:induction false} ChunksDecode(m: FileManifest, vaultId: string, fileVersionId: string, i: nat, pieces: seq<Bytes>)
    requires |m.orderedChunkCids| == |m.chunkPlaintextLengths| && ChunksAre(m, vaultId, fileVersionId, i, pieces)
    ensures DecodeChunks(m, vaultId, fileVersionId, i) == Some(Concat(pieces))
    decreases |pieces|
  {
    if |pieces| > 0 {
      assert ChunkIs(m, vaultId, fileVersionId, i + 0, pieces[0]);
      forall k | 0 <= k < |pieces| - 1 ensures ChunkIs(m, vaultId, fileVersionId, i + 1 + k, pieces[1..][k]) {
        assert ChunkIs(m, vaultId, fileVersionId, i + (k + 1), pieces[k + 1]);
      }
      ChunksDecode(m, vaultId, fileVersionId, i + 1, pieces[1..]);
    }
  }

  lemma {:induction false} DecodedChunks(m: FileManifest, vaultId: string, fileVersionId: string, i: nat) returns (pieces: seq<Bytes>)
    requires |m.orderedChunkCids| == |m.chunkPlaintextLengths| && i <= |m.orderedChunkCids|
    requires DecodeChunks(m, vaultId, fileVersionId, i).Some?
    ensures ChunksAre(m, vaultId, fileVersionId, i, pieces)
    decreases |m.orderedChunkCids| - i
  {
    pieces := [];
    if i < |m.orderedChunkCids| {
      var rest := DecodedChunks(m, vaultId, fileVersionId, i + 1);
      pieces := [m.orderedChunkCids[i].blob.payload.bytes] + rest;
      forall k | 0 <= k < |pieces| ensures ChunkIs(m, vaultId, fileVersionId, i + k, pieces[k]) {
        if k > 0 {
          assert ChunkIs(m, vaultId, fileVersionId, i + 1 + (k - 1), rest[k - 1]);
        }
      }
    }
  }

  /**
    An entry stands for some bytes exactly when its manifest opens, every chunk it lists is in
    its place, under the file's key and as long as it says, they join to those bytes, and the
    manifest has their hash.
   */
  lemma {:induction false} AssemblesIff(master: Key, vaultId: string, e: CatalogFileVersion, bytes: Bytes)
    ensures Assemble(master, vaultId, e) == Some(bytes) <==>
              && OpenManifest(master, vaultId, e.fileId, e.fileVersionId, e.manifestCid.blob).Some?
              && var m := OpenManifest(master, vaultId, e.fileId, e.fileVersionId, e.manifestCid.blob).value;
                 && m.plaintextHash == PlainHash(bytes)
                 && exists pieces :: ChunksAre(m, vaultId, e.fileVersionId, 0, pieces) && Concat(pieces) == bytes
  {
    hide ChunksAre, DecodeChunks;
    if Manifest(master, vaultId, e).Some? {
      var m := Manifest(master, vaultId, e).value;
      if DecodeChunks(m, vaultId, e.fileVersionId, 0).Some? {
        var pieces := DecodedChunks(m, vaultId, e.fileVersionId, 0);
        ChunksDecode(m, vaultId, e.fileVersionId, 0, pieces);
      }
      forall pieces | ChunksAre(m, vaultId, e.fileVersionId, 0, pieces)
        ensures DecodeChunks(m, vaultId, e.fileVersionId, 0) == Some(Concat(pieces))
      {
        ChunksDecode(m, vaultId, e.fileVersionId, 0, pieces);
      }
    }
  }

  predicate Selectable(e: CatalogFileVersion, id: string, now: int) {
    e.fileId == id && (e.deletedAt.None? || (e.retentionUntil.Some? && e.retentionUntil.value >= now))
  }

  /** The last entry for `id` that is active or retained. */
  function FindVersion(files: seq<CatalogFileVersion>, id: string, now: int): Option<CatalogFileVersion> {
    if |files| == 0 then None
    else if Selectable(files[|files| - 1], id, now) then Some(files[|files| - 1])
    else FindVersion(files[..|files| - 1], id, now)
  }

  /** What `restore` returns when it reads these nodes. */
  ghost function RestoreFrom(master: Key, nodes: seq<Disk>, p: Pointer, id: string, now: int): Option<Bytes> {
    if !Found(nodes, p.catalogCid) || HeadCatalog(master, p).None? then None
    else
      match FindVersion(HeadCatalog(master, p).value.files, id, now)
      case None => None
      case Some(e) =>
        if forall c :: c in Objects(master, p.vaultId, e) ==> Found(nodes, c)
        then Assemble(master, p.vaultId, e)
        else None
  }

  // ---------- the invariant ----------

  /** Everything there is to know at one instant, the abstract vault included. */
  datatype Moment = Moment(
    nodes: seq<Disk>,
    state: Option<Pointer>,
    kit: Option<KitFile>,
    files: FileMap,
    horizon: int,
    faulty: set<int>,
    issued: set<Pointer>)

  function RetainedUntil(deletedAt: Option<int>): Option<int> {
    if deletedAt.Some? then Some(deletedAt.value + 2_592_000) else None
  }

  ghost predicate Entails(master: Key, vaultId: string, e: CatalogFileVersion, files: FileMap) {
    && e.fileId in files
    && e.deletedAt == files[e.fileId].deletedAt
    && e.retentionUntil == RetainedUntil(e.deletedAt)
    && Assemble(master, vaultId, e) == Some(files[e.fileId].bytes)
  }

  /** The catalog lists each file once, rightly, and lists all that are restorable from `horizon` on. */
  ghost predicate Matches(master: Key, vaultId: string, entries: seq<CatalogFileVersion>, files: FileMap, horizon: int) {
    && (forall i, j :: 0 <= i < j < |entries| ==> entries[i].fileId != entries[j].fileId)
    && (forall e :: e in entries ==> Entails(master, vaultId, e, files))
    && (forall id :: id in files && Restorable(files[id], horizon) ==> exists e :: e in entries && e.fileId == id)
  }

  ghost predicate HeadSound(s: Secrets, p: Pointer, files: FileMap, horizon: int) {
    && p.owner == PublicKey(s.seed)
    && p.catalogVersion >= 1
    && Chain(s.master, p).Some?
    && Matches(s.master, p.vaultId, HeadCatalog(s.master, p).value.files, files, horizon)
  }

  ghost predicate AllKept(nodes: seq<Disk>, faulty: set<int>, objects: set<Cid>) {
    forall c :: c in objects ==> Kept(nodes, faulty, c)
  }

  /** The head and every manifest listed have five copies, every chunk three. */
  ghost predicate FullyReplicated(master: Key, p: Pointer, nodes: seq<Disk>) {
    && HeadCatalog(master, p).Some? && Spread(nodes, {p.catalogCid}, 5)
    && forall e :: e in HeadCatalog(master, p).value.files ==> FileReplicated(master, p.vaultId, e, nodes)
  }

  ghost predicate FileReplicated(master: Key, vaultId: string, e: CatalogFileVersion, nodes: seq<Disk>) {
    && Manifest(master, vaultId, e).Some? && Spread(nodes, {e.manifestCid}, 5)
    && Spread(nodes, set c | c in Manifest(master, vaultId, e).value.orderedChunkCids, 3)
  }

  ghost predicate KitsSound(s: Secrets, m: Moment) {
    && (m.kit.Some? ==> m.kit.value.secrets == s && m.kit.value.pointer in m.issued)
    && (m.state.Some? ==> m.kit.Some? && forall q :: q in m.issued ==> Descends(s.master, m.state.value, q))
  }

  ghost predicate Sound(s: Secrets, m: Moment) {
    && |m.nodes| == 6
    && |m.faulty| <= 2
    && KitsSound(s, m)
    && (m.state.None? ==> m.files == map[])
    && (m.state.Some? ==>
          && HeadSound(s, m.state.value, m.files, m.horizon)
          && AllKept(m.nodes, m.faulty, Needed(s.master, m.state.value, m.horizon)))
  }

  lemma {:induction false} SoundHead(s: Secrets, m: Moment)
    requires Sound(s, m) && m.state.Some?
    ensures m.state.value.owner == PublicKey(s.seed) && m.state.value.catalogVersion >= 1
    ensures Chain(s.master, m.state.value).Some?
  {
  }

  /** A place without a vault is sound whatever it has been asked to keep. */
  lemma {:induction false} EmptySound(s: Secrets, m: Moment, horizon: int)
    requires Sound(s, m) && m.state.None?
    ensures Sound(s, m.(horizon := horizon)) && m.files == map[]
  {
  }

  // ---------- the refinement theorem ----------

  lemma {:induction false} FindVersionSpec(entries: seq<CatalogFileVersion>, id: string, now: int)
    ensures FindVersion(entries, id, now).Some? ==>
              FindVersion(entries, id, now).value in entries && Selectable(FindVersion(entries, id, now).value, id, now)
    ensures FindVersion(entries, id, now).None? ==> forall e :: e in entries ==> !Selectable(e, id, now)
  {
    if |entries| > 0 {
      FindVersionSpec(entries[..|entries| - 1], id, now);
      assert entries == entries[..|entries| - 1] + [entries[|entries| - 1]];
    }
  }

  /**
    Restoring from a sound vault gives exactly what the plain file map holds: the added bytes
    of every file not deleted or still retained, and nothing for any other.
   */
  lemma {:induction false} RestoreRefinesFileMap(s: Secrets, m: Moment, id: string, now: int)
    requires Sound(s, m) && m.state.Some? && m.horizon <= now
    ensures RestoreFrom(s.master, m.nodes, m.state.value, id, now) == Lookup(m.files, id, now)
  {
    var p := m.state.value;
    var entries := HeadCatalog(s.master, p).value.files;
    assert p.catalogCid in Chain(s.master, p).value;
    KeptFound(m.nodes, m.faulty, p.catalogCid);
    FindVersionSpec(entries, id, now);
    match FindVersion(entries, id, now) {
      case None =>
        forall e | e in entries && e.fileId == id
          ensures id in m.files && !Restorable(m.files[id], now)
        {
          assert Entails(s.master, p.vaultId, e, m.files);
        }
      case Some(e) =>
        assert Entails(s.master, p.vaultId, e, m.files);
        forall c | c in Objects(s.master, p.vaultId, e) ensures Found(m.nodes, c) {
          assert c in LiveObjects(s.master, p.vaultId, entries, m.horizon);
          KeptFound(m.nodes, m.faulty, c);
        }
    }
  }

  // ---------- what each kind of step keeps ----------

  /** Steps that only move object files keep soundness when no needed copy is lost. */
  lemma {:induction false} NodeStepSound(s: Secrets, m: Moment, nodes: seq<Disk>)
    requires Sound(s, m) && |nodes| == NODE_COUNT
    requires m.state.Some? ==>
               forall c :: c in Needed(s.master, m.state.value, m.horizon) ==> Retains(m.nodes, nodes, m.faulty, c)
    ensures Sound(s, m.(nodes := nodes))
  {
    if m.state.Some? {
      forall c | c in Needed(s.master, m.state.value, m.horizon) ensures Kept(nodes, m.faulty, c) {
        RetainsKept(m.nodes, nodes, m.faulty, c);
      }
    }
  }

  /** One more node of the two allowed may be lost or altered, at any time and in any way. */
  lemma {:induction false} DamageSound(s: Secrets, m: Moment, i: int, disk: Disk)
    requires Sound(s, m) && 0 <= i < NODE_COUNT && |m.faulty + {i}| <= 2
    ensures Sound(s, m.(nodes := m.nodes[i := disk], faulty := m.faulty + {i}))
  {
    if m.state.Some? {
      forall c | c in Needed(s.master, m.state.value, m.horizon)
        ensures Kept(m.nodes[i := disk], m.faulty + {i}, c)
      {
        DamageKept(m.nodes, m.faulty, c, i, disk);
      }
    }
  }

  /** Letting time pass only shrinks what must be kept. */
  lemma {:induction false} HorizonSound(s: Secrets, m: Moment, horizon: int)
    requires Sound(s, m) && m.horizon <= horizon
    ensures Sound(s, m.(horizon := horizon))
  {
    if m.state.Some? {
      var p := m.state.value;
      var entries := HeadCatalog(s.master, p).value.files;
      assert LiveObjects(s.master, p.vaultId, entries, horizon) <= LiveObjects(s.master, p.vaultId, entries, m.horizon);
    }
  }

  lemma {:induction false} HeadSoundLater(s: Secrets, p: Pointer, files: FileMap, horizon: int, later: int)
    requires HeadSound(s, p, files, horizon) && horizon <= later
    ensures HeadSound(s, p, files, later)
  {
    hide Chain, HeadCatalog, Assemble;
  }

  lemma {:induction false} DescendsTransitive(master: Key, p: Pointer, q: Pointer, r: Pointer)
    requires Descends(master, p, q) && Descends(master, q, r)
    ensures Descends(master, p, r)
    decreases p.catalogVersion
  {
    if p != q {
      DescendsTransitive(master, Previous(master, p).value, q, r);
    }
  }

  /** Saving a new head that links back to the old one commits the new file map. */
  lemma {:induction false} CommitSound(s: Secrets, m: Moment, p: Pointer, files: FileMap)
    requires Sound(s, m) && m.state.Some?
    requires Previous(s.master, p) == m.state
    requires HeadSound(s, p, files, m.horizon)
    requires AllKept(m.nodes, m.faulty, Needed(s.master, p, m.horizon))
    ensures Sound(s, m.(state := Some(p), files := files))
  {
    forall q | q in m.issued ensures Descends(s.master, p, q) {
      assert Descends(s.master, m.state.value, q);
    }
  }

  // ---------- the catalogs the operations write ----------

  function FirstCatalog(owner: PublicKey, vaultId: string, now: int): VaultCatalog {
    VaultCatalog(1, vaultId, MemberId(owner), None, now, [])
  }

  lemma {:induction false} FirstHead(s: Secrets, p: Pointer, now: int, nonce: nat)
    requires p.owner == PublicKey(s.seed) && p.catalogVersion == 1
    requires SealCatalog(s.master, p.owner, FirstCatalog(p.owner, p.vaultId, now), nonce) == Some(p.catalogCid.blob)
    ensures HeadCatalog(s.master, p) == Some(VaultCatalog(1, p.vaultId, MemberId(p.owner), None, now, []))
    ensures Chain(s.master, p) == Some([p.catalogCid])
    ensures forall t :: Needed(s.master, p, t) == {p.catalogCid}
  {
  }

  lemma {:induction false} CreateSound(s: Secrets, m: Moment, p: Pointer, now: int, nonce: nat)
    requires Sound(s, m) && m.state.None? && m.kit.Some? && m.issued == {p}
    requires p.owner == PublicKey(s.seed) && p.catalogVersion == 1
    requires SealCatalog(s.master, p.owner, FirstCatalog(p.owner, p.vaultId, now), nonce) == Some(p.catalogCid.blob)
    requires Kept(m.nodes, m.faulty, p.catalogCid)
    ensures Sound(s, m.(state := Some(p), files := map[]))
  {
    FirstHead(s, p, now, nonce);
  }

  function NextCatalog(catalog: VaultCatalog, p: Pointer, entries: seq<CatalogFileVersion>, now: int): VaultCatalog {
    catalog.(
      files := entries,
      previousCatalogCid := Some(p.catalogCid),
      catalogVersion := catalog.catalogVersion + 1,
      createdAt := now)
  }

  function NextPointer(p: Pointer, blob: Blob): Pointer {
    p.(catalogCid := Cid(blob), catalogVersion := p.catalogVersion + 1)
  }

  /** Sealing the next catalog succeeds, and its pointer extends the old chain by one. */
  lemma {:induction false} NextHead(s: Secrets, p: Pointer, next: VaultCatalog, entries: seq<CatalogFileVersion>,
          now: int, nonce: nat)
    returns (blob: Blob)
    requires p.owner == PublicKey(s.seed) && p.catalogVersion >= 1 && Chain(s.master, p).Some?
    requires next == NextCatalog(HeadCatalog(s.master, p).value, p, entries, now)
    ensures SealCatalog(s.master, PublicKey(s.seed), next, nonce) == Some(blob)
    ensures HeadCatalog(s.master, NextPointer(p, blob)) == Some(next)
    ensures next == VaultCatalog(p.catalogVersion + 1, p.vaultId, MemberId(p.owner), Some(p.catalogCid), now, entries)
    ensures Previous(s.master, NextPointer(p, blob)) == Some(p)
    ensures Chain(s.master, NextPointer(p, blob)) == Some([Cid(blob)] + Chain(s.master, p).value)
  {
    blob := SealCatalog(s.master, PublicKey(s.seed), next, nonce).value;
  }

  /** What the next head needs: its own catalog, the old chain, and its entries' live objects. */
  lemma {:induction false} NextNeeded(master: Key, p: Pointer, q: Pointer, now: int)
    requires Chain(master, p).Some? && Previous(master, q) == Some(p) && p.catalogVersion >= 1
    ensures Needed(master, q, now) ==
            {q.catalogCid} + (set c | c in Chain(master, p).value) +
            LiveObjects(master, q.vaultId, HeadCatalog(master, q).value.files, now)
  {
    assert Chain(master, q).value == [q.catalogCid] + Chain(master, p).value;
  }

  /** Marking one entry deleted. */
  function Tombstone(entries: seq<CatalogFileVersion>, i: nat, now: int): seq<CatalogFileVersion>
    requires i < |entries|
  {
    entries[i := entries[i].(deletedAt := Some(now), retentionUntil := Some(now + RETENTION_SECONDS))]
  }

  /** Dropping the expired entries. */
  function DropExpired(entries: seq<CatalogFileVersion>, now: int): seq<CatalogFileVersion> {
    if |entries| == 0 then []
    else
      var rest := DropExpired(entries[1..], now);
      if Expired(entries[0], now) then rest else [entries[0]] + rest
  }

  lemma {:induction false} DropExpiredSpec(entries: seq<CatalogFileVersion>, now: int)
    ensures forall e :: e in DropExpired(entries, now) <==> e in entries && !Expired(e, now)
    ensures |DropExpired(entries, now)| <= |entries|
    ensures |DropExpired(entries, now)| == |entries| ==> DropExpired(entries, now) == entries
  {
    if |entries| > 0 {
      DropExpiredSpec(entries[1..], now);
      assert entries == [entries[0]] + entries[1..];
    }
  }

  lemma {:induction false} DropExpiredDistinct(entries: seq<CatalogFileVersion>, now: int)
    requires forall i, j :: 0 <= i < j < |entries| ==> entries[i].fileId != entries[j].fileId
    ensures var kept := DropExpired(entries, now);
            forall i, j :: 0 <= i < j < |kept| ==> kept[i].fileId != kept[j].fileId
  {
    if |entries| > 0 {
      DropExpiredDistinct(entries[1..], now);
      DropExpiredSpec(entries[1..], now);
      var rest := DropExpired(entries[1..], now);
      forall j | 0 <= j < |rest| ensures entries[0].fileId != rest[j].fileId {
        assert rest[j] in entries[1..];
      }
    }
  }

  lemma {:induction false} AddMatches(master: Key, vaultId: string, entries: seq<CatalogFileVersion>,
          files: FileMap, horizon: int,
                   e: CatalogFileVersion, bytes: Bytes)
    requires Matches(master, vaultId, entries, files, horizon)
    requires e.fileId !in files && e.deletedAt.None? && e.retentionUntil.None?
    requires Assemble(master, vaultId, e) == Some(bytes)
    ensures Matches(master, vaultId, entries + [e], files[e.fileId := FileEntry(bytes, None)], horizon)
  {
    var files' := files[e.fileId := FileEntry(bytes, None)];
    var entries' := entries + [e];
    forall d | d in entries' ensures Entails(master, vaultId, d, files') {
      if d in entries {
        assert Entails(master, vaultId, d, files);
      }
    }
    forall i, j | 0 <= i < j < |entries'| ensures entries'[i].fileId != entries'[j].fileId {
      assert entries[i] in entries;
      assert Entails(master, vaultId, entries[i], files);
    }
    forall id | id in files' && Restorable(files'[id], horizon)
      ensures exists d :: d in entries' && d.fileId == id
    {
      if id == e.fileId {
        assert e in entries';
      } else {
        var d :| d in entries && d.fileId == id;
        assert d in entries';
      }
    }
  }

  /** Where an entry of the tombstoned list came from. */
  lemma {:induction false} TombstoneIndex(entries: seq<CatalogFileVersion>, i: nat, now: int,
          d: CatalogFileVersion) returns (k: nat)
    requires i < |entries| && d in Tombstone(entries, i, now)
    ensures k < |entries| && Tombstone(entries, i, now)[k] == d && entries[k] in entries
    ensures k != i ==> d == entries[k]
  {
    k :| 0 <= k < |entries| && Tombstone(entries, i, now)[k] == d;
  }

  lemma {:induction false} DeleteMatches(master: Key, vaultId: string, entries: seq<CatalogFileVersion>,
          files: FileMap, horizon: int,
                      i: nat, now: int, files': FileMap)
    requires Matches(master, vaultId, entries, files, horizon)
    requires i < |entries| && entries[i].fileId in files
    requires files' == files[entries[i].fileId := files[entries[i].fileId].(deletedAt := Some(now))]
    ensures Matches(master, vaultId, Tombstone(entries, i, now), files', horizon)
  {
    var id := entries[i].fileId;
    var entries' := Tombstone(entries, i, now);
    forall d | d in entries' ensures Entails(master, vaultId, d, files') {
      var k := TombstoneIndex(entries, i, now, d);
      assert Entails(master, vaultId, entries[k], files);
    }
    forall id' | id' in files' && Restorable(files'[id'], horizon)
      ensures exists d :: d in entries' && d.fileId == id'
    {
      assert entries'[i] in entries';
      if id' != id {
        var d :| d in entries && d.fileId == id';
        var k :| 0 <= k < |entries| && entries[k] == d;
        assert entries'[k] in entries';
      }
    }
  }

  lemma {:induction false} DeleteLive(master: Key, vaultId: string, entries: seq<CatalogFileVersion>, horizon: int,
          i: nat, now: int)
    requires i < |entries| && entries[i].retentionUntil.None?
    ensures LiveObjects(master, vaultId, Tombstone(entries, i, now), horizon) <= LiveObjects(master, vaultId, entries, horizon)
  {
    var entries' := Tombstone(entries, i, now);
    forall c | c in LiveObjects(master, vaultId, entries', horizon)
      ensures c in LiveObjects(master, vaultId, entries, horizon)
    {
      var d :| d in entries' && !Expired(d, horizon) && c in Objects(master, vaultId, d);
      var k := TombstoneIndex(entries, i, now, d);
      assert Objects(master, vaultId, d) == Objects(master, vaultId, entries[k]);
    }
  }

  lemma {:induction false} GcMatches(master: Key, vaultId: string, entries: seq<CatalogFileVersion>,
          files: FileMap, horizon: int, now: int)
    requires Matches(master, vaultId, entries, files, horizon) && now <= horizon
    ensures Matches(master, vaultId, DropExpired(entries, now), files, horizon)
    ensures LiveObjects(master, vaultId, DropExpired(entries, now), now) == LiveObjects(master, vaultId, entries, now)
  {
    DropExpiredSpec(entries, now);
    DropExpiredDistinct(entries, now);
    var kept := DropExpired(entries, now);
    forall id | id in files && Restorable(files[id], horizon)
      ensures exists e :: e in kept && e.fileId == id
    {
      var e :| e in entries && e.fileId == id;
      assert Entails(master, vaultId, e, files);
      assert e in kept;
    }
    assert LiveObjects(master, vaultId, kept, now) == LiveObjects(master, vaultId, entries, now);
  }

  // ---------- the chunks that adding a file writes ----------

  /** A manifest naming the sealed pieces of `data` in order decodes to `data`. */
  lemma {:induction false} SealedDecode(m: FileManifest, vaultId: string, pieces: seq<Bytes>, nonce: nat, i: nat)
    requires |m.orderedChunkCids| == |m.chunkPlaintextLengths| == |pieces| && i <= |pieces|
    requires forall k :: 0 <= k < |pieces| ==>
               && m.orderedChunkCids[k] == Cid(SealPiece(m.fileKey, vaultId, m.fileVersionId, k, pieces[k], nonce + k))
               && m.chunkPlaintextLengths[k] == |pieces[k]|
    ensures DecodeChunks(m, vaultId, m.fileVersionId, i) == Some(Concat(pieces[i..]))
    decreases |pieces| - i
  {
    if i < |pieces| {
      SealedDecode(m, vaultId, pieces, nonce, i + 1);
      assert pieces[i..][1..] == pieces[i + 1..];
    }
  }

  // ---------- ready to commit ----------

  /** Saving the next catalog over these entries commits `files`. */
  lemma {:induction false} NextSound(s: Secrets, m: Moment, p: Pointer, q: Pointer,
          entries: seq<CatalogFileVersion>, files: FileMap)
    requires Sound(s, m) && m.state == Some(p)
    requires Previous(s.master, q) == Some(p) && HeadCatalog(s.master, q).value.files == entries
    requires Matches(s.master, p.vaultId, entries, files, m.horizon)
    requires AllKept(m.nodes, m.faulty, LiveObjects(s.master, p.vaultId, entries, m.horizon))
    requires Kept(m.nodes, m.faulty, q.catalogCid)
    ensures Sound(s, m.(state := Some(q), files := files))
  {
    NextNeeded(s.master, p, q, m.horizon);
    assert (set c | c in Chain(s.master, p).value) <= Needed(s.master, p, m.horizon);
    CommitSound(s, m, q, files);
  }

  /** A pointer linked onto the head stands for what its entries match. */
  lemma {:induction false} NextHeadSound(s: Secrets, m: Moment, p: Pointer, q: Pointer,
          entries: seq<CatalogFileVersion>, files: FileMap)
    requires Sound(s, m) && m.state == Some(p)
    requires Previous(s.master, q) == Some(p) && HeadCatalog(s.master, q).value.files == entries
    requires Matches(s.master, p.vaultId, entries, files, m.horizon)
    ensures HeadSound(s, q, files, m.horizon)
  {
    hide Matches;
  }

  /** The manifest and chunks that adding `bytes` wrote stand for `bytes`. */
  lemma {:induction false} AddedDecodes(master: Key, vaultId: string, e: CatalogFileVersion, m: FileManifest,
          bytes: Bytes, nonce: nat)
    requires |m.orderedChunkCids| == |m.chunkPlaintextLengths| == |Pieces(bytes)|
    requires forall k :: 0 <= k < |Pieces(bytes)| ==>
               && m.orderedChunkCids[k] == Cid(SealPiece(m.fileKey, vaultId, m.fileVersionId, k, Pieces(bytes)[k], nonce + k))
               && m.chunkPlaintextLengths[k] == |Pieces(bytes)[k]|
    requires m.plaintextHash == PlainHash(bytes) && m.fileId == e.fileId && m.fileVersionId == e.fileVersionId
    requires SealManifest(master, vaultId, m, nonce) == Some(e.manifestCid.blob)
    ensures Manifest(master, vaultId, e) == Some(m)
    ensures Assemble(master, vaultId, e) == Some(bytes)
  {
    SealedDecode(m, vaultId, Pieces(bytes), nonce, 0);
    PiecesConcat(bytes);
    assert Pieces(bytes)[0..] == Pieces(bytes);
  }

  lemma {:induction false} AddReady(s: Secrets, m: Moment, p: Pointer, entries: seq<CatalogFileVersion>,
          e: CatalogFileVersion, bytes: Bytes)
    requires Sound(s, m) && m.state == Some(p) && HeadCatalog(s.master, p).value.files == entries
    requires e.fileId !in m.files && e.deletedAt.None? && e.retentionUntil.None?
    requires Assemble(s.master, p.vaultId, e) == Some(bytes)
    requires AllKept(m.nodes, m.faulty, Objects(s.master, p.vaultId, e))
    ensures Matches(s.master, p.vaultId, entries + [e], m.files[e.fileId := FileEntry(bytes, None)], m.horizon)
    ensures AllKept(m.nodes, m.faulty, LiveObjects(s.master, p.vaultId, entries + [e], m.horizon))
  {
    AddMatches(s.master, p.vaultId, entries, m.files, m.horizon, e, bytes);
    forall c | c in LiveObjects(s.master, p.vaultId, entries + [e], m.horizon) ensures Kept(m.nodes, m.faulty, c) {
      var d :| d in entries + [e] && !Expired(d, m.horizon) && c in Objects(s.master, p.vaultId, d);
      if d in entries {
        assert c in LiveObjects(s.master, p.vaultId, entries, m.horizon);
      }
    }
  }

  lemma {:induction false} DeleteReady(s: Secrets, m: Moment, p: Pointer, entries: seq<CatalogFileVersion>, i: nat,
          now: int, files: FileMap)
    requires Sound(s, m) && m.state == Some(p) && HeadCatalog(s.master, p).value.files == entries
    requires i < |entries| && entries[i].deletedAt.None? && entries[i].fileId in m.files
    requires files == m.files[entries[i].fileId := m.files[entries[i].fileId].(deletedAt := Some(now))]
    ensures Matches(s.master, p.vaultId, Tombstone(entries, i, now), files, m.horizon)
    ensures AllKept(m.nodes, m.faulty, LiveObjects(s.master, p.vaultId, Tombstone(entries, i, now), m.horizon))
  {
    DeleteMatches(s.master, p.vaultId, entries, m.files, m.horizon, i, now, files);
    assert Entails(s.master, p.vaultId, entries[i], m.files);
    DeleteLive(s.master, p.vaultId, entries, m.horizon, i, now);
  }

  lemma {:induction false} NeededShrinks(master: Key, p: Pointer, now: int, later: int)
    requires now <= later
    ensures Needed(master, p, later) <= Needed(master, p, now)
  {
    if Chain(master, p).Some? {
      var entries := HeadCatalog(master, p).value.files;
      assert LiveObjects(master, p.vaultId, entries, later) <= LiveObjects(master, p.vaultId, entries, now);
    }
  }

  lemma {:induction false} GcReady(s: Secrets, m: Moment, p: Pointer, entries: seq<CatalogFileVersion>, now: int)
    requires Sound(s, m) && m.state == Some(p) && HeadCatalog(s.master, p).value.files == entries && now <= m.horizon
    ensures Matches(s.master, p.vaultId, DropExpired(entries, now), m.files, m.horizon)
    ensures AllKept(m.nodes, m.faulty, LiveObjects(s.master, p.vaultId, DropExpired(entries, now), m.horizon))
  {
    GcMatches(s.master, p.vaultId, entries, m.files, m.horizon, now);
    DropExpiredSpec(entries, now);
    assert LiveObjects(s.master, p.vaultId, DropExpired(entries, now), m.horizon) <= LiveObjects(s.master, p.vaultId, entries, m.horizon);
  }

  /** The shortened catalog needs what the old one needed, and itself. */
  lemma {:induction false} GcNeeded(master: Key, p: Pointer, q: Pointer, now: int)
    requires Chain(master, p).Some? && Previous(master, q) == Some(p) && p.catalogVersion >= 1
    requires HeadCatalog(master, q).value.files == DropExpired(HeadCatalog(master, p).value.files, now)
    ensures Needed(master, q, now) == Needed(master, p, now) + {q.catalogCid}
    ensures Needed(master, q, now) == Needed(master, p, now) + set c | c in Chain(master, q).value
  {
    var entries := HeadCatalog(master, p).value.files;
    NextNeeded(master, p, q, now);
    DropExpiredSpec(entries, now);
    assert LiveObjects(master, p.vaultId, DropExpired(entries, now), now) == LiveObjects(master, p.vaultId, entries, now);
  }

  // ---------- how many copies ----------

  lemma {:induction false} KeptSpread(nodes: seq<Disk>, c: Cid)
    requires Kept(nodes, {}, c)
    ensures Spread(nodes, {c}, Due(c))
  {
  }

  /**
    A sound vault none of whose nodes was lost has five copies of its head and of each manifest
    and three of each chunk, exactly when the expired files it still lists do.
   */
  lemma {:induction false} SoundReplicatedIff(s: Secrets, m: Moment)
    requires Sound(s, m) && m.state.Some? && m.faulty == {}
    ensures FullyReplicated(s.master, m.state.value, m.nodes) <==>
              forall e :: e in HeadCatalog(s.master, m.state.value).value.files && Expired(e, m.horizon) ==>
                FileReplicated(s.master, m.state.value.vaultId, e, m.nodes)
  {
    hide Kept;
    var p := m.state.value;
    var entries := HeadCatalog(s.master, p).value.files;
    assert p.catalogCid in Chain(s.master, p).value;
    KeptSpread(m.nodes, p.catalogCid);
    CatalogDue(s.master, p);
    forall e | e in entries && !Expired(e, m.horizon) ensures FileReplicated(s.master, p.vaultId, e, m.nodes) {
      LiveReplicated(s, m, e);
    }
  }

  lemma {:induction false} CatalogDue(master: Key, p: Pointer)
    requires HeadCatalog(master, p).Some?
    ensures Due(p.catalogCid) == 5
  {
  }

  lemma {:induction false} LiveReplicated(s: Secrets, m: Moment, e: CatalogFileVersion)
    requires Sound(s, m) && m.state.Some? && m.faulty == {}
    requires e in HeadCatalog(s.master, m.state.value).value.files && !Expired(e, m.horizon)
    ensures FileReplicated(s.master, m.state.value.vaultId, e, m.nodes)
  {
    hide Kept;
    var p := m.state.value;
    assert Entails(s.master, p.vaultId, e, m.files);
    var manifest := Manifest(s.master, p.vaultId, e).value;
    forall c | c in Objects(s.master, p.vaultId, e) ensures Spread(m.nodes, {c}, 3) {
      assert c in LiveObjects(s.master, p.vaultId, HeadCatalog(s.master, p).value.files, m.horizon);
      KeptSpread(m.nodes, c);
    }
    assert e.manifestCid in LiveObjects(s.master, p.vaultId, HeadCatalog(s.master, p).value.files, m.horizon) by {
      assert e.manifestCid in Objects(s.master, p.vaultId, e);
    }
    KeptSpread(m.nodes, e.manifestCid);
    forall c | c in manifest.orderedChunkCids ensures |Holders(m.nodes, {}, c)| >= 3 {
      assert c in Objects(s.master, p.vaultId, e);
    }
  }

  // ---------- interrupted collections ----------

  function Without(nodes: seq<Disk>, c: Cid): seq<Disk> {
    seq(|nodes|, i requires 0 <= i < |nodes| => nodes[i] - {c})
  }

  /**
    A crash in the middle of the command line's collector can leave a sound vault whose catalog
    lists an expired entry with no manifest left anywhere.
   */
  lemma {:induction false} InterruptedGc(s: Secrets, m: Moment, e: CatalogFileVersion)
    requires Sound(s, m) && m.state.Some? && e in HeadCatalog(s.master, m.state.value).value.files
    requires e.manifestCid !in Needed(s.master, m.state.value, m.horizon)
    ensures Sound(s, m.(nodes := Without(m.nodes, e.manifestCid)))
    ensures !Found(Without(m.nodes, e.manifestCid), e.manifestCid)
  {
    NodeStepSound(s, m, Without(m.nodes, e.manifestCid));
  }

  lemma {:induction false} EntryEntails(s: Secrets, m: Moment, e: CatalogFileVersion)
    requires Sound(s, m) && m.state.Some?
    ensures HeadCatalog(s.master, m.state.value).Some?
    ensures e in HeadCatalog(s.master, m.state.value).value.files ==> Entails(s.master, m.state.value.vaultId, e, m.files)
  {
  }

  /** A file not deleted has an entry not deleted. */
  lemma {:induction false} ActiveListed(s: Secrets, m: Moment, id: string)
    requires Sound(s, m) && m.state.Some?
    ensures id in m.files && m.files[id].deletedAt.None? ==>
              exists e :: e in HeadCatalog(s.master, m.state.value).value.files && e.fileId == id && e.deletedAt.None?
  {
    if id in m.files && m.files[id].deletedAt.None? {
      var e :| e in HeadCatalog(s.master, m.state.value).value.files && e.fileId == id;
      assert Entails(s.master, m.state.value.vaultId, e, m.files);
    }
  }

  /** In a sound vault every read the desktop's collector makes succeeds. */
  lemma {:induction false} LiveReadsSucceed(s: Secrets, m: Moment, now: int)
    requires Sound(s, m) && m.state.Some? && m.horizon <= now
    ensures Chain(s.master, m.state.value).Some? && HeadCatalog(s.master, m.state.value).Some? && m.kit.Some?
    ensures Found(m.nodes, m.state.value.catalogCid)
    ensures forall c :: c in Chain(s.master, m.state.value).value ==> Found(m.nodes, c)
    ensures forall e :: e in HeadCatalog(s.master, m.state.value).value.files && !Expired(e, now) ==>
              Found(m.nodes, e.manifestCid) && Manifest(s.master, m.state.value.vaultId, e).Some?
  {
    var p := m.state.value;
    forall c | c in Needed(s.master, p, m.horizon) ensures Found(m.nodes, c) {
      KeptFound(m.nodes, m.faulty, c);
    }
    assert p.catalogCid in Chain(s.master, p).value;
    forall e | e in HeadCatalog(s.master, p).value.files && !Expired(e, now)
      ensures Found(m.nodes, e.manifestCid) && Manifest(s.master, p.vaultId, e).Some?
    {
      assert Entails(s.master, p.vaultId, e, m.files);
      assert e.manifestCid in Objects(s.master, p.vaultId, e);
      assert e.manifestCid in LiveObjects(s.master, p.vaultId, HeadCatalog(s.master, p).value.files, m.horizon);
    }
  }
}
