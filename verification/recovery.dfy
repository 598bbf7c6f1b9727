/**
  Recovery from a possibly stale kit: scanning storage-node roots for a newer, contiguous,
  owner-signed catalog chain, and rebuilding a vault from what it names.
 */
module Recovery {
  import opened Wrappers
  import opened Identity
  import opened Sealed
  import opened Nodes
  import opened VaultModel

  const DISCOVERY_WINDOW: nat := 10_000

  /** A storage-node root and the CIDs its index lists, in listing order. */
  datatype Source = Source(disk: Disk, listed: seq<Cid>)

  function Disks(sources: seq<Source>): seq<Disk> {
    seq(|sources|, i requires 0 <= i < |sources| => sources[i].disk)
  }

  /** Opening a root rebuilds its index, so it lists exactly its valid blobs. */
  ghost predicate Opened(sources: seq<Source>) {
    forall i, c :: 0 <= i < |sources| ==> (c in sources[i].listed <==> Holds(sources[i].disk, c))
  }

  // ---------- which catalog discovery settles on ----------

  /** `c` is a catalog of the kit's vault at version `v`. */
  predicate OpensAt(master: Key, kit: Pointer, c: Cid, v: nat) {
    OpenCatalog(master, kit.vaultId, v, kit.owner, c.blob).Some?
  }

  /** The one later version, within the window, at which `c` opens. */
  function CandidateVersion(master: Key, kit: Pointer, c: Cid): Option<nat> {
    if && c.blob.Envelope? && c.blob.aad.CatalogAad?
       && kit.catalogVersion < c.blob.aad.version <= kit.catalogVersion + DISCOVERY_WINDOW
       && OpensAt(master, kit, c, c.blob.aad.version)
    then Some(c.blob.aad.version)
    else None
  }

  /** The candidate kept for version `v`: the last one scanned. */
  function Candidate(master: Key, kit: Pointer, scanned: seq<Cid>, v: nat): Option<Cid> {
    if |scanned| == 0 then None
    else if CandidateVersion(master, kit, scanned[|scanned| - 1]) == Some(v) then Some(scanned[|scanned| - 1])
    else Candidate(master, kit, scanned[..|scanned| - 1], v)
  }

  lemma {:induction false} CandidateSpec(master: Key, kit: Pointer, scanned: seq<Cid>, v: nat)
    ensures match Candidate(master, kit, scanned, v)
            case Some(c) => c in scanned && CandidateVersion(master, kit, c) == Some(v)
            case None => forall c :: c in scanned ==> CandidateVersion(master, kit, c) != Some(v)
  {
    if |scanned| > 0 {
      CandidateSpec(master, kit, scanned[..|scanned| - 1], v);
      assert scanned == scanned[..|scanned| - 1] + [scanned[|scanned| - 1]];
    }
  }

  function At(kit: Pointer, c: Cid, v: nat): Pointer {
    Pointer(kit.vaultId, c, v, kit.owner)
  }

  /** The kept candidate one past `at` names `at` as its predecessor. */
  predicate LinksOnto(master: Key, kit: Pointer, scanned: seq<Cid>, at: Pointer) {
    var next := Candidate(master, kit, scanned, at.catalogVersion + 1);
    next.Some? &&
    var catalog := HeadCatalog(master, At(kit, next.value, at.catalogVersion + 1));
    catalog.Some? && catalog.value.previousCatalogCid == Some(at.catalogCid)
  }

  /** Follows kept candidates upward while each names the one before. */
  function Walk(master: Key, kit: Pointer, scanned: seq<Cid>, at: Pointer): Pointer
    decreases kit.catalogVersion + DISCOVERY_WINDOW + 1 - at.catalogVersion
  {
    if at.catalogVersion <= kit.catalogVersion + DISCOVERY_WINDOW && LinksOnto(master, kit, scanned, at) then
      Walk(master, kit, scanned,
           At(kit, Candidate(master, kit, scanned, at.catalogVersion + 1).value, at.catalogVersion + 1))
    else
      at
  }

  /** With no premise at all, the result is linked to the kit's catalog version by version, and never older. */
  lemma {:induction false} WalkLinked(master: Key, kit: Pointer, scanned: seq<Cid>, at: Pointer)
    requires at.vaultId == kit.vaultId && at.owner == kit.owner
    requires HeadCatalog(master, at).Some? && Descends(master, at, kit) && at.catalogVersion >= kit.catalogVersion
    ensures var found := Walk(master, kit, scanned, at);
            && Descends(master, found, kit)
            && found.catalogVersion >= at.catalogVersion
            && HeadCatalog(master, found).Some?
            && found.vaultId == kit.vaultId && found.owner == kit.owner
    decreases kit.catalogVersion + DISCOVERY_WINDOW + 1 - at.catalogVersion
  {
    if at.catalogVersion <= kit.catalogVersion + DISCOVERY_WINDOW && LinksOnto(master, kit, scanned, at) {
      var next := At(kit, Candidate(master, kit, scanned, at.catalogVersion + 1).value, at.catalogVersion + 1);
      assert Previous(master, next) == Some(at);
      WalkLinked(master, kit, scanned, next);
    }
  }

  /** The ancestor of `head` at version `v`, if its chain reaches that far. */
  function Ancestor(master: Key, head: Pointer, v: nat): Option<Pointer>
    decreases head.catalogVersion
  {
    if head.catalogVersion == v then Some(head)
    else if Previous(master, head).Some? then Ancestor(master, Previous(master, head).value, v)
    else None
  }

  lemma {:induction false} DescendsVersion(master: Key, p: Pointer, q: Pointer)
    requires Descends(master, p, q)
    ensures p.catalogVersion >= q.catalogVersion && p.vaultId == q.vaultId && p.owner == q.owner
    ensures p.catalogVersion == q.catalogVersion ==> p == q
    decreases p.catalogVersion
  {
    if p != q {
      DescendsVersion(master, Previous(master, p).value, q);
    }
  }

  /** Between a head and a descendant-of pointer every version has its ancestor, linked to the next. */
  lemma {:induction false} AncestorBetween(master: Key, head: Pointer, kit: Pointer, v: nat)
    requires Descends(master, head, kit) && kit.catalogVersion <= v <= head.catalogVersion
    ensures var a := Ancestor(master, head, v);
            && a.Some? && a.value.catalogVersion == v
            && a.value.vaultId == kit.vaultId && a.value.owner == kit.owner
            && Descends(master, a.value, kit)
    ensures v < head.catalogVersion ==>
              && Ancestor(master, head, v + 1).Some?
              && Previous(master, Ancestor(master, head, v + 1).value) == Ancestor(master, head, v)
    decreases head.catalogVersion
  {
    DescendsVersion(master, head, kit);
    if v < head.catalogVersion {
      var previous := Previous(master, head).value;
      AncestorBetween(master, previous, kit, v);
    }
  }

  /** The candidate kept at each version up to the head is the head's own ancestor. */
  ghost predicate KeptChain(master: Key, kit: Pointer, scanned: seq<Cid>, head: Pointer, from: nat) {
    forall v :: from < v <= head.catalogVersion ==>
      Ancestor(master, head, v).Some? &&
      Candidate(master, kit, scanned, v) == Some(Ancestor(master, head, v).value.catalogCid)
  }

  /**
    Exactly when discovery finds the head: it lies within the window, at each version on the
    way the candidate kept is the chain's own, and none kept beyond it links on.
   */
  lemma {:induction false} WalkFindsHead(master: Key, kit: Pointer, scanned: seq<Cid>, head: Pointer, at: Pointer)
    requires Descends(master, head, kit) && kit.catalogVersion <= at.catalogVersion <= head.catalogVersion
    requires Ancestor(master, head, at.catalogVersion) == Some(at)
    requires at.catalogVersion <= kit.catalogVersion + 10_000
    ensures Walk(master, kit, scanned, at) == head <==>
              && head.catalogVersion <= kit.catalogVersion + 10_000
              && KeptChain(master, kit, scanned, head, at.catalogVersion)
              && !LinksOnto(master, kit, scanned, head)
    decreases head.catalogVersion - at.catalogVersion
  {
    hide Walk, LinksOnto, Descends, Previous;
    if at.catalogVersion == head.catalogVersion {
      WalkAtHead(master, kit, scanned, head);
    } else {
      hide KeptChain;
      AncestorBetween(master, head, kit, at.catalogVersion);
      AncestorBetween(master, head, kit, at.catalogVersion + 1);
      var up := Ancestor(master, head, at.catalogVersion + 1).value;
      if Candidate(master, kit, scanned, at.catalogVersion + 1) == Some(up.catalogCid) {
        CandidateSpec(master, kit, scanned, at.catalogVersion + 1);
        WalkFindsHead(master, kit, scanned, head, up);
      }
      WalkFindsHeadStep(master, kit, scanned, head, at, up);
    }
  }

  /** One version further down, given where the walk ends from the next ancestor up. */
  lemma {:induction false} WalkFindsHeadStep(master: Key, kit: Pointer, scanned: seq<Cid>, head: Pointer, at: Pointer,
          up: Pointer)
    requires at.catalogVersion < head.catalogVersion && at.catalogVersion <= kit.catalogVersion + 10_000
    requires Ancestor(master, head, at.catalogVersion + 1) == Some(up) && Previous(master, up) == Some(at)
    requires up.catalogVersion == at.catalogVersion + 1 && at.vaultId == kit.vaultId && at.owner == kit.owner
    requires Candidate(master, kit, scanned, at.catalogVersion + 1) == Some(up.catalogCid) ==>
               (Walk(master, kit, scanned, up) == head <==>
                  && head.catalogVersion <= kit.catalogVersion + 10_000
                  && KeptChain(master, kit, scanned, head, up.catalogVersion)
                  && !LinksOnto(master, kit, scanned, head))
    ensures Walk(master, kit, scanned, at) == head <==>
              && head.catalogVersion <= kit.catalogVersion + 10_000
              && KeptChain(master, kit, scanned, head, at.catalogVersion)
              && !LinksOnto(master, kit, scanned, head)
  {
    WalkStep(master, kit, scanned, head, at, up);
    KeptChainStep(master, kit, scanned, head, at.catalogVersion);
    hide *;
  }

  lemma {:induction false} WalkAtHead(master: Key, kit: Pointer, scanned: seq<Cid>, head: Pointer)
    requires head.catalogVersion <= kit.catalogVersion + 10_000
    ensures Walk(master, kit, scanned, head) == head <==> !LinksOnto(master, kit, scanned, head)
  {
    if LinksOnto(master, kit, scanned, head) {
      WalkGrows(master, kit, scanned,
                At(kit, Candidate(master, kit, scanned, head.catalogVersion + 1).value, head.catalogVersion + 1));
    }
  }

  lemma {:induction false} KeptChainStep(master: Key, kit: Pointer, scanned: seq<Cid>, head: Pointer, v: nat)
    requires v < head.catalogVersion && Ancestor(master, head, v + 1).Some?
    ensures KeptChain(master, kit, scanned, head, v) <==>
              && Candidate(master, kit, scanned, v + 1) == Some(Ancestor(master, head, v + 1).value.catalogCid)
              && KeptChain(master, kit, scanned, head, v + 1)
  {
  }

  /** Below the head, the walk goes on towards it exactly when it steps to the next ancestor. */
  lemma {:induction false} WalkStep(master: Key, kit: Pointer, scanned: seq<Cid>, head: Pointer, at: Pointer, up: Pointer)
    requires at.catalogVersion < head.catalogVersion && at.catalogVersion <= kit.catalogVersion + 10_000
    requires Ancestor(master, head, at.catalogVersion + 1) == Some(up) && Previous(master, up) == Some(at)
    requires up.catalogVersion == at.catalogVersion + 1 && at.vaultId == kit.vaultId && at.owner == kit.owner
    ensures Candidate(master, kit, scanned, at.catalogVersion + 1) == Some(up.catalogCid) ==>
              Walk(master, kit, scanned, at) == Walk(master, kit, scanned, up)
    ensures Candidate(master, kit, scanned, at.catalogVersion + 1) != Some(up.catalogCid) ==>
              Walk(master, kit, scanned, at) != head
  {
    var next := Candidate(master, kit, scanned, at.catalogVersion + 1);
    if next == Some(up.catalogCid) {
      assert At(kit, next.value, at.catalogVersion + 1) == up;
      assert LinksOnto(master, kit, scanned, at);
    } else if LinksOnto(master, kit, scanned, at) {
      WalkMissesHead(master, kit, scanned, head, At(kit, next.value, at.catalogVersion + 1), up);
    }
  }

  lemma {:induction false} WalkGrows(master: Key, kit: Pointer, scanned: seq<Cid>, at: Pointer)
    ensures Walk(master, kit, scanned, at).catalogVersion >= at.catalogVersion
    decreases kit.catalogVersion + DISCOVERY_WINDOW + 1 - at.catalogVersion
  {
    if at.catalogVersion <= kit.catalogVersion + DISCOVERY_WINDOW && LinksOnto(master, kit, scanned, at) {
      WalkGrows(master, kit, scanned,
                At(kit, Candidate(master, kit, scanned, at.catalogVersion + 1).value, at.catalogVersion + 1));
    }
  }

  /** Once off the head's chain, the walk stays off it. */
  lemma {:induction false} WalkMissesHead(master: Key, kit: Pointer, scanned: seq<Cid>, head: Pointer, at: Pointer,
          own: Pointer)
    requires Ancestor(master, head, at.catalogVersion) == Some(own) && own != at
    requires at.catalogVersion <= head.catalogVersion
    requires at.vaultId == own.vaultId && at.owner == own.owner && own.catalogVersion == at.catalogVersion
    requires at.vaultId == kit.vaultId && at.owner == kit.owner
    ensures Walk(master, kit, scanned, at) != head
    decreases kit.catalogVersion + DISCOVERY_WINDOW + 1 - at.catalogVersion
  {
    if at.catalogVersion <= kit.catalogVersion + DISCOVERY_WINDOW && LinksOnto(master, kit, scanned, at) {
      var next := At(kit, Candidate(master, kit, scanned, at.catalogVersion + 1).value, at.catalogVersion + 1);
      if at.catalogVersion < head.catalogVersion {
        AncestorStep(master, head, at.catalogVersion);
        var up := Ancestor(master, head, at.catalogVersion + 1).value;
        assert Previous(master, next) == Some(at);
        WalkMissesHead(master, kit, scanned, head, next, up);
      } else {
        WalkGrows(master, kit, scanned, next);
      }
    }
  }

  lemma {:induction false} AncestorStep(master: Key, head: Pointer, v: nat)
    requires Ancestor(master, head, v).Some? && v < head.catalogVersion
    ensures Ancestor(master, head, v + 1).Some?
    ensures Previous(master, Ancestor(master, head, v + 1).value) == Ancestor(master, head, v)
    ensures Ancestor(master, head, v + 1).value.catalogVersion == v + 1
    ensures Ancestor(master, head, v + 1).value.vaultId == head.vaultId
    ensures Ancestor(master, head, v + 1).value.owner == head.owner
    decreases head.catalogVersion
  {
    var previous := Previous(master, head).value;
    if v < previous.catalogVersion {
      AncestorStep(master, previous, v);
    }
  }

  // ---------- when the head is sure to be found ----------

  /**
    Whatever the roots hold that opens as a later catalog is the head or an ancestor of it: no
    version is held twice, and none above the head's.
   */
  ghost predicate Uncontested(master: Key, kit: Pointer, head: Pointer, disks: seq<Disk>) {
    forall c :: Found(disks, c) && CandidateVersion(master, kit, c).Some? ==>
      var v := CandidateVersion(master, kit, c).value;
      && v <= head.catalogVersion
      && Ancestor(master, head, v).Some?
      && Ancestor(master, head, v).value.catalogCid == c
  }

  lemma {:induction false} AncestorOnChain(master: Key, head: Pointer, v: nat)
    requires Chain(master, head).Some? && Ancestor(master, head, v).Some?
    ensures Ancestor(master, head, v).value.catalogCid in Chain(master, head).value
    ensures HeadCatalog(master, Ancestor(master, head, v).value).Some?
    ensures Ancestor(master, head, v).value.catalogVersion == v
    decreases head.catalogVersion
  {
    if head.catalogVersion != v {
      AncestorOnChain(master, Previous(master, head).value, v);
    }
  }

  /**
    From a kit exported at any earlier version, discovery finds the head, when the roots hold
    its chain and no other later catalog and the head is within the window.
   */
  lemma {:induction false} UncontestedFindsHead(master: Key, kit: Pointer, scanned: seq<Cid>, head: Pointer,
          disks: seq<Disk>)
    requires Descends(master, head, kit) && Chain(master, head).Some?
    requires head.catalogVersion <= kit.catalogVersion + 10_000
    requires forall c :: c in scanned <==> Found(disks, c)
    requires forall c :: c in Chain(master, head).value ==> Found(disks, c)
    requires Uncontested(master, kit, head, disks)
    ensures Walk(master, kit, scanned, kit) == head
  {
    hide Walk, Descends, Previous, Chain;
    DescendsVersion(master, head, kit);
    AncestorBetween(master, head, kit, kit.catalogVersion);
    DescendsVersion(master, Ancestor(master, head, kit.catalogVersion).value, kit);
    forall v | kit.catalogVersion < v <= head.catalogVersion
      ensures Ancestor(master, head, v).Some?
      ensures Candidate(master, kit, scanned, v) == Some(Ancestor(master, head, v).value.catalogCid)
    {
      AncestorBetween(master, head, kit, v);
      AncestorOnChain(master, head, v);
      CandidateSpec(master, kit, scanned, v);
      var c := Ancestor(master, head, v).value.catalogCid;
      assert c in scanned;
      assert CandidateVersion(master, kit, c) == Some(v);
    }
    CandidateSpec(master, kit, scanned, head.catalogVersion + 1);
    WalkFindsHead(master, kit, scanned, head, kit);
  }

  /** Of two CIDs, the one scanned last. */
  function ScannedLast(scanned: seq<Cid>, a: Cid, b: Cid): Cid {
    if |scanned| == 0 then a
    else
      var c := scanned[|scanned| - 1];
      if c == a || c == b then c else ScannedLast(scanned[..|scanned| - 1], a, b)
  }

  lemma {:induction false} LastRivalIsKept(master: Key, kit: Pointer, scanned: seq<Cid>, a: Cid, b: Cid, v: nat)
    requires CandidateVersion(master, kit, a) == CandidateVersion(master, kit, b) == Some(v)
    requires forall c :: c in scanned && CandidateVersion(master, kit, c) == Some(v) ==> c == a || c == b
    requires a in scanned && b in scanned
    ensures Candidate(master, kit, scanned, v) == Some(ScannedLast(scanned, a, b))
  {
    hide CandidateVersion;
    var front, c := scanned[..|scanned| - 1], scanned[|scanned| - 1];
    assert scanned == front + [c];
    if c != a && c != b {
      LastRivalIsKept(master, kit, front, a, b, v);
    }
  }

  /**
    Of two catalogs that both come next after the kit's, with no later one, discovery ends at the
    one scanned last, saved or not.
   */
  lemma {:induction false} LastRivalWins(master: Key, kit: Pointer, scanned: seq<Cid>, h: Pointer, q: Pointer)
    requires h != q && Previous(master, h) == Some(kit) && Previous(master, q) == Some(kit)
    requires h.catalogCid in scanned && q.catalogCid in scanned
    requires forall c :: c in scanned && CandidateVersion(master, kit, c).Some? ==> c == h.catalogCid || c == q.catalogCid
    ensures Walk(master, kit, scanned, kit) ==
            if ScannedLast(scanned, h.catalogCid, q.catalogCid) == h.catalogCid then h else q
  {
    var v := kit.catalogVersion + 1;
    assert CandidateVersion(master, kit, h.catalogCid) == Some(v) && CandidateVersion(master, kit, q.catalogCid) == Some(v);
    LastRivalIsKept(master, kit, scanned, h.catalogCid, q.catalogCid, v);
    CandidateSpec(master, kit, scanned, v);
    CandidateSpec(master, kit, scanned, v + 1);
  }

  /**
    A commit cut short after its catalog was replicated, and then made again, leaves two
    catalogs of one version that both name the kit's. Whether discovery ends at the saved one
    or takes up the other depends on the order of the scan alone.
   */
  lemma {:induction false} RetriedCommitDecidedByOrder()
    returns (master: Key, kit: Pointer, head: Pointer, rival: Pointer)
    ensures head != rival && Previous(master, head) == Some(kit) && Previous(master, rival) == Some(kit)
    ensures Walk(master, kit, [rival.catalogCid, head.catalogCid], kit) == head
    ensures Walk(master, kit, [head.catalogCid, rival.catalogCid], kit) == rival
  {
    master := Random(0);
    var owner := PublicKey([1]);
    var first := FirstCatalog(owner, "vault", 10);
    kit := Pointer("vault", Cid(SealCatalog(master, owner, first, 0).value), 1, owner);
    head := NextPointer(kit, SealCatalog(master, owner, NextCatalog(first, kit, [], 20), 1).value);
    rival := NextPointer(kit, SealCatalog(master, owner, NextCatalog(first, kit, [], 30), 2).value);
    assert HeadCatalog(master, kit) == Some(first);
    LastRivalWins(master, kit, [rival.catalogCid, head.catalogCid], head, rival);
    LastRivalWins(master, kit, [head.catalogCid, rival.catalogCid], head, rival);
  }

  // ---------- after a collection there is no contest ----------

  lemma {:induction false} ChunksAreChunks(m: FileManifest, vaultId: string, versionId: string, i: nat)
    requires |m.orderedChunkCids| == |m.chunkPlaintextLengths| && i <= |m.orderedChunkCids|
    requires DecodeChunks(m, vaultId, versionId, i).Some?
    ensures forall k :: i <= k < |m.orderedChunkCids| ==>
              m.orderedChunkCids[k].blob.Envelope? && m.orderedChunkCids[k].blob.aad.ChunkAad?
    decreases |m.orderedChunkCids| - i
  {
    if i < |m.orderedChunkCids| {
      ChunksAreChunks(m, vaultId, versionId, i + 1);
    }
  }

  lemma {:induction false} ObjectsAreNotCatalogs(master: Key, vaultId: string, e: CatalogFileVersion, c: Cid)
    requires Assemble(master, vaultId, e).Some? && c in Objects(master, vaultId, e)
    ensures c.blob.Envelope? && !c.blob.aad.CatalogAad?
  {
    var m := Manifest(master, vaultId, e).value;
    ChunksAreChunks(m, vaultId, e.fileVersionId, 0);
  }

  lemma {:induction false} ChainIsAncestors(master: Key, head: Pointer, c: Cid)
    requires Chain(master, head).Some? && c in Chain(master, head).value
    ensures c.blob.Envelope? && c.blob.aad.CatalogAad?
    ensures var v := c.blob.aad.version;
            && v <= head.catalogVersion
            && Ancestor(master, head, v).Some?
            && Ancestor(master, head, v).value.catalogCid == c
    decreases head.catalogVersion
  {
    if c != head.catalogCid {
      ChainIsAncestors(master, Previous(master, head).value, c);
    }
  }

  /**
    A vault whose nodes hold nothing but needed objects, as every completed collection leaves
    it, has one catalog for each version, whichever copies are then lost or no longer valid.
   */
  lemma {:induction false} CollectedUncontested(s: Secrets, m: Moment, now: int, kit: Pointer, disks: seq<Disk>)
    requires Sound(s, m) && m.state.Some? && kit in m.issued
    requires forall c :: Found(disks, c) ==> c in Needed(s.master, m.state.value, now)
    ensures Uncontested(s.master, kit, m.state.value, disks)
  {
    var head := m.state.value;
    var entries := HeadCatalog(s.master, head).value.files;
    DescendsVersion(s.master, head, kit);
    forall c | Found(disks, c) && CandidateVersion(s.master, kit, c).Some?
      ensures c in Chain(s.master, head).value
    {
      if c !in Chain(s.master, head).value {
        var e :| e in entries && !Expired(e, now) && c in Objects(s.master, head.vaultId, e);
        assert Entails(s.master, head.vaultId, e, m.files);
        ObjectsAreNotCatalogs(s.master, head.vaultId, e, c);
      }
    }
    forall c | Found(disks, c) && CandidateVersion(s.master, kit, c).Some?
      ensures var v := CandidateVersion(s.master, kit, c).value;
              && v <= head.catalogVersion
              && Ancestor(s.master, head, v).Some?
              && Ancestor(s.master, head, v).value.catalogCid == c
    {
      ChainIsAncestors(s.master, head, c);
    }
  }

  // ---------- what the scan comes to ----------

  /** Every CID these roots list. */
  function Seen(sources: seq<Source>): set<Cid> {
    set source, c | source in sources && c in source.listed :: c
  }

  /** What scanning the first `n` CIDs a root lists adds: those not seen before and valid there. */
  function ScannedAt(source: Source, seen: set<Cid>, n: nat): seq<Cid>
    requires n <= |source.listed|
  {
    if n == 0 then []
    else
      var before, c := ScannedAt(source, seen, n - 1), source.listed[n - 1];
      if c in seen || c in source.listed[..n - 1] || !Holds(source.disk, c) then before else before + [c]
  }

  /** The catalogs discovery tries, in order; a CID is tried at the first root that lists it. */
  function Scanned(sources: seq<Source>): seq<Cid> {
    if |sources| == 0 then []
    else
      var before, source := sources[..|sources| - 1], sources[|sources| - 1];
      Scanned(before) + ScannedAt(source, Seen(before), |source.listed|)
  }

  lemma {:induction false} ScannedAtSpec(source: Source, seen: set<Cid>, n: nat)
    requires n <= |source.listed|
    ensures forall c :: c in ScannedAt(source, seen, n) <==>
              c in source.listed[..n] && c !in seen && Holds(source.disk, c)
  {
    if n > 0 {
      ScannedAtSpec(source, seen, n - 1);
      assert source.listed[..n] == source.listed[..n - 1] + [source.listed[n - 1]];
    }
  }

  /** Opened roots are scanned in full: what is tried is exactly what some root can give. */
  lemma {:induction false} ScannedIsFound(sources: seq<Source>)
    requires Opened(sources)
    ensures forall c :: c in Scanned(sources) <==> Found(Disks(sources), c)
  {
    if |sources| > 0 {
      var before, source := sources[..|sources| - 1], sources[|sources| - 1];
      forall i, c | 0 <= i < |before| ensures c in before[i].listed <==> Holds(before[i].disk, c) {
        assert before[i] == sources[i];
      }
      ScannedIsFound(before);
      ScannedAtSpec(source, Seen(before), |source.listed|);
      assert source.listed[..|source.listed|] == source.listed;
      FoundInLast(sources);
      forall c ensures c in Seen(before) <==> Found(Disks(before), c) {
        SeenIsFound(before, c);
      }
    }
  }

  lemma {:induction false} SeenIsFound(sources: seq<Source>, c: Cid)
    requires Opened(sources)
    ensures c in Seen(sources) <==> Found(Disks(sources), c)
  {
    if c in Seen(sources) {
      var i :| 0 <= i < |sources| && c in sources[i].listed;
      assert Holds(Disks(sources)[i], c);
    }
    if Found(Disks(sources), c) {
      var i :| 0 <= i < |sources| && Holds(Disks(sources)[i], c);
      assert sources[i] in sources && c in sources[i].listed;
    }
  }

  lemma {:induction false} FoundInLast(sources: seq<Source>)
    requires |sources| > 0
    ensures var n := |sources| - 1;
            forall c :: Found(Disks(sources), c) <==> Found(Disks(sources[..n]), c) || Holds(sources[n].disk, c)
  {
    var n := |sources| - 1;
    assert Disks(sources) == Disks(sources[..n]) + [sources[n].disk];
    forall c ensures Found(Disks(sources), c) <==> Found(Disks(sources[..n]), c) || Holds(sources[n].disk, c) {
      if Found(Disks(sources[..n]), c) {
        var i :| 0 <= i < n && Holds(Disks(sources[..n])[i], c);
        assert Holds(Disks(sources)[i], c);
      }
      if Holds(sources[n].disk, c) {
        assert Holds(Disks(sources)[n], c);
      }
    }
  }

  // ---------- what recovery continues ----------

  /**
    The roots hold the whole chain of a head that stands for `files`, that descends from the
    kit's catalog, and that no other later catalog contests.
   */
  ghost predicate Continues(s: Secrets, head: Pointer, files: FileMap, horizon: int, kit: Pointer, sources: seq<Source>) {
    && HeadSound(s, head, files, horizon) && Descends(s.master, head, kit)
    && Opened(sources)
    && head.catalogVersion <= kit.catalogVersion + 10_000
    && (forall c :: c in Chain(s.master, head).value ==> Found(Disks(sources), c))
    && Uncontested(s.master, kit, head, Disks(sources))
  }

  lemma {:induction false} ContinuesFindsHead(s: Secrets, head: Pointer, files: FileMap, horizon: int, kit: Pointer,
          sources: seq<Source>)
    requires Continues(s, head, files, horizon, kit, sources)
    ensures HeadSound(s, head, files, horizon) && Descends(s.master, head, kit)
    ensures Walk(s.master, kit, Scanned(sources), kit) == head
  {
    ScannedIsFound(sources);
    UncontestedFindsHead(s.master, kit, Scanned(sources), head, Disks(sources));
  }

  /** Everything recovery copies: the chain, and every entry's manifest and chunks. */
  ghost function Copied(master: Key, p: Pointer): set<Cid> {
    if Chain(master, p).Some? then
      (set c | c in Chain(master, p).value) +
      (set e, c | e in HeadCatalog(master, p).value.files && c in Objects(master, p.vaultId, e) :: c)
    else {}
  }

  /** Every read that copying the vault makes succeeds, expired entries included. */
  ghost predicate Copyable(master: Key, p: Pointer, disks: seq<Disk>) {
    && Chain(master, p).Some?
    && (forall c :: c in Copied(master, p) ==> Found(disks, c))
    && (forall e :: e in HeadCatalog(master, p).value.files ==> Manifest(master, p.vaultId, e).Some?)
  }

  /**
    Exactly when recovery goes through with no step failing: the roots hold the kit's catalog,
    it opens, and everything the newest catalog linked to it names can be read.
   */
  ghost predicate Recoverable(master: Key, kit: Pointer, sources: seq<Source>) {
    && Found(Disks(sources), kit.catalogCid) && HeadCatalog(master, kit).Some?
    && Copyable(master, Walk(master, kit, Scanned(sources), kit), Disks(sources))
  }

  /** Once the head is found, all that is left to ask is whether everything it names can be read. */
  lemma {:induction false} ContinuesRecoverable(s: Secrets, head: Pointer, files: FileMap, horizon: int, kit: Pointer,
          sources: seq<Source>)
    requires Continues(s, head, files, horizon, kit, sources)
    ensures Recoverable(s.master, kit, sources) <==> Copyable(s.master, head, Disks(sources))
  {
    ContinuesFindsHead(s, head, files, horizon, kit, sources);
    DescendsOnChain(s.master, head, kit);
  }

  lemma {:induction false} DescendsOnChain(master: Key, head: Pointer, q: Pointer)
    requires Chain(master, head).Some? && Descends(master, head, q)
    ensures q.catalogCid in Chain(master, head).value && HeadCatalog(master, q).Some?
    decreases head.catalogVersion
  {
    if head != q {
      DescendsOnChain(master, Previous(master, head).value, q);
    }
  }

  /** Every object of an expired entry that the catalog of `p` still lists can be read. */
  ghost predicate ExpiredFound(master: Key, p: Pointer, horizon: int, nodes: seq<Disk>) {
    HeadCatalog(master, p).Some? ==>
      forall e, c :: (&& e in HeadCatalog(master, p).value.files
                      && Expired(e, horizon)
                      && c in Objects(master, p.vaultId, e)) ==> Found(nodes, c)
  }

  /**
    From nodes that hold what a head needs everything can be copied exactly when no expired
    entry its catalog still lists has lost an object.
   */
  lemma {:induction false} CopyableIff(s: Secrets, head: Pointer, files: FileMap, horizon: int, nodes: seq<Disk>)
    requires HeadSound(s, head, files, horizon)
    requires forall c :: c in Needed(s.master, head, horizon) ==> Found(nodes, c)
    ensures Copyable(s.master, head, nodes) <==> ExpiredFound(s.master, head, horizon, nodes)
  {
    var entries := HeadCatalog(s.master, head).value.files;
    forall e | e in entries ensures Manifest(s.master, head.vaultId, e).Some? {
      assert Entails(s.master, head.vaultId, e, files);
    }
    forall e, c | e in entries && !Expired(e, horizon) && c in Objects(s.master, head.vaultId, e)
      ensures Found(nodes, c)
    {
      assert c in LiveObjects(s.master, head.vaultId, entries, horizon);
    }
    forall e, c | e in entries && c in Objects(s.master, head.vaultId, e) ensures c in Copied(s.master, head) {
    }
  }

  /** A sound vault's own nodes hold what its head needs. */
  lemma {:induction false} SoundCopyableIff(s: Secrets, m: Moment)
    requires Sound(s, m) && m.state.Some?
    ensures Copyable(s.master, m.state.value, m.nodes) <==> ExpiredFound(s.master, m.state.value, m.horizon, m.nodes)
  {
    forall c | c in Needed(s.master, m.state.value, m.horizon) ensures Found(m.nodes, c) {
      KeptFound(m.nodes, m.faulty, c);
    }
    CopyableIff(s, m.state.value, m.files, m.horizon, m.nodes);
  }

  /**
    The reopened nodes of a collected vault, up to two of them damaged, can be recovered from
    with any kit the vault ever issued, and what is found there is its current head.
   */
  lemma {:induction false} CollectedRecovers(s: Secrets, m: Moment, now: int, kit: Pointer, sources: seq<Source>)
    requires Sound(s, m) && m.state.Some? && kit in m.issued
    requires Opened(sources) && Disks(sources) == m.nodes
    requires forall c :: Found(m.nodes, c) ==> c in Needed(s.master, m.state.value, now)
    requires forall e :: e in HeadCatalog(s.master, m.state.value).value.files ==> !Expired(e, m.horizon)
    requires m.state.value.catalogVersion <= kit.catalogVersion + 10_000
    ensures Continues(s, m.state.value, m.files, m.horizon, kit, sources)
    ensures Recoverable(s.master, kit, sources)
  {
    CollectedUncontested(s, m, now, kit, m.nodes);
    SoundContinues(s, m, kit, sources);
    ContinuesRecoverable(s, m.state.value, m.files, m.horizon, kit, sources);
    SoundCopyableIff(s, m);
  }

  /** A sound vault's own nodes are such roots as long as nothing on them contests its head. */
  lemma {:induction false} SoundContinues(s: Secrets, m: Moment, kit: Pointer, sources: seq<Source>)
    requires Sound(s, m) && m.state.Some? && kit in m.issued
    requires Opened(sources) && Disks(sources) == m.nodes
    requires m.state.value.catalogVersion <= kit.catalogVersion + 10_000
    requires Uncontested(s.master, kit, m.state.value, m.nodes)
    ensures Continues(s, m.state.value, m.files, m.horizon, kit, sources)
  {
    forall c | c in Chain(s.master, m.state.value).value ensures Found(m.nodes, c) {
      assert c in Needed(s.master, m.state.value, m.horizon);
      KeptFound(m.nodes, m.faulty, c);
    }
  }

  /**
    A crash between replicating the next catalog and saving the state leaves that catalog, `q`,
    above the saved head. Roots holding it continue with `q`: recovery takes the commit up.
   */
  lemma {:induction false} OrphanContinues(s: Secrets, m: Moment, q: Pointer, files: FileMap, kit: Pointer,
          sources: seq<Source>)
    requires Sound(s, m) && m.state.Some? && kit in m.issued
    requires Previous(s.master, q) == m.state && Chain(s.master, q).Some?
    requires Matches(s.master, q.vaultId, HeadCatalog(s.master, q).value.files, files, m.horizon)
    requires Opened(sources) && Disks(sources) == m.nodes && Found(m.nodes, q.catalogCid)
    requires forall c :: c in LiveObjects(s.master, q.vaultId, HeadCatalog(s.master, q).value.files, m.horizon) ==>
               Found(m.nodes, c)
    requires q.catalogVersion <= kit.catalogVersion + 10_000
    requires forall c :: Found(m.nodes, c) && CandidateVersion(s.master, kit, c).Some? ==>
               c in Chain(s.master, q).value
    ensures Continues(s, q, files, m.horizon, kit, sources)
    ensures !Continues(s, m.state.value, m.files, m.horizon, kit, sources)
    ensures Recoverable(s.master, kit, sources) <==> ExpiredFound(s.master, q, m.horizon, m.nodes)
  {
    var p := m.state.value;
    DescendsVersion(s.master, p, kit);
    assert Chain(s.master, q).value == [q.catalogCid] + Chain(s.master, p).value;
    forall c | c in Chain(s.master, q).value ensures Found(m.nodes, c) {
      if c in Chain(s.master, p).value {
        assert c in Needed(s.master, p, m.horizon);
        KeptFound(m.nodes, m.faulty, c);
      }
    }
    forall c | Found(m.nodes, c) && CandidateVersion(s.master, kit, c).Some?
      ensures var v := CandidateVersion(s.master, kit, c).value;
              && v <= q.catalogVersion
              && Ancestor(s.master, q, v).Some?
              && Ancestor(s.master, q, v).value.catalogCid == c
    {
      ChainIsAncestors(s.master, q, c);
    }
    assert CandidateVersion(s.master, kit, q.catalogCid) == Some(q.catalogVersion);
    ContinuesRecoverable(s, q, files, m.horizon, kit, sources);
    NextNeeded(s.master, p, q, m.horizon);
    CopyableIff(s, q, files, m.horizon, m.nodes);
  }

  /** What of it is copied to five nodes: the chain and every manifest. */
  ghost function CopiedMetadata(master: Key, p: Pointer): set<Cid> {
    if Chain(master, p).Some? then
      (set c | c in Chain(master, p).value) + (set e | e in HeadCatalog(master, p).value.files :: e.manifestCid)
    else {}
  }

  lemma {:induction false} CopiedKept(s: Secrets, head: Pointer, files: FileMap, horizon: int, nodes: seq<Disk>,
          faulty: set<int>)
    requires HeadSound(s, head, files, horizon)
    requires Spread(nodes, CopiedMetadata(s.master, head), 5) && Spread(nodes, Copied(s.master, head), 3)
    ensures AllKept(nodes, faulty, Needed(s.master, head, horizon))
  {
    hide Kept, Holders, HeadCatalog, Chain;
    NeededParts(s.master, head, horizon);
    forall c | c in Needed(s.master, head, horizon) ensures Kept(nodes, faulty, c) {
      assert |Holders(nodes, {}, c)| >= Due(c) by {
        if c !in CopiedMetadata(s.master, head) {
          NeededChunkDue(s, head, files, horizon, c);
        }
      }
      StoredKept(nodes, faulty, c, Holders(nodes, {}, c));
    }
  }

  /** What a head needs besides catalogs and manifests are chunks. */
  lemma {:induction false} NeededChunkDue(s: Secrets, head: Pointer, files: FileMap, horizon: int, c: Cid)
    requires HeadSound(s, head, files, horizon) && c in Needed(s.master, head, horizon)
    requires c !in CopiedMetadata(s.master, head)
    ensures Due(c) == 3 && c in Copied(s.master, head)
  {
    hide HeadCatalog, Chain;
    NeededParts(s.master, head, horizon);
    var entries := HeadCatalog(s.master, head).value.files;
    var e :| e in entries && !Expired(e, horizon) && c in Objects(s.master, head.vaultId, e);
    assert Entails(s.master, head.vaultId, e, files);
    ChunksAreChunks(Manifest(s.master, head.vaultId, e).value, head.vaultId, e.fileVersionId, 0);
  }

  /** A vault rebuilt from the head stands for the file map the head stands for. */
  lemma {:induction false} RebuiltSound(s: Secrets, head: Pointer, files: FileMap, here: Moment)
    requires HeadSound(s, head, files, here.horizon)
    requires Sound(s, here) && here.state.None?
    requires here.kit.Some? && forall q :: q in here.issued ==> Descends(s.master, head, q)
    requires Spread(here.nodes, CopiedMetadata(s.master, head), 5) && Spread(here.nodes, Copied(s.master, head), 3)
    ensures Sound(s, here.(state := Some(head), files := files))
  {
    CopiedKept(s, head, files, here.horizon, here.nodes, here.faulty);
  }

  /**
    The command line's collector deletes expired manifests before it saves the catalog without
    them. Stopped in between, it leaves a sound vault whose head is found from any kit as
    before, and which cannot be recovered.
   */
  lemma {:induction false} InterruptedGcStopsRecovery(s: Secrets, m: Moment, e: CatalogFileVersion, kit: Pointer,
          sources: seq<Source>)
    requires Sound(s, m) && m.state.Some? && e in HeadCatalog(s.master, m.state.value).value.files
    requires e.manifestCid !in Needed(s.master, m.state.value, m.horizon)
    requires kit in m.issued && m.state.value.catalogVersion <= kit.catalogVersion + 10_000
    requires Uncontested(s.master, kit, m.state.value, m.nodes)
    requires Opened(sources) && Disks(sources) == Without(m.nodes, e.manifestCid)
    ensures Sound(s, m.(nodes := Disks(sources)))
    ensures Continues(s, m.state.value, m.files, m.horizon, kit, sources)
    ensures !Recoverable(s.master, kit, sources)
  {
    var after := m.(nodes := Disks(sources));
    InterruptedGc(s, m, e);
    forall c | Found(after.nodes, c) ensures Found(m.nodes, c) {
      var i :| 0 <= i < |after.nodes| && Holds(after.nodes[i], c);
      assert Holds(m.nodes[i], c);
    }
    SoundContinues(s, after, kit, sources);
    ContinuesRecoverable(s, m.state.value, m.files, m.horizon, kit, sources);
    assert e.manifestCid in Objects(s.master, m.state.value.vaultId, e);
    assert e.manifestCid in Copied(s.master, m.state.value);
  }

  // ---------- the scan ----------

  method FetchFrom(sources: seq<Source>, c: Cid) returns (r: Result<Blob, VaultError>)
    ensures r == if Found(Disks(sources), c) then Ok(c.blob) else Err(NoReplica)
  {
    for i := 0 to |sources|
      invariant forall j :: 0 <= j < i ==> !Holds(Disks(sources)[j], c)
    {
      if Holds(sources[i].disk, c) {
        assert Holds(Disks(sources)[i], c);
        return Ok(sources[i].disk[c]);
      }
    }
    r := Err(NoReplica);
  }

  /** Tries every version in the window, as nothing outside the envelope says which it is. */
  method TryVersions(master: Key, kit: Pointer, c: Cid) returns (r: Option<(nat, VaultCatalog)>)
    ensures r.Some? <==> CandidateVersion(master, kit, c).Some?
    ensures r.Some? ==> Some(r.value.0) == CandidateVersion(master, kit, c)
    ensures r.Some? ==> Some(r.value.1) == HeadCatalog(master, At(kit, c, r.value.0))
  {
    for version := kit.catalogVersion + 1 to kit.catalogVersion + DISCOVERY_WINDOW + 1
      invariant forall v :: kit.catalogVersion < v < version ==> !OpensAt(master, kit, c, v)
    {
      var catalog := OpenCatalog(master, kit.vaultId, version, kit.owner, c.blob);
      if catalog.Some? {
        return Some((version, catalog.value));
      }
    }
    r := None;
  }

  /** The candidate table holds exactly the kept candidates of what has been scanned. */
  ghost predicate Tabulates(master: Key, kit: Pointer, scanned: seq<Cid>, candidates: map<nat, (Cid, VaultCatalog)>) {
    forall v :: v > kit.catalogVersion ==>
      && (v in candidates <==> Candidate(master, kit, scanned, v).Some?)
      && (v in candidates ==>
            && Some(candidates[v].0) == Candidate(master, kit, scanned, v)
            && Some(candidates[v].1) == HeadCatalog(master, At(kit, candidates[v].0, v)))
  }

  lemma {:induction false} TabulatesStep(master: Key, kit: Pointer, scanned: seq<Cid>,
          candidates: map<nat, (Cid, VaultCatalog)>,
                      c: Cid, found: Option<(nat, VaultCatalog)>)
    requires Tabulates(master, kit, scanned, candidates)
    requires found.Some? <==> CandidateVersion(master, kit, c).Some?
    requires found.Some? ==> Some(found.value.0) == CandidateVersion(master, kit, c)
    requires found.Some? ==> Some(found.value.1) == HeadCatalog(master, At(kit, c, found.value.0))
    ensures Tabulates(master, kit, scanned + [c],
                      if found.Some? then candidates[found.value.0 := (c, found.value.1)] else candidates)
  {
    assert (scanned + [c])[..|scanned|] == scanned;
  }

  method ScanSource(master: Key, kit: Pointer, source: Source, seen: set<Cid>,
                    candidates: map<nat, (Cid, VaultCatalog)>, ghost scanned: seq<Cid>)
    returns (seen': set<Cid>, candidates': map<nat, (Cid, VaultCatalog)>)
    requires Tabulates(master, kit, scanned, candidates)
    ensures Tabulates(master, kit, scanned + ScannedAt(source, seen, |source.listed|), candidates')
    ensures kit.catalogVersion in candidates ==>
              kit.catalogVersion in candidates' && candidates'[kit.catalogVersion] == candidates[kit.catalogVersion]
    ensures seen' == seen + set c | c in source.listed
  {
    seen', candidates' := seen, candidates;
    ghost var tried := scanned;
    for i := 0 to |source.listed|
      invariant tried == scanned + ScannedAt(source, seen, i)
      invariant Tabulates(master, kit, tried, candidates')
      invariant kit.catalogVersion in candidates ==>
                  kit.catalogVersion in candidates' && candidates'[kit.catalogVersion] == candidates[kit.catalogVersion]
      invariant seen' == seen + set c | c in source.listed[..i]
    {
      var c := source.listed[i];
      assert source.listed[..i + 1] == source.listed[..i] + [c];
      if c !in seen' {
        seen' := seen' + {c};
        if Holds(source.disk, c) {
          var found := TryVersions(master, kit, c);
          TabulatesStep(master, kit, tried, candidates', c, found);
          tried := tried + [c];
          if found.Some? {
            candidates' := candidates'[found.value.0 := (c, found.value.1)];
          }
        }
      }
    }
    assert source.listed[..|source.listed|] == source.listed;
  }

  method ScanAll(master: Key, kit: Pointer, sources: seq<Source>, checkpoint: VaultCatalog)
    returns (candidates: map<nat, (Cid, VaultCatalog)>)
    ensures Tabulates(master, kit, Scanned(sources), candidates)
    ensures kit.catalogVersion in candidates && candidates[kit.catalogVersion] == (kit.catalogCid, checkpoint)
  {
    candidates := map[kit.catalogVersion := (kit.catalogCid, checkpoint)];
    var seen: set<Cid> := {};
    for i := 0 to |sources|
      invariant Tabulates(master, kit, Scanned(sources[..i]), candidates)
      invariant kit.catalogVersion in candidates && candidates[kit.catalogVersion] == (kit.catalogCid, checkpoint)
      invariant seen == Seen(sources[..i])
    {
      assert sources[..i + 1][..i] == sources[..i];
      seen, candidates := ScanSource(master, kit, sources[i], seen, candidates, Scanned(sources[..i]));
      SeenStep(sources[..i], sources[i]);
      assert sources[..i + 1] == sources[..i] + [sources[i]];
    }
    assert sources[..|sources|] == sources;
  }

  lemma {:induction false} SeenStep(sources: seq<Source>, source: Source)
    ensures Seen(sources + [source]) == Seen(sources) + set c | c in source.listed
  {
    assert source in sources + [source];
  }

  /** The walk goes on exactly where the table has a next version that names this one. */
  lemma {:induction false} ClimbStep(master: Key, kit: Pointer, scanned: seq<Cid>,
          candidates: map<nat, (Cid, VaultCatalog)>, at: Pointer)
    requires Tabulates(master, kit, scanned, candidates)
    requires kit.catalogVersion <= at.catalogVersion <= kit.catalogVersion + 10_000
    ensures var v := at.catalogVersion + 1;
            if v in candidates && candidates[v].1.previousCatalogCid == Some(at.catalogCid) then
              var next := At(kit, candidates[v].0, v);
              && v <= kit.catalogVersion + 10_000
              && Some(candidates[v].1) == HeadCatalog(master, next)
              && Walk(master, kit, scanned, at) == Walk(master, kit, scanned, next)
            else
              Walk(master, kit, scanned, at) == at
  {
    hide HeadCatalog, OpensAt, Candidate;
    CandidateSpec(master, kit, scanned, at.catalogVersion + 1);
  }

  method Climb(master: Key, kit: Pointer, candidates: map<nat, (Cid, VaultCatalog)>, ghost scanned: seq<Cid>)
    returns (at: Pointer, catalog: VaultCatalog)
    requires Tabulates(master, kit, scanned, candidates)
    requires kit.catalogVersion in candidates && candidates[kit.catalogVersion].0 == kit.catalogCid
    requires Some(candidates[kit.catalogVersion].1) == HeadCatalog(master, kit)
    ensures at == Walk(master, kit, scanned, kit)
    ensures Some(catalog) == HeadCatalog(master, at)
  {
    hide Walk, Tabulates, HeadCatalog;
    at := kit;
    while at.catalogVersion + 1 in candidates &&
          candidates[at.catalogVersion + 1].1.previousCatalogCid == Some(at.catalogCid)
      invariant kit.catalogVersion <= at.catalogVersion <= kit.catalogVersion + DISCOVERY_WINDOW
      invariant at.catalogVersion in candidates && candidates[at.catalogVersion].0 == at.catalogCid
      invariant at == At(kit, at.catalogCid, at.catalogVersion)
      invariant Some(candidates[at.catalogVersion].1) == HeadCatalog(master, at)
      invariant Walk(master, kit, scanned, kit) == Walk(master, kit, scanned, at)
      decreases kit.catalogVersion + DISCOVERY_WINDOW + 1 - at.catalogVersion
    {
      ClimbStep(master, kit, scanned, candidates, at);
      at := At(kit, candidates[at.catalogVersion + 1].0, at.catalogVersion + 1);
    }
    ClimbStep(master, kit, scanned, candidates, at);
    catalog := candidates[at.catalogVersion].1;
  }

  /** The newest catalog that links back to the kit's, over everything the roots list. */
  method Discover(kit: Pointer, master: Key, sources: seq<Source>)
    returns (r: Result<(Pointer, VaultCatalog), VaultError>)
    ensures r.Ok? <==> Found(Disks(sources), kit.catalogCid) && HeadCatalog(master, kit).Some?
    ensures r.Ok? ==> r.value.0 == Walk(master, kit, Scanned(sources), kit)
    ensures r.Ok? ==> Some(r.value.1) == HeadCatalog(master, r.value.0)
    ensures r.Ok? ==> Descends(master, r.value.0, kit) && r.value.0.catalogVersion >= kit.catalogVersion
  {
    var blob :- FetchFrom(sources, kit.catalogCid);
    var checkpoint := OpenCatalog(master, kit.vaultId, kit.catalogVersion, kit.owner, blob);
    if checkpoint.None? {
      return Err(BadCatalog);
    }
    var candidates := ScanAll(master, kit, sources, checkpoint.value);
    var at, catalog := Climb(master, kit, candidates, Scanned(sources));
    WalkLinked(master, kit, Scanned(sources), kit);
    r := Ok((at, catalog));
  }
}
