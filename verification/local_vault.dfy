/**
  The local vault over six storage nodes: create, add, delete, collect garbage, restore.

  Every write to a node, every save of the state file and every refresh of the kit is one
  step, and each step records the moment it leaves behind. A crash can stop the vault at any
  recorded moment, so the invariant on the whole record is crash safety: at each of them the
  vault stands for the file map either before or after the operation under way. Steps fail
  whenever they please (`*`), and `failures` counts those that do: an operation under which it
  does not grow says exactly when it succeeds.
 */
module LocalVaults {
  import opened Wrappers
  import opened ByteStrings
  import opened Identity
  import opened Sealed
  import opened Nodes
  import opened Chunker
  import opened VaultModel
  import opened Recovery

  ghost predicate DiskGrown(before: Disk, after: Disk, added: set<Cid>) {
    && (forall d :: Holds(before, d) ==> Holds(after, d))
    && (forall d :: Holds(after, d) ==> Holds(before, d) || d in added)
  }

  /** Copies are only added, and only of `added`. */
  ghost predicate Grown(before: seq<Disk>, after: seq<Disk>, added: set<Cid>) {
    |after| == |before| &&
    forall j :: 0 <= j < |before| ==> DiskGrown(before[j], after[j], added)
  }

  ghost predicate DiskShrunk(before: Disk, after: Disk, kept: set<Cid>) {
    && (forall d :: Holds(after, d) ==> Holds(before, d))
    && (forall d :: d in kept && Holds(before, d) ==> Holds(after, d))
  }

  /** Copies are only removed, and none of `kept`. */
  ghost predicate Shrunk(before: seq<Disk>, after: seq<Disk>, kept: set<Cid>) {
    |after| == |before| &&
    forall j :: 0 <= j < |before| ==> DiskShrunk(before[j], after[j], kept)
  }

  /** The record only grows, by moments that stand for one of `allowed`. */
  ghost predicate Records(before: seq<Moment>, after: seq<Moment>, allowed: set<FileMap>) {
    before <= after &&
    forall k :: |before| <= k < |after| ==> after[k].files in allowed
  }

  /**
    Garbage collection keeps exactly `needed`: every valid copy left is of a needed object and
    was there before unless it is of `added`, and no valid copy of any other needed object went.
   */
  ghost predicate Collected(before: seq<Disk>, after: seq<Disk>, needed: set<Cid>, added: set<Cid>) {
    |after| == |before| &&
    forall j :: 0 <= j < |before| ==>
      && (forall d :: Holds(after[j], d) ==> d in needed && (Holds(before[j], d) || d in added))
      && (forall d :: d in needed - added && Holds(before[j], d) ==> Holds(after[j], d))
  }

  lemma {:induction false} CollectedBySweep(a: seq<Disk>, b: seq<Disk>, c: seq<Disk>, d: seq<Disk>, kept: set<Cid>,
          needed: set<Cid>, added: set<Cid>)
    requires Shrunk(a, b, kept) && Grown(b, c, added) && Shrunk(c, d, needed) && needed - added <= kept
    requires forall j :: 0 <= j < |d| ==> forall x :: Holds(d[j], x) ==> x in needed
    ensures Collected(a, d, needed, added)
  {
    forall j | 0 <= j < |a|
      ensures forall x :: Holds(d[j], x) ==> x in needed && (Holds(a[j], x) || x in added)
      ensures forall x :: x in needed - added && Holds(a[j], x) ==> Holds(d[j], x)
    {
      assert DiskShrunk(a[j], b[j], kept) && DiskGrown(b[j], c[j], added) && DiskShrunk(c[j], d[j], needed);
    }
  }

  lemma {:induction false} UnchangedGrown(nodes: seq<Disk>, added: set<Cid>)
    ensures Grown(nodes, nodes, added)
  {
  }

  lemma {:induction false} GrownTransitive(a: seq<Disk>, b: seq<Disk>, c: seq<Disk>, added: set<Cid>, more: set<Cid>)
    requires Grown(a, b, added) && Grown(b, c, more)
    ensures Grown(a, c, added + more)
  {
    forall j | 0 <= j < |a| ensures DiskGrown(a[j], c[j], added + more) {
      assert DiskGrown(a[j], b[j], added) && DiskGrown(b[j], c[j], more);
    }
  }

  lemma {:induction false} ShrunkTransitive(a: seq<Disk>, b: seq<Disk>, c: seq<Disk>, kept: set<Cid>)
    requires Shrunk(a, b, kept) && Shrunk(b, c, kept)
    ensures Shrunk(a, c, kept)
  {
    forall j | 0 <= j < |a| ensures DiskShrunk(a[j], c[j], kept) {
      assert DiskShrunk(a[j], b[j], kept) && DiskShrunk(b[j], c[j], kept);
    }
  }

  lemma {:induction false} HoldersGrow(before: seq<Disk>, after: seq<Disk>, added: set<Cid>, faulty: set<int>, c: Cid)
    requires Grown(before, after, added)
    ensures Holders(before, faulty, c) <= Holders(after, faulty, c)
  {
    forall j | j in Holders(before, faulty, c) ensures j in Holders(after, faulty, c) {
      assert DiskGrown(before[j], after[j], added);
    }
  }

  lemma {:induction false} GrownKept(before: seq<Disk>, after: seq<Disk>, added: set<Cid>, faulty: set<int>,
          objects: set<Cid>)
    requires Grown(before, after, added) && AllKept(before, faulty, objects)
    ensures AllKept(after, faulty, objects)
  {
    forall c | c in objects ensures Kept(after, faulty, c) {
      assert Retains(before, after, faulty, c);
      RetainsKept(before, after, faulty, c);
    }
  }

  lemma {:induction false} ShrunkLosesNothingBack(before: seq<Disk>, after: seq<Disk>, kept: set<Cid>)
    requires Shrunk(before, after, kept)
    ensures forall c :: Found(after, c) ==> Found(before, c)
  {
    forall c | Found(after, c) ensures Found(before, c) {
      var j :| 0 <= j < |after| && Holds(after[j], c);
      assert DiskShrunk(before[j], after[j], kept) && Holds(before[j], c);
    }
  }

  // ---------- one catalog for each version ----------

  predicate IsCatalog(c: Cid) {
    c.blob.Envelope? && c.blob.aad.CatalogAad?
  }

  ghost predicate NoNewCatalogs(before: seq<Disk>, after: seq<Disk>) {
    forall c :: Found(after, c) && IsCatalog(c) ==> Found(before, c)
  }

  ghost predicate LiveFound(master: Key, q: Pointer, horizon: int, nodes: seq<Disk>) {
    HeadCatalog(master, q).Some? ==>
      forall c :: c in LiveObjects(master, q.vaultId, HeadCatalog(master, q).value.files, horizon) ==> Found(nodes, c)
  }

  /** The one catalog written since is that of `q`, next after the head and standing for `files`. */
  ghost predicate SealedNext(s: Secrets, before: Moment, after: Moment, files: FileMap, q: Pointer) {
    && Previous(s.master, q) == before.state
    && HeadSound(s, q, files, after.horizon)
    && (after.state == Some(q) || (after.state == before.state && LiveFound(s.master, q, after.horizon, after.nodes)))
    && forall c :: Found(after.nodes, c) && IsCatalog(c) ==> Found(before.nodes, c) || c == q.catalogCid
  }

  /** However far an operation came, it sealed no catalog, or the one that commits `files`. */
  ghost predicate Attempted(s: Secrets, before: Moment, after: Moment, files: FileMap) {
    || (after.state == before.state && NoNewCatalogs(before.nodes, after.nodes))
    || exists q :: SealedNext(s, before, after, files, q)
  }

  lemma {:induction false} KeptLiveFound(s: Secrets, m: Moment, q: Pointer, horizon: int)
    requires Sound(s, m) && HeadCatalog(s.master, q).Some?
    requires AllKept(m.nodes, m.faulty, LiveObjects(s.master, q.vaultId, HeadCatalog(s.master, q).value.files, horizon))
    ensures LiveFound(s.master, q, horizon, m.nodes)
  {
    hide HeadCatalog;
    forall c | c in LiveObjects(s.master, q.vaultId, HeadCatalog(s.master, q).value.files, horizon)
      ensures Found(m.nodes, c)
    {
      KeptFound(m.nodes, m.faulty, c);
    }
  }

  lemma {:induction false} AttemptedBetween(s: Secrets, m0: Moment, m1: Moment, m2: Moment, m3: Moment, files: FileMap)
    requires NoNewCatalogs(m0.nodes, m1.nodes) && m0.state == m1.state
    requires Attempted(s, m1, m2, files)
    requires NoNewCatalogs(m2.nodes, m3.nodes) && m2.state == m3.state && m2.horizon == m3.horizon
    requires m3.nodes == m2.nodes || m2.state != m1.state || m2.nodes == m1.nodes
    ensures Attempted(s, m0, m3, files)
  {
    hide HeadSound, Found, LiveFound;
    if !(m2.state == m1.state && NoNewCatalogs(m1.nodes, m2.nodes)) {
      var q :| SealedNext(s, m1, m2, files, q);
      assert SealedNext(s, m0, m3, files, q);
    }
  }

  /** The nodes hold no catalog but those on the saved head's chain. */
  ghost predicate Single(master: Key, m: Moment) {
    && m.state.Some? && Chain(master, m.state.value).Some?
    && forall c :: Found(m.nodes, c) && IsCatalog(c) ==> c in Chain(master, m.state.value).value
  }

  lemma {:induction false} FoundGrown(before: seq<Disk>, after: seq<Disk>, added: set<Cid>, c: Cid)
    requires Grown(before, after, added) && Found(after, c)
    ensures Found(before, c) || c in added
  {
    var j :| 0 <= j < |after| && Holds(after[j], c);
    assert DiskGrown(before[j], after[j], added);
  }

  lemma {:induction false} GrownAddsOne(before: seq<Disk>, after: seq<Disk>, c: Cid)
    requires Grown(before, after, {c})
    ensures forall d :: Found(after, d) ==> Found(before, d) || d == c
  {
    forall d | Found(after, d) ensures Found(before, d) || d == c {
      FoundGrown(before, after, {c}, d);
    }
  }

  lemma {:induction false} GrownAddsNoCatalog(before: seq<Disk>, after: seq<Disk>, c: Cid)
    requires Grown(before, after, {c}) && !IsCatalog(c)
    ensures NoNewCatalogs(before, after)
  {
    GrownAddsOne(before, after, c);
  }

  // ---------- how many copies ----------

  lemma {:induction false} GrownSpread(before: seq<Disk>, after: seq<Disk>, added: set<Cid>, objects: set<Cid>, n: nat)
    requires Grown(before, after, added) && Spread(before, objects, n)
    ensures Spread(after, objects, n)
  {
    hide Holders, Grown;
    forall c | c in objects ensures |Holders(after, {}, c)| >= n {
      HoldersGrow(before, after, added, {}, c);
      SubsetCard(Holders(before, {}, c), Holders(after, {}, c));
    }
  }

  lemma {:induction false} ShrunkSpread(before: seq<Disk>, after: seq<Disk>, kept: set<Cid>, objects: set<Cid>, n: nat)
    requires Shrunk(before, after, kept) && objects <= kept && Spread(before, objects, n)
    ensures Spread(after, objects, n)
  {
    forall c | c in objects ensures |Holders(after, {}, c)| >= n {
      forall j | j in Holders(before, {}, c) ensures j in Holders(after, {}, c) {
        assert DiskShrunk(before[j], after[j], kept);
      }
      SubsetCard(Holders(before, {}, c), Holders(after, {}, c));
    }
  }

  class LocalVault {
    const secrets: Secrets
    var rootExists: bool
    var nodes: seq<Disk>
    var state: Option<Pointer>
    var kit: Option<KitFile>

    /** The file map the vault stands for. */
    ghost var files: FileMap
    /** The latest time garbage has been collected for. */
    ghost var horizon: int
    /** The nodes whose disks have been lost or altered so far. */
    ghost var faulty: set<int>
    /** Every pointer a recovery kit has ever carried. */
    ghost var issued: set<Pointer>
    /** Every moment a crash could have stopped at, the present one last. */
    ghost var trace: seq<Moment>
    /** How many steps have failed. */
    ghost var failures: nat

    ghost function Now(): Moment
      reads this
    {
      Moment(nodes, state, kit, files, horizon, faulty, issued)
    }

    ghost predicate Valid()
      reads this
    {
      && Sound(secrets, Now()) && trace != [] && trace[|trace| - 1] == Now()
      && (forall m :: m in trace ==> Sound(secrets, m))
      && (!rootExists ==> state.None? && kit.None? && issued == {})
    }

    constructor (s: Secrets)
      ensures Valid() && secrets == s && !rootExists && state.None? && files == map[] && faulty == {}
    {
      secrets := s;
      rootExists := false;
      nodes := seq(NODE_COUNT, _ => map[]);
      state, kit := None, None;
      files, horizon, faulty, issued, failures := map[], 0, {}, {}, 0;
      trace := [Moment(nodes, None, None, map[], 0, {}, {})];
    }

    /** Starting again after a crash at any recorded moment. */
    constructor Resume(s: Secrets, m: Moment)
      requires Sound(s, m)
      ensures Valid() && secrets == s && Now() == m && rootExists
    {
      secrets := s;
      rootExists := true;
      nodes, state, kit := m.nodes, m.state, m.kit;
      files, horizon, faulty, issued, trace, failures := m.files, m.horizon, m.faulty, m.issued, [m], 0;
    }

    /** Up to two nodes are lost or altered, whenever and however. */
    method Damage(i: nat, disk: Disk)
      requires Valid() && i < NODE_COUNT && |faulty + {i as int}| <= 2
      modifies `nodes, `faulty, `trace
      ensures Valid() && nodes == old(nodes)[i := disk] && faulty == old(faulty) + {i as int}
    {
      DamageSound(secrets, Now(), i, disk);
      nodes := nodes[i := disk];
      faulty := faulty + {i as int};
      trace := trace + [Now()];
    }

    // ---------- steps ----------

    method PutOn(i: nat, blob: Blob) returns (ok: bool)
      requires Valid() && i < NODE_COUNT
      modifies `nodes, `trace, `failures
      ensures Valid() && Records(old(trace), trace, {files})
      ensures Grown(old(nodes), nodes, {Cid(blob)})
      ensures ok ==> Holds(nodes[i], Cid(blob))
      ensures failures == old(failures) + if ok then 0 else 1
    {
      hide Needed, HeadSound, KitsSound;
      var c := Cid(blob);
      var disk := nodes[i];
      if * {
        ok := true;
        disk := disk[c := blob];
      } else {
        ok := false;
        failures := failures + 1;
        if !Holds(disk, c) {
          if * {
            disk := disk - {c};
          }
        }
      }
      NodeStepSound(secrets, Now(), nodes[i := disk]);
      nodes := nodes[i := disk];
      trace := trace + [Now()];
    }

    method DeleteOn(i: nat, c: Cid) returns (r: Result<bool, VaultError>)
      requires Valid() && i < NODE_COUNT
      requires state.Some? ==> c !in Needed(secrets.master, state.value, horizon)
      modifies `nodes, `trace, `failures
      ensures Valid() && Records(old(trace), trace, {files})
      ensures |nodes| == |old(nodes)|
      ensures forall j, d :: 0 <= j < NODE_COUNT && (j != i || d != c) ==> (Holds(nodes[j], d) <==> Holds(old(nodes)[j], d))
      ensures Holds(nodes[i], c) ==> Holds(old(nodes)[i], c)
      ensures r.Ok? ==> !Holds(nodes[i], c)
      ensures failures == old(failures) + if r.Ok? then 0 else 1
    {
      hide Needed, HeadSound, KitsSound;
      if c !in nodes[i] {
        return Ok(false);
      }
      var disk := nodes[i];
      if * {
        r := Ok(true);
        disk := disk - {c};
      } else {
        r := Err(Io);
        failures := failures + 1;
        if * {
          disk := disk - {c};
        }
      }
      NodeStepSound(secrets, Now(), nodes[i := disk]);
      nodes := nodes[i := disk];
      trace := trace + [Now()];
    }

    /** The state file is replaced by a rename, so it is saved whole or not at all. */
    method SaveState(p: Pointer, ghost newFiles: FileMap) returns (r: Result<(), VaultError>)
      requires Valid() && rootExists && Sound(secrets, Now().(state := Some(p), files := newFiles))
      modifies `state, `files, `trace, `failures
      ensures Valid() && Records(old(trace), trace, {old(files), newFiles})
      ensures r.Ok? ==> state == Some(p) && files == newFiles
      ensures (state == Some(p) && files == newFiles) || (state == old(state) && files == old(files))
      ensures failures == old(failures) + (if r.Ok? then 0 else 1) && (r.Err? ==> r.error == Io)
    {
      if * {
        failures := failures + 1;
        return Err(Io);
      }
      state := Some(p);
      files := newFiles;
      trace := trace + [Now()];
      if * {
        failures := failures + 1;
        return Err(Io);
      }
      r := Ok(());
    }

    method WriteKit(p: Pointer, passphrase: string) returns (r: Result<(), VaultError>)
      requires Valid() && rootExists && (state.Some? ==> state == Some(p))
      modifies `kit, `issued, `trace, `failures
      ensures Valid() && Records(old(trace), trace, {files})
      ensures old(issued) <= issued
      ensures r.Ok? ==> kit == Some(KitFile(passphrase, secrets, p)) && issued == old(issued) + {p}
      ensures (kit == Some(KitFile(passphrase, secrets, p)) && issued == old(issued) + {p}) || (kit == old(kit) && issued == old(issued))
      ensures failures == old(failures) + (if r.Ok? then 0 else 1) && (r.Err? ==> r.error == Io)
    {
      hide HeadSound, AllKept, Needed;
      if * {
        failures := failures + 1;
        return Err(Io);
      }
      kit := Some(KitFile(passphrase, secrets, p));
      issued := issued + {p};
      trace := trace + [Now()];
      if * {
        failures := failures + 1;
        return Err(Io);
      }
      r := Ok(());
    }

    // ---------- replication and reads ----------

    method Replicate(blob: Blob, target: nat) returns (r: Result<Cid, VaultError>)
      requires Valid() && 0 < target
      modifies `nodes, `trace, `failures
      ensures Valid() && Records(old(trace), trace, {files})
      ensures Grown(old(nodes), nodes, {Cid(blob)})
      ensures r.Ok? ==> r.value == Cid(blob) && Spread(nodes, {r.value}, target)
      ensures r.Ok? && target >= Due(r.value) ==> Kept(nodes, faulty, r.value)
      ensures failures >= old(failures)
      ensures r.Err? ==> r.error == TooFewReplicas && failures - old(failures) > 6 - target
    {
      hide Sound, Kept, Grown, Holders, Due, Spread;
      SixNodes();
      var c := Cid(blob);
      UnchangedGrown(nodes, {c});
      assert {c} + {c} == {c};
      var stored := 0;
      ghost var where: set<int> := {};
      for i := 0 to NODE_COUNT
        invariant Valid() && Records(old(trace), trace, {files})
        invariant Grown(old(nodes), nodes, {c})
        invariant where <= Holders(nodes, {}, c) && |where| == stored < target
        invariant forall j :: j in where ==> j < i
        invariant stored <= i && stored + failures == i + old(failures)
      {
        ghost var before := nodes;
        var ok := PutOn(i, blob);
        GrownTransitive(old(nodes), before, nodes, {c}, {c});
        HoldersGrow(before, nodes, {c}, {}, c);
        SixNodes();
        if ok {
          HolderAt(nodes, i, c);
          stored := stored + 1;
          where := where + {i};
        }
        if stored == target {
          SubsetCard(where, Holders(nodes, {}, c));
          SpreadOne(nodes, c, target);
          if target >= Due(c) {
            StoredKept(nodes, faulty, c, where);
          }
          return Ok(c);
        }
      }
      r := Err(TooFewReplicas);
    }

    method RestoreObject(c: Cid) returns (r: Result<Blob, VaultError>)
      requires Valid()
      ensures r == if Found(nodes, c) then Ok(c.blob) else Err(NoReplica)
    {
      for i := 0 to NODE_COUNT
        invariant forall j :: 0 <= j < i ==> !Holds(nodes[j], c)
      {
        if Holds(nodes[i], c) {
          return Ok(nodes[i][c]);
        }
      }
      r := Err(NoReplica);
    }

    method LoadRecovery(passphrase: string) returns (r: Result<Secrets, VaultError>)
      requires Valid()
      ensures r.Ok? ==> r.value == secrets && kit.Some? && kit.value.passphrase == passphrase
      ensures r.Err? ==> r.error == BadKit && (kit.None? || kit.value.passphrase != passphrase)
    {
      if kit.None? || kit.value.passphrase != passphrase {
        return Err(BadKit);
      }
      r := Ok(kit.value.secrets);
    }

    method LoadCatalog(p: Pointer, s: Secrets) returns (r: Result<VaultCatalog, VaultError>)
      requires Valid() && s == secrets
      ensures r.Ok? <==> Found(nodes, p.catalogCid) && HeadCatalog(secrets.master, p).Some?
      ensures r.Ok? ==> Some(r.value) == HeadCatalog(secrets.master, p)
      ensures r.Err? ==> r.error == if Found(nodes, p.catalogCid) then BadCatalog else NoReplica
    {
      var blob :- RestoreObject(p.catalogCid);
      var catalog := OpenCatalog(s.master, p.vaultId, p.catalogVersion, p.owner, blob);
      r := if catalog.None? then Err(BadCatalog) else Ok(catalog.value);
    }

    method LoadManifest(p: Pointer, s: Secrets, e: CatalogFileVersion) returns (r: Result<FileManifest, VaultError>)
      requires Valid() && s == secrets
      ensures r.Ok? <==> Found(nodes, e.manifestCid) && Manifest(secrets.master, p.vaultId, e).Some?
      ensures r.Ok? ==> Some(r.value) == Manifest(secrets.master, p.vaultId, e)
      ensures r.Err? ==> r.error == if Found(nodes, e.manifestCid) then BadManifest else NoReplica
    {
      var blob :- RestoreObject(e.manifestCid);
      var m := OpenManifest(s.master, p.vaultId, e.fileId, e.fileVersionId, blob);
      r := if m.None? then Err(BadManifest) else Ok(m.value);
    }

    /** The passphrase opens the kit, and the saved head can be read. */
    ghost predicate Opens(passphrase: string)
      reads this
    {
      && state.Some? && kit.Some? && kit.value.passphrase == passphrase
      && Found(nodes, state.value.catalogCid) && HeadCatalog(secrets.master, state.value).Some?
    }

    /** The head's whole chain can be read. */
    ghost predicate ChainFound(p: Pointer)
      reads this
    {
      && Chain(secrets.master, p).Some?
      && forall c :: c in Chain(secrets.master, p).value ==> Found(nodes, c)
    }

    // ---------- create ----------

    method Create(vaultId: string, passphrase: string, now: int, nonce: nat) returns (r: Result<(), VaultError>)
      requires Valid()
      modifies this
      ensures Valid() && files == old(files) && horizon == old(horizon) && faulty == old(faulty)
      ensures Records(old(trace), trace, {files})
      ensures old(rootExists) ==> r == Err(AlreadyExists) && state == old(state)
      ensures failures >= old(failures)
      ensures failures == old(failures) ==> (r.Ok? <==> !old(rootExists))
      ensures r.Err? && r.error == TooFewReplicas ==> failures - old(failures) > 1
      ensures r.Ok? ==> state.Some? && state.value.catalogVersion == 1 && kit == Some(KitFile(passphrase, secrets, state.value))
      ensures r.Ok? ==> Grown(old(nodes), nodes, {state.value.catalogCid}) && Spread(nodes, {state.value.catalogCid}, 5)
      ensures r.Ok? ==>
                HeadCatalog(secrets.master, state.value) ==
                Some(VaultCatalog(1, vaultId, MemberId(PublicKey(secrets.seed)), None, now, []))
    {
      hide Sound, Holders, Grown, Kept, Spread, HeadCatalog, Chain, Needed;
      if rootExists {
        return Err(AlreadyExists);
      }
      EmptySound(secrets, Now(), horizon);
      rootExists := true;
      var owner := PublicKey(secrets.seed);
      var blob := SealCatalog(secrets.master, owner, FirstCatalog(owner, vaultId, now), nonce).value;
      var catalogCid :- Replicate(blob, 5);
      FirstHead(secrets, Pointer(vaultId, catalogCid, 1, owner), now, nonce);
      r := SaveFirst(Pointer(vaultId, catalogCid, 1, owner), passphrase, now, nonce);
    }

    /** Writes the kit and then the state that name a first catalog. */
    method SaveFirst(p: Pointer, passphrase: string, now: int, nonce: nat) returns (r: Result<(), VaultError>)
      requires Valid() && rootExists && state.None? && issued == {} && files == map[]
      requires p.owner == PublicKey(secrets.seed) && p.catalogVersion == 1 && Kept(nodes, faulty, p.catalogCid)
      requires SealCatalog(secrets.master, p.owner, FirstCatalog(p.owner, p.vaultId, now), nonce) == Some(p.catalogCid.blob)
      modifies `state, `kit, `files, `issued, `trace, `failures
      ensures Valid() && Records(old(trace), trace, {files}) && files == map[]
      ensures failures >= old(failures) && (failures == old(failures) ==> r.Ok?) && (r.Err? ==> r.error == Io)
      ensures r.Ok? ==> state == Some(p) && kit == Some(KitFile(passphrase, secrets, p))
    {
      hide Sound, SealCatalog, FirstCatalog, Kept;
      var _ :- WriteKit(p, passphrase);
      CreateSound(secrets, Now(), p, now, nonce);
      r := SaveState(p, map[]);
    }

    // ---------- committing a new catalog ----------

    /** Seals, replicates and saves the next catalog, then refreshes the kit. */
    method Commit(p: Pointer, s: Secrets, catalog: VaultCatalog, entries: seq<CatalogFileVersion>,
                  passphrase: string, now: int, nonce: nat, ghost newFiles: FileMap)
      returns (r: Result<(), VaultError>)
      requires Valid() && rootExists && state == Some(p) && s == secrets
      requires HeadCatalog(secrets.master, p) == Some(catalog)
      requires Matches(secrets.master, p.vaultId, entries, newFiles, horizon)
      requires AllKept(nodes, faulty, LiveObjects(secrets.master, p.vaultId, entries, horizon))
      modifies `nodes, `state, `kit, `files, `issued, `trace, `failures
      ensures forall q :: q in issued ==> q in old(issued) || Some(q) == state
      ensures Valid() && Records(old(trace), trace, {old(files), newFiles})
      ensures r.Ok? ==> state.Some? && state != old(state) && kit == Some(KitFile(passphrase, secrets, state.value))
      ensures state == old(state) ==> files == old(files)
      ensures state != old(state) ==>
                && files == newFiles && state.Some?
                && Previous(secrets.master, state.value) == Some(p)
                && HeadCatalog(secrets.master, state.value) ==
                   Some(VaultCatalog(p.catalogVersion + 1, p.vaultId, MemberId(p.owner), Some(p.catalogCid), now, entries))
                && Grown(old(nodes), nodes, {state.value.catalogCid})
      ensures old(issued) <= issued && failures >= old(failures)
      ensures failures == old(failures) ==> r.Ok?
      ensures r.Ok? || state != old(state) ==> Spread(nodes, {state.value.catalogCid}, 5)
      ensures r.Err? ==> r.error == Io || (r.error == TooFewReplicas && failures - old(failures) > 1)
      ensures Attempted(secrets, old(Now()), Now(), newFiles)
    {
      hide Sound, Spread, Kept, Matches, LiveObjects, Holders, Grown, AllKept, Chain, HeadCatalog, Previous, Found, IsCatalog, LiveFound;
      SoundHead(secrets, Now());
      var next := NextCatalog(catalog, p, entries, now);
      ghost var sealed := NextHead(secrets, p, next, entries, now, nonce);
      var blob := SealCatalog(s.master, PublicKey(s.seed), next, nonce).value;
      var q := NextPointer(p, blob);
      NextHeadSound(secrets, Now(), p, q, entries, newFiles);
      var attempt := Replicate(blob, 5);
      GrownAddsOne(old(nodes), nodes, q.catalogCid);
      GrownKept(old(nodes), nodes, {q.catalogCid}, faulty, LiveObjects(secrets.master, p.vaultId, entries, horizon));
      KeptLiveFound(secrets, Now(), q, horizon);
      assert SealedNext(secrets, old(Now()), Now(), newFiles, q);
      var c :- attempt;
      NextSound(secrets, Now(), p, q, entries, newFiles);
      var saved := SaveState(q, newFiles);
      assert SealedNext(secrets, old(Now()), Now(), newFiles, q);
      var _ :- saved;
      r := WriteKit(q, passphrase);
      assert SealedNext(secrets, old(Now()), Now(), newFiles, q);
    }

    // ---------- add ----------

    /** Seals and replicates the pieces of a plaintext in order. */
    method StorePieces(bytes: Bytes, vaultId: string, versionId: string, fileKey: Key, nonce: nat)
      returns (r: Result<(seq<Cid>, seq<nat>), VaultError>)
      requires Valid()
      modifies `nodes, `trace, `failures
      ensures Valid() && Records(old(trace), trace, {files})
      ensures exists added :: Grown(old(nodes), nodes, added)
      ensures failures >= old(failures) && (failures == old(failures) ==> r.Ok?)
      ensures NoNewCatalogs(old(nodes), nodes)
      ensures r.Ok? ==>
                && |r.value.0| == |r.value.1| == |Pieces(bytes)|
                && (forall k :: 0 <= k < |r.value.0| ==>
                      && r.value.0[k] == Cid(SealPiece(fileKey, vaultId, versionId, k, Pieces(bytes)[k], nonce + k))
                      && r.value.1[k] == |Pieces(bytes)[k]|)
                && AllKept(nodes, faulty, set c | c in r.value.0) && Spread(nodes, set c | c in r.value.0, 3)
      ensures r.Err? ==> r.error == TooFewReplicas && failures - old(failures) > 3
    {
      hide Sound, Kept, Holders, Found;
      var pieces := Pieces(bytes);
      var cids, lengths := [], [];
      ghost var added: set<Cid> := {};
      for i := 0 to |pieces|
        invariant Valid() && Records(old(trace), trace, {files})
        invariant Grown(old(nodes), nodes, added)
        invariant failures >= old(failures) && NoNewCatalogs(old(nodes), nodes)
        invariant |cids| == |lengths| == i
        invariant forall k :: 0 <= k < i ==>
                    && cids[k] == Cid(SealPiece(fileKey, vaultId, versionId, k, pieces[k], nonce + k))
                    && lengths[k] == |pieces[k]|
        invariant AllKept(nodes, faulty, set c | c in cids) && Spread(nodes, set c | c in cids, 3)
      {
        ghost var before := nodes;
        var blob := SealPiece(fileKey, vaultId, versionId, i, pieces[i], nonce + i);
        var attempt := Replicate(blob, 3);
        GrownTransitive(old(nodes), before, nodes, added, {Cid(blob)});
        GrownAddsNoCatalog(before, nodes, Cid(blob));
        var c :- attempt;
        GrownKept(before, nodes, {c}, faulty, set d | d in cids);
        GrownSpread(before, nodes, {c}, set d | d in cids, 3);
        added := added + {c};
        cids, lengths := cids + [c], lengths + [|pieces[i]|];
      }
      r := Ok((cids, lengths));
    }

    /** Stores a plaintext's chunks and manifest, giving the catalog entry that names them. */
    method StoreFile(bytes: Bytes, fileId: string, fileKey: Key, p: Pointer, s: Secrets, now: int, nonce: nat)
      returns (r: Result<CatalogFileVersion, VaultError>)
      requires Valid() && s == secrets
      modifies `nodes, `trace, `failures
      ensures Valid() && Records(old(trace), trace, {files})
      ensures failures >= old(failures) && (failures == old(failures) ==> r.Ok?)
      ensures NoNewCatalogs(old(nodes), nodes)
      ensures r.Ok? ==>
                && r.value == CatalogFileVersion(fileId, fileId + "_v1", r.value.manifestCid, now, None, None)
                && Assemble(secrets.master, p.vaultId, r.value) == Some(bytes)
                && AllKept(nodes, faulty, Objects(secrets.master, p.vaultId, r.value))
                && FileReplicated(secrets.master, p.vaultId, r.value, nodes)
      ensures r.Err? ==> r.error == TooFewReplicas && failures - old(failures) > 1
    {
      hide Sound, Grown, Found, Kept, Holders, HeadCatalog, Chain, Previous;
      var versionId := fileId + "_v1";
      var stored :- StorePieces(bytes, p.vaultId, versionId, fileKey, nonce);
      var manifest := FileManifest(1, fileId, versionId, PlainHash(bytes), fileKey, stored.0, stored.1, seq(|stored.0|, _ => 0));
      var blob := SealManifest(s.master, p.vaultId, manifest, nonce).value;
      ghost var before := nodes;
      var attempt := Replicate(blob, 5);
      GrownAddsNoCatalog(before, nodes, Cid(blob));
      var manifestCid :- attempt;
      var e := CatalogFileVersion(fileId, versionId, manifestCid, now, None, None);
      AddedDecodes(secrets.master, p.vaultId, e, manifest, bytes, nonce);
      GrownKept(before, nodes, {manifestCid}, faulty, set d | d in stored.0);
      GrownSpread(before, nodes, {manifestCid}, set d | d in stored.0, 3);
      r := Ok(e);
    }

    method Add(bytes: Bytes, fileId: string, fileKey: Key, passphrase: string, now: int, nonce: nat)
      returns (r: Result<string, VaultError>)
      requires Valid() && rootExists && fileId !in files
      modifies `nodes, `state, `kit, `files, `issued, `trace, `failures
      ensures forall q :: q in issued ==> q in old(issued) || Some(q) == state
      ensures Valid() && old(issued) <= issued && (old(state).Some? ==> state.Some?)
      ensures Records(old(trace), trace, {old(files), old(files)[fileId := FileEntry(bytes, None)]})
      ensures r.Ok? ==> r.value == fileId && files == old(files)[fileId := FileEntry(bytes, None)]
      ensures failures >= old(failures) && (r.Ok? ==> state != old(state))
      ensures state != old(state) ==>
                && Spread(nodes, {state.value.catalogCid}, 5)
                && forall e :: e in HeadCatalog(secrets.master, state.value).value.files && e.fileId == fileId ==>
                     FileReplicated(secrets.master, state.value.vaultId, e, nodes)
      ensures Attempted(secrets, old(Now()), Now(), old(files)[fileId := FileEntry(bytes, None)])
      ensures failures == old(failures) ==> (r.Ok? <==> old(Opens(passphrase)))
      ensures r.Err? && r.error == TooFewReplicas ==> failures - old(failures) > 1
      ensures files == old(files) || files == old(files)[fileId := FileEntry(bytes, None)]
    {
      hide Sound, Chain, Found, Assemble, Objects, AllKept, Matches, Spread, FileReplicated, HeadCatalog, Grown, Previous;
      if state.None? {
        return Err(NotInitialized);
      }
      var p := state.value;
      var s :- LoadRecovery(passphrase);
      var catalog :- LoadCatalog(p, s);
      var e :- StoreFile(bytes, fileId, fileKey, p, s, now, nonce);
      AddReady(secrets, Now(), p, catalog.files, e, bytes);
      NotYetListed(p, catalog.files, fileId);
      ghost var middle, newFiles := Now(), files[fileId := FileEntry(bytes, None)];
      var committed := Commit(p, s, catalog, catalog.files + [e], passphrase, now, nonce, newFiles);
      if state != old(state) {
        GrownReplicated(p.vaultId, e, middle.nodes, nodes, {state.value.catalogCid});
        PreviousVault(secrets.master, state.value);
      }
      AttemptedBetween(secrets, old(Now()), middle, Now(), Now(), newFiles);
      var _ :- committed;
      r := Ok(fileId);
    }

    lemma {:induction false} NotYetListed(p: Pointer, entries: seq<CatalogFileVersion>, fileId: string)
      requires Valid() && state == Some(p) && fileId !in files
      requires HeadCatalog(secrets.master, p).Some? && HeadCatalog(secrets.master, p).value.files == entries
      ensures forall e :: e in entries ==> e.fileId != fileId
    {
      hide Sound;
      forall e | e in entries ensures e.fileId != fileId {
        EntryEntails(secrets, Now(), e);
      }
    }

    // ---------- delete ----------

    /** The last entry for `fileId` not yet deleted. */
    method FindActive(entries: seq<CatalogFileVersion>, fileId: string) returns (r: Result<nat, VaultError>)
      ensures r.Ok? ==> r.value < |entries| && entries[r.value].fileId == fileId && entries[r.value].deletedAt.None?
      ensures r.Ok? ==> forall k :: r.value < k < |entries| ==> !(entries[k].fileId == fileId && entries[k].deletedAt.None?)
      ensures r.Err? ==> r.error == FileNotFound && forall e :: e in entries ==> !(e.fileId == fileId && e.deletedAt.None?)
    {
      var k := |entries|;
      while k > 0
        invariant 0 <= k <= |entries|
        invariant forall j :: k <= j < |entries| ==> !(entries[j].fileId == fileId && entries[j].deletedAt.None?)
      {
        k := k - 1;
        if entries[k].fileId == fileId && entries[k].deletedAt.None? {
          return Ok(k);
        }
      }
      r := Err(FileNotFound);
    }

    method Delete(fileId: string, passphrase: string, now: int, nonce: nat) returns (r: Result<(), VaultError>)
      requires Valid() && rootExists
      modifies `nodes, `state, `kit, `files, `issued, `trace, `failures
      ensures forall q :: q in issued ==> q in old(issued) || Some(q) == state
      ensures Valid() && old(issued) <= issued && (old(state).Some? ==> state.Some?)
      ensures fileId in old(files) ==>
                Records(old(trace), trace, {old(files), old(files)[fileId := old(files)[fileId].(deletedAt := Some(now))]})
      ensures r.Ok? ==>
                && fileId in old(files) && old(files)[fileId].deletedAt.None?
                && files == old(files)[fileId := old(files)[fileId].(deletedAt := Some(now))]
      ensures failures >= old(failures) && (r.Ok? ==> state != old(state))
      ensures state != old(state) ==> Spread(nodes, {state.value.catalogCid}, 5)
      ensures !(fileId in old(files) && old(files)[fileId].deletedAt.None?) ==> nodes == old(nodes) && state == old(state)
      ensures fileId in old(files) ==>
                Attempted(secrets, old(Now()), Now(), old(files)[fileId := old(files)[fileId].(deletedAt := Some(now))])
      ensures r.Err? && r.error == TooFewReplicas ==> failures - old(failures) > 1
      ensures failures == old(failures) ==>
                (r.Ok? <==> old(Opens(passphrase)) && fileId in old(files) && old(files)[fileId].deletedAt.None?)
      ensures files == old(files) ||
              (&& fileId in old(files) && old(files)[fileId].deletedAt.None?
               && files == old(files)[fileId := old(files)[fileId].(deletedAt := Some(now))])
    {
      hide Sound, Chain, Needed;
      if state.None? {
        return Err(NotInitialized);
      }
      var p := state.value;
      ActiveListed(secrets, Now(), fileId);
      var s :- LoadRecovery(passphrase);
      var catalog :- LoadCatalog(p, s);
      var i :- FindActive(catalog.files, fileId);
      EntryEntails(secrets, Now(), catalog.files[i]);
      ghost var newFiles := files[fileId := files[fileId].(deletedAt := Some(now))];
      DeleteReady(secrets, Now(), p, catalog.files, i, now, newFiles);
      var _ :- Commit(p, s, catalog, Tombstone(catalog.files, i, now), passphrase, now, nonce, newFiles);
      r := Ok(());
    }

    // ---------- restore ----------

    /** Reads and opens a manifest's chunks in order. */
    method ReadChunks(m: FileManifest, vaultId: string, versionId: string) returns (r: Result<Bytes, VaultError>)
      requires Valid() && ShapeOk(m)
      ensures r.Ok? <==>
                && (forall c :: c in m.orderedChunkCids ==> Found(nodes, c))
                && DecodeChunks(m, vaultId, versionId, 0).Some?
      ensures r.Ok? ==> DecodeChunks(m, vaultId, versionId, 0) == Some(r.value)
    {
      hide Sound, Found, DecodedTo, DecodeChunks, Decrypt;
      var bytes: Bytes := [];
      DecodedNone(m, vaultId, versionId);
      for i := 0 to |m.orderedChunkCids|
        invariant forall k :: 0 <= k < i ==> Found(nodes, m.orderedChunkCids[k])
        invariant DecodedTo(m, vaultId, versionId, i, bytes)
      {
        var blob :- RestoreObject(m.orderedChunkCids[i]);
        var length := m.chunkPlaintextLengths[i];
        var payload := Decrypt(m.fileKey, blob, ChunkAad(vaultId, versionId, i, length));
        DecodedStep(m, vaultId, versionId, i, bytes);
        if payload.None? || !payload.value.ChunkData? || |payload.value.bytes| != length {
          return Err(BadChunk);
        }
        bytes := bytes + payload.value.bytes;
      }
      DecodedAll(m, vaultId, versionId, bytes);
      r := Ok(bytes);
    }

    /** Reads one catalog entry's file and checks it against its plaintext hash. */
    method ReadFile(p: Pointer, s: Secrets, e: CatalogFileVersion) returns (r: Result<Bytes, VaultError>)
      requires Valid() && s == secrets
      ensures r.Ok? <==>
                && (forall c :: c in Objects(secrets.master, p.vaultId, e) ==> Found(nodes, c))
                && Assemble(secrets.master, p.vaultId, e).Some?
      ensures r.Ok? ==> Assemble(secrets.master, p.vaultId, e) == Some(r.value)
    {
      assert e.manifestCid in Objects(secrets.master, p.vaultId, e);
      var m :- LoadManifest(p, s, e);
      var bytes :- ReadChunks(m, p.vaultId, e.fileVersionId);
      if PlainHash(bytes) != m.plaintextHash {
        return Err(BadChunk);
      }
      r := Ok(bytes);
    }

    /** What comes back is exactly what the file map holds. */
    method Restore(fileId: string, passphrase: string, now: int) returns (r: Result<Bytes, VaultError>)
      requires Valid()
      ensures state.Some? && kit.value.passphrase == passphrase ==>
                RestoreFrom(secrets.master, nodes, state.value, fileId, now) == if r.Ok? then Some(r.value) else None
      ensures state.Some? && kit.value.passphrase == passphrase && horizon <= now ==>
                Lookup(files, fileId, now) == if r.Ok? then Some(r.value) else None
      ensures state.None? || kit.value.passphrase != passphrase ==> r.Err?
    {
      if state.None? {
        return Err(NotInitialized);
      }
      var p := state.value;
      if horizon <= now {
        RestoreRefinesFileMap(secrets, Now(), fileId, now);
      }
      var s :- LoadRecovery(passphrase);
      var catalog :- LoadCatalog(p, s);
      var version := FindVersion(catalog.files, fileId, now);
      if version.None? {
        return Err(FileNotFound);
      }
      r := ReadFile(p, s, version.value);
    }

    // ---------- verification ----------

    /** Counts the nodes a read of the object succeeds on. */
    method HealthyReplicas(c: Cid) returns (n: nat)
      requires Valid()
      ensures n == |Holders(nodes, {}, c)|
    {
      SixNodes();
      hide Sound, Holds;
      n := 0;
      for i := 0 to NODE_COUNT
        invariant n == |HoldersBelow(nodes, c, i)|
      {
        NextHolder(nodes, c, i);
        n := n + if Holds(nodes[i], c) then 1 else 0;
      }
    }

    lemma {:induction false} SixNodes()
      requires Valid()
      ensures |nodes| == NODE_COUNT
    {
    }

    method VerifyChunks(cids: seq<Cid>) returns (r: Result<(), VaultError>)
      requires Valid()
      ensures r.Ok? <==> Spread(nodes, set c | c in cids, 3)
    {
      hide Sound, Holders;
      for k := 0 to |cids|
        invariant Spread(nodes, set c | c in cids[..k], 3)
      {
        var healthy := HealthyReplicas(cids[k]);
        if healthy < 3 {
          assert cids[k] in cids;
          return Err(TooFewReplicas);
        }
        assert cids[..k + 1] == cids[..k] + [cids[k]];
      }
      assert cids[..|cids|] == cids;
      r := Ok(());
    }

    method VerifyFile(p: Pointer, s: Secrets, e: CatalogFileVersion) returns (r: Result<(), VaultError>)
      requires Valid() && s == secrets
      ensures r.Ok? <==> Found(nodes, e.manifestCid) && FileReplicated(secrets.master, p.vaultId, e, nodes)
    {
      hide Sound, Holders, Found, Manifest;
      var m :- LoadManifest(p, s, e);
      var healthy := HealthyReplicas(e.manifestCid);
      if healthy < 5 {
        return Err(TooFewReplicas);
      }
      r := VerifyChunks(m.orderedChunkCids);
    }

    /** Succeeds exactly when the head and every manifest have five healthy copies and every chunk three. */
    method Verify(passphrase: string) returns (r: Result<(), VaultError>)
      requires Valid()
      ensures r.Ok? <==> Opens(passphrase) && FullyReplicated(secrets.master, state.value, nodes)
    {
      hide Sound, Holders, FileReplicated, HeadCatalog;
      if state.None? {
        return Err(NotInitialized);
      }
      var p := state.value;
      var s :- LoadRecovery(passphrase);
      var catalog :- LoadCatalog(p, s);
      var healthy := HealthyReplicas(p.catalogCid);
      if healthy < 5 {
        return Err(TooFewReplicas);
      }
      for k := 0 to |catalog.files|
        invariant forall e :: e in catalog.files[..k] ==> FileReplicated(secrets.master, p.vaultId, e, nodes)
      {
        var e := catalog.files[k];
        ReplicatedIsFound(p, e);
        var _ :- VerifyFile(p, s, e);
        assert catalog.files[..k + 1] == catalog.files[..k] + [e];
      }
      assert catalog.files[..|catalog.files|] == catalog.files;
      r := Ok(());
    }

    lemma {:induction false} ReplicatedIsFound(p: Pointer, e: CatalogFileVersion)
      ensures FileReplicated(secrets.master, p.vaultId, e, nodes) ==> Found(nodes, e.manifestCid)
    {
      if FileReplicated(secrets.master, p.vaultId, e, nodes) {
        assert |Holders(nodes, {}, e.manifestCid)| >= 5;
        var i :| i in Holders(nodes, {}, e.manifestCid);
        assert Holds(nodes[i], e.manifestCid);
      }
    }

    // ---------- garbage collection ----------

    /** Every catalog from the head back to the first. */
    method ChainCids(p: Pointer, s: Secrets) returns (r: Result<set<Cid>, VaultError>)
      requires Valid() && s == secrets
      ensures r.Ok? <==>
                && Chain(secrets.master, p).Some?
                && forall c :: c in Chain(secrets.master, p).value ==> Found(nodes, c)
      ensures r.Ok? ==> r.value == set c | c in Chain(secrets.master, p).value
    {
      hide Sound, Verifies, Found;
      var retained: set<Cid> := {};
      var at := p;
      ghost var visited: seq<Cid> := [];
      ChainFromStart(s.master, p);
      while true
        invariant retained == set c | c in visited
        invariant forall c :: c in visited ==> Found(nodes, c)
        invariant forall c :: c in visited ==>
                    c.blob.Envelope? && c.blob.aad.CatalogAad? && c.blob.aad.version > at.catalogVersion
        invariant ChainFrom(s.master, p, at, visited)
        decreases at.catalogVersion
      {
        ChainFromStep(s.master, p, at, visited);
        if at.catalogCid in retained {
          return Err(BadCatalog);
        }
        var blob :- RestoreObject(at.catalogCid);
        var catalog := OpenCatalog(s.master, at.vaultId, at.catalogVersion, at.owner, blob);
        if catalog.None? {
          return Err(BadCatalog);
        }
        retained := retained + {at.catalogCid};
        visited := visited + [at.catalogCid];
        if catalog.value.previousCatalogCid.None? {
          break;
        }
        if at.catalogVersion <= 1 {
          return Err(BadCatalog);
        }
        at := Pointer(at.vaultId, catalog.value.previousCatalogCid.value, at.catalogVersion - 1, at.owner);
      }
      r := Ok(retained);
    }

    /** Drops one object from every node; a node that fails is passed over. */
    method RemoveObject(c: Cid, ghost kept: set<Cid>)
      requires Valid() && c !in kept
      requires state.Some? ==> c !in Needed(secrets.master, state.value, horizon)
      modifies `nodes, `trace, `failures
      ensures Valid() && Records(old(trace), trace, {files})
      ensures Shrunk(old(nodes), nodes, kept) && failures >= old(failures)
      ensures failures == old(failures) ==> !Found(nodes, c)
    {
      for i := 0 to NODE_COUNT
        invariant Valid() && Records(old(trace), trace, {files})
        invariant Shrunk(old(nodes), nodes, kept) && failures >= old(failures)
        invariant failures == old(failures) ==> forall j :: 0 <= j < i ==> !Holds(nodes[j], c)
      {
        var _ := DeleteOn(i, c);
      }
    }

    method RemoveAll(expired: seq<Cid>, retained: set<Cid>)
      requires Valid()
      requires state.Some? ==> Needed(secrets.master, state.value, horizon) <= retained
      modifies `nodes, `trace, `failures
      ensures Valid() && Records(old(trace), trace, {files})
      ensures Shrunk(old(nodes), nodes, retained) && failures >= old(failures)
      ensures failures == old(failures) ==> forall c :: c in expired && c !in retained ==> !Found(nodes, c)
    {
      for k := 0 to |expired|
        invariant Valid() && Records(old(trace), trace, {files})
        invariant Shrunk(old(nodes), nodes, retained) && failures >= old(failures)
        invariant failures == old(failures) ==> forall c :: c in expired[..k] && c !in retained ==> !Found(nodes, c)
      {
        ghost var before := nodes;
        if expired[k] !in retained {
          RemoveObject(expired[k], retained);
          ShrunkLosesNothingBack(before, nodes, retained);
        }
        assert expired[..k + 1] == expired[..k] + [expired[k]];
      }
    }

    method SweepNode(i: nat, retained: set<Cid>) returns (r: Result<(), VaultError>)
      requires Valid() && i < NODE_COUNT
      requires state.Some? ==> Needed(secrets.master, state.value, horizon) <= retained
      modifies `nodes, `trace, `failures
      ensures Valid() && Records(old(trace), trace, {files})
      ensures Shrunk(old(nodes), nodes, retained)
      ensures failures >= old(failures) && (failures == old(failures) ==> r.Ok?)
      ensures r.Ok? ==> forall d :: Holds(nodes[i], d) ==> d in retained
    {
      var listed := set c | c in nodes[i] && Holds(nodes[i], c);
      while listed != {}
        invariant Valid() && Records(old(trace), trace, {files})
        invariant Shrunk(old(nodes), nodes, retained) && failures >= old(failures)
        invariant forall d :: Holds(nodes[i], d) ==> d in retained || d in listed
        decreases listed
      {
        var c :| c in listed;
        listed := listed - {c};
        if c !in retained {
          var _ :- DeleteOn(i, c);
        }
      }
      r := Ok(());
    }

    /** Leaves nothing but retained objects on any node. */
    method Sweep(retained: set<Cid>) returns (r: Result<(), VaultError>)
      requires Valid()
      requires state.Some? ==> Needed(secrets.master, state.value, horizon) <= retained
      modifies `nodes, `trace, `failures
      ensures Valid() && Records(old(trace), trace, {files})
      ensures Shrunk(old(nodes), nodes, retained)
      ensures failures >= old(failures) && (failures == old(failures) ==> r.Ok?)
      ensures r.Ok? ==> forall j :: 0 <= j < |nodes| ==> forall d :: Holds(nodes[j], d) ==> d in retained
    {
      for i := 0 to NODE_COUNT
        invariant Valid() && Records(old(trace), trace, {files})
        invariant Shrunk(old(nodes), nodes, retained) && failures >= old(failures)
        invariant forall j :: 0 <= j < i ==> forall d :: Holds(nodes[j], d) ==> d in retained
      {
        ghost var before := nodes;
        var swept := SweepNode(i, retained);
        ShrunkTransitive(old(nodes), before, nodes, retained);
        var _ :- swept;
        forall j | 0 <= j < i ensures forall d :: Holds(nodes[j], d) ==> d in retained {
          assert DiskShrunk(before[j], nodes[j], retained);
        }
      }
      r := Ok(());
    }

    /** Loads every manifest, sorting the objects of expired entries from those to retain. */
    method Classify(p: Pointer, s: Secrets, entries: seq<CatalogFileVersion>, now: int)
      returns (r: Result<(set<Cid>, seq<Cid>), VaultError>)
      requires Valid() && s == secrets
      ensures r.Ok? ==> r.value.0 == LiveObjects(secrets.master, p.vaultId, entries, now)
      ensures r.Ok? ==> forall e :: e in entries && Expired(e, now) ==> e.manifestCid in r.value.1
      ensures r.Ok? <==> forall e :: e in entries ==>
                           Found(nodes, e.manifestCid) && Manifest(secrets.master, p.vaultId, e).Some?
    {
      var retained: set<Cid>, expired: seq<Cid> := {}, [];
      for i := 0 to |entries|
        invariant forall e :: e in entries[..i] && Expired(e, now) ==> e.manifestCid in expired
        invariant retained == LiveObjects(secrets.master, p.vaultId, entries[..i], now)
        invariant forall e :: e in entries[..i] ==>
                    Found(nodes, e.manifestCid) && Manifest(secrets.master, p.vaultId, e).Some?
      {
        var e := entries[i];
        LiveStep(p.vaultId, entries, i, now);
        var attempt := LoadManifest(p, s, e);
        assert e in entries;
        var m :- attempt;
        if Expired(e, now) {
          expired := expired + [e.manifestCid] + m.orderedChunkCids;
        } else {
          retained := retained + {e.manifestCid} + set c | c in m.orderedChunkCids;
        }
      }
      assert entries[..|entries|] == entries;
      r := Ok((retained, expired));
    }

    lemma {:induction false} LiveStep(vaultId: string, entries: seq<CatalogFileVersion>, i: nat, now: int)
      requires i < |entries|
      ensures forall e :: e in entries[..i + 1] <==> e in entries[..i] || e == entries[i]
      ensures LiveObjects(secrets.master, vaultId, entries[..i + 1], now) ==
              LiveObjects(secrets.master, vaultId, entries[..i], now) +
              if Expired(entries[i], now) then {} else Objects(secrets.master, vaultId, entries[i])
    {
      assert entries[..i + 1] == entries[..i] + [entries[i]];
    }

    /** Every manifest the head catalog names can be read and opened. */
    ghost predicate ManifestsFound(p: Pointer)
      reads this
    {
      HeadCatalog(secrets.master, p).Some? ==>
        forall e :: e in HeadCatalog(secrets.master, p).value.files ==>
          Found(nodes, e.manifestCid) && Manifest(secrets.master, p.vaultId, e).Some?
    }

    /** Every manifest of an entry still live at `now` can be read and opened. */
    ghost predicate LiveManifestsFound(p: Pointer, now: int)
      reads this
    {
      HeadCatalog(secrets.master, p).Some? ==>
        forall e :: e in HeadCatalog(secrets.master, p).value.files && !Expired(e, now) ==>
          Found(nodes, e.manifestCid) && Manifest(secrets.master, p.vaultId, e).Some?
    }

    /** No manifest that a collection at `now` may drop is left, and yet `p` is still the saved head. */
    ghost predicate DroppedBefore(p: Pointer, now: int, m: Moment) {
      && m.state == Some(p) && now <= m.horizon
      && HeadCatalog(secrets.master, p).Some?
      && forall e :: e in HeadCatalog(secrets.master, p).value.files && Expired(e, now) ==>
           Found(m.nodes, e.manifestCid) ==> e.manifestCid in Needed(secrets.master, p, now)
    }

    /** The objects of expired entries go from every node; a crash may come before the catalog follows. */
    method DropObjects(p: Pointer, expired: seq<Cid>, retained: set<Cid>, now: int)
      requires Valid() && state == Some(p) && HeadCatalog(secrets.master, p).Some?
      requires now <= horizon && retained == Needed(secrets.master, p, now)
      requires forall e :: e in HeadCatalog(secrets.master, p).value.files && Expired(e, now) ==> e.manifestCid in expired
      modifies `nodes, `trace, `failures
      ensures Valid() && Records(old(trace), trace, {files})
      ensures Shrunk(old(nodes), nodes, retained) && failures >= old(failures)
      ensures failures == old(failures) ==> exists m :: m in trace && DroppedBefore(p, now, m)
    {
      hide Sound;
      NeededShrinks(secrets.master, p, now, horizon);
      RemoveAll(expired, retained);
      ghost var dropped := Now();
      trace := trace + [dropped];
      assert failures == old(failures) ==> DroppedBefore(p, now, dropped);
      assert dropped in trace;
    }

    /**
      The command line's collector: expired objects go first, then the shortened catalog is
      committed, then every node is swept. It needs every manifest, even of expired entries.
     */
    method Gc(passphrase: string, now: int, nonce: nat) returns (r: Result<(), VaultError>)
      requires Valid() && rootExists
      modifies `nodes, `state, `kit, `files, `issued, `horizon, `trace, `failures
      ensures state != old(state) ==> state.Some? && Spread(nodes, {state.value.catalogCid}, 5)
      ensures forall q :: q in issued ==> q in old(issued) || Some(q) == state
      ensures Valid() && files == old(files) && old(issued) <= issued && (old(state).Some? ==> state.Some?)
      ensures Records(old(trace), trace, {files})
      ensures horizon == old(horizon) || horizon == if now > old(horizon) then now else old(horizon)
      ensures r.Ok? ==> state.Some? && old(state).Some?
      ensures r.Ok? ==>
                Collected(old(nodes), nodes, Needed(secrets.master, state.value, now),
                          if state == old(state) then {} else {state.value.catalogCid})
      ensures r.Ok? ==>
                HeadCatalog(secrets.master, state.value).value.files ==
                DropExpired(HeadCatalog(secrets.master, old(state).value).value.files, now)
      ensures failures >= old(failures) && (old(state).Some? ==> Attempted(secrets, old(Now()), Now(), files))
      ensures failures == old(failures) ==>
                (r.Ok? <==> old(Opens(passphrase) && ChainFound(state.value) && ManifestsFound(state.value)))
      ensures r.Ok? ==> state == old(state) || Previous(secrets.master, state.value) == old(state)
      ensures r.Ok? && failures == old(failures) ==>
                exists m :: m in trace && DroppedBefore(old(state).value, now, m)
      ensures old(state).Some? && !old(ManifestsFound(state.value)) ==>
                r.Err? && nodes == old(nodes) && state == old(state)
    {
      hide Sound, Chain, Needed, HeadCatalog, Collected, Previous, LiveObjects, Found, Spread, Shrunk, DroppedBefore,
           DropExpired;
      if state.None? {
        return Err(NotInitialized);
      }
      var p := state.value;
      var s :- LoadRecovery(passphrase);
      var catalog :- LoadCatalog(p, s);
      var chain :- ChainCids(p, s);
      var sorted :- Classify(p, s, catalog.files, now);
      var retained := chain + sorted.0;
      NeededParts(secrets.master, p, now);
      AdvanceHorizon(now);
      DropObjects(p, sorted.1, retained, now);
      ShrunkLosesNothingBack(old(nodes), nodes, retained);
      ghost var middle := Now();
      r := Shorten(p, s, catalog, retained, passphrase, now, nonce, old(nodes));
      AttemptedBetween(secrets, old(Now()), middle, Now(), Now(), files);
      LiveReadsSucceed(secrets, Now(), horizon);
    }

    /**
      The desktop's collector: the shortened catalog is committed before anything is deleted,
      and only manifests of entries to keep are read.
     */
    method GcDesktop(passphrase: string, now: int, nonce: nat) returns (r: Result<(), VaultError>)
      requires Valid() && rootExists
      modifies `nodes, `state, `kit, `files, `issued, `horizon, `trace, `failures
      ensures state != old(state) ==> state.Some? && Spread(nodes, {state.value.catalogCid}, 5)
      ensures forall q :: q in issued ==> q in old(issued) || Some(q) == state
      ensures Valid() && files == old(files) && old(issued) <= issued && (old(state).Some? ==> state.Some?)
      ensures Records(old(trace), trace, {files})
      ensures horizon == old(horizon) || horizon == if now > old(horizon) then now else old(horizon)
      ensures r.Ok? ==> state.Some? && old(state).Some?
      ensures failures >= old(failures) && (old(state).Some? ==> Attempted(secrets, old(Now()), Now(), files))
      ensures failures == old(failures) ==>
                (r.Ok? <==> old(Opens(passphrase) && ChainFound(state.value) && LiveManifestsFound(state.value, now)))
      ensures r.Ok? ==> state == old(state) || Previous(secrets.master, state.value) == old(state)
      ensures r.Ok? ==>
                Collected(old(nodes), nodes, Needed(secrets.master, state.value, now),
                          if state == old(state) then {} else {state.value.catalogCid})
      ensures r.Ok? ==>
                HeadCatalog(secrets.master, state.value).value.files ==
                DropExpired(HeadCatalog(secrets.master, old(state).value).value.files, now)
    {
      hide Sound, Chain, Needed, HeadCatalog, Collected, Previous, LiveObjects, Found;
      if state.None? {
        return Err(NotInitialized);
      }
      var p := state.value;
      var s :- LoadRecovery(passphrase);
      var catalog :- LoadCatalog(p, s);
      var chain :- ChainCids(p, s);
      var live :- CollectLive(p, s, catalog.files, now);
      var retained := chain + live;
      NeededParts(secrets.master, p, now);
      AdvanceHorizon(now);
      ghost var middle := Now();
      r := Shorten(p, s, catalog, retained, passphrase, now, nonce, old(nodes));
      AttemptedBetween(secrets, old(Now()), middle, Now(), Now(), files);
      LiveReadsSucceed(secrets, Now(), horizon);
    }

    ghost method AdvanceHorizon(now: int)
      requires Valid()
      modifies `horizon, `trace
      ensures Valid() && Records(old(trace), trace, {files})
      ensures horizon == if now > old(horizon) then now else old(horizon)
    {
      if now > horizon {
        HorizonSound(secrets, Now(), now);
        horizon := now;
        trace := trace + [Now()];
      }
    }

    /** Commits the catalog without its expired entries, if it had any, and sweeps every node. */
    method Shorten(p: Pointer, s: Secrets, catalog: VaultCatalog, retained: set<Cid>, passphrase: string, now: int,
                   nonce: nat, ghost before: seq<Disk>)
      returns (r: Result<(), VaultError>)
      requires Valid() && rootExists && state == Some(p) && s == secrets && now <= horizon
      requires HeadCatalog(secrets.master, p) == Some(catalog)
      requires retained == Needed(secrets.master, p, now)
      requires Shrunk(before, nodes, retained)
      modifies `nodes, `state, `kit, `files, `issued, `trace, `failures
      ensures state != old(state) ==> state.Some? && Spread(nodes, {state.value.catalogCid}, 5)
      ensures forall q :: q in issued ==> q in old(issued) || Some(q) == state
      ensures Valid() && files == old(files) && old(issued) <= issued
      ensures Records(old(trace), trace, {files})
      ensures state.Some? && (state == old(state) || Previous(secrets.master, state.value) == Some(p))
      ensures Attempted(secrets, old(Now()), Now(), files)
      ensures failures >= old(failures) && (failures == old(failures) && ChainFound(state.value) ==> r.Ok?)
      ensures r.Ok? ==>
                Collected(before, nodes, Needed(secrets.master, state.value, now),
                          if state == old(state) then {} else {state.value.catalogCid})
      ensures r.Ok? ==> HeadCatalog(secrets.master, state.value).value.files == DropExpired(catalog.files, now)
    {
      hide Sound, Spread, Chain, HeadCatalog, Previous, Found, DropExpired, Attempted;
      var _ :- CommitShortened(p, s, catalog, passphrase, now, nonce);
      ghost var middle := Now();
      ghost var added := if state == old(state) then {} else {state.value.catalogCid};
      assert NoNewCatalogs(nodes, nodes);
      var chain :- ChainCids(state.value, s);
      NeededShrinks(secrets.master, state.value, now, horizon);
      ChainHasHead(secrets.master, state.value);
      r := Sweep(retained + chain);
      if state != old(state) {
        ShrunkSpread(middle.nodes, nodes, retained + chain, {state.value.catalogCid}, 5);
      }
      ShrunkLosesNothingBack(middle.nodes, nodes, retained + chain);
      AttemptedBetween(secrets, old(Now()), old(Now()), middle, Now(), files);
      if r.Ok? {
        CollectedBySweep(before, old(nodes), middle.nodes, nodes, retained, Needed(secrets.master, state.value, now), added);
      }
    }

    method CommitShortened(p: Pointer, s: Secrets, catalog: VaultCatalog, passphrase: string, now: int, nonce: nat)
      returns (r: Result<(), VaultError>)
      requires Valid() && rootExists && state == Some(p) && s == secrets && now <= horizon
      requires HeadCatalog(secrets.master, p) == Some(catalog)
      modifies `nodes, `state, `kit, `files, `issued, `trace, `failures
      ensures state != old(state) ==> state.Some? && Spread(nodes, {state.value.catalogCid}, 5)
      ensures forall q :: q in issued ==> q in old(issued) || Some(q) == state
      ensures Valid() && files == old(files) && old(issued) <= issued
      ensures Records(old(trace), trace, {files})
      ensures state.Some? && (state == old(state) || Previous(secrets.master, state.value) == Some(p))
      ensures Attempted(secrets, old(Now()), Now(), files)
      ensures failures >= old(failures) && (failures == old(failures) ==> r.Ok?)
      ensures r.Ok? ==> HeadCatalog(secrets.master, state.value).Some? && Chain(secrets.master, state.value).Some?
      ensures r.Ok? ==> HeadCatalog(secrets.master, state.value).value.files == DropExpired(catalog.files, now)
      ensures r.Ok? ==>
                Needed(secrets.master, state.value, now) ==
                Needed(secrets.master, p, now) + set c | c in Chain(secrets.master, state.value).value
      ensures r.Ok? ==>
                var added := if state == old(state) then {} else {state.value.catalogCid};
                && Grown(old(nodes), nodes, added) && (state == old(state) ==> nodes == old(nodes))
                && Needed(secrets.master, state.value, now) <= Needed(secrets.master, p, now) + added
    {
      var entries := DropExpired(catalog.files, now);
      GcReady(secrets, Now(), p, catalog.files, now);
      DropExpiredSpec(catalog.files, now);
      r := Ok(());
      if |entries| != |catalog.files| {
        r := Commit(p, s, catalog, entries, passphrase, now, nonce, files);
        if r.Ok? {
          GcNeeded(secrets.master, p, state.value, now);
        }
      }
    }

    /** Loads the manifests of entries still live. */
    method CollectLive(p: Pointer, s: Secrets, entries: seq<CatalogFileVersion>, now: int)
      returns (r: Result<set<Cid>, VaultError>)
      requires Valid() && s == secrets
      ensures r.Ok? ==> r.value == LiveObjects(secrets.master, p.vaultId, entries, now)
      ensures r.Ok? <==> forall e :: e in entries && !Expired(e, now) ==>
                           Found(nodes, e.manifestCid) && Manifest(secrets.master, p.vaultId, e).Some?
    {
      var retained: set<Cid> := {};
      for i := 0 to |entries|
        invariant retained == LiveObjects(secrets.master, p.vaultId, entries[..i], now)
        invariant forall e :: e in entries[..i] && !Expired(e, now) ==>
                    Found(nodes, e.manifestCid) && Manifest(secrets.master, p.vaultId, e).Some?
      {
        var e := entries[i];
        LiveStep(p.vaultId, entries, i, now);
        if !Expired(e, now) {
          var attempt := LoadManifest(p, s, e);
          assert e in entries;
          var m :- attempt;
          retained := retained + {e.manifestCid} + set c | c in m.orderedChunkCids;
        }
      }
      assert entries[..|entries|] == entries;
      r := Ok(retained);
    }

    // ---------- recovery ----------

    method CopyChain(p: Pointer, s: Secrets, sources: seq<Source>) returns (r: Result<(), VaultError>)
      requires Valid() && s == secrets
      modifies `nodes, `trace, `failures
      ensures Valid() && Records(old(trace), trace, {files})
      ensures r.Ok? ==> Chain(secrets.master, p).Some? && Spread(nodes, set c | c in Chain(secrets.master, p).value, 5)
      ensures r.Ok? ==> forall c :: c in Chain(secrets.master, p).value ==> Found(Disks(sources), c)
      ensures failures >= old(failures)
      ensures failures == old(failures) && Chain(secrets.master, p).Some? ==>
                (r.Ok? <==> forall c :: c in Chain(secrets.master, p).value ==> Found(Disks(sources), c))
      ensures r.Err? && r.error == TooFewReplicas ==> failures - old(failures) > 1
    {
      hide Sound, Chain, ChainFrom, OpenCatalog, Found, Grown, Kept, Holders;
      var at := p;
      ghost var visited: seq<Cid> := [];
      ChainFromStart(s.master, p);
      while true
        invariant Valid() && Records(old(trace), trace, {files})
        invariant Spread(nodes, set c | c in visited, 5)
        invariant failures >= old(failures)
        invariant forall c :: c in visited ==> Found(Disks(sources), c)
        invariant ChainFrom(s.master, p, at, visited)
        decreases at.catalogVersion
      {
        ChainFromStep(s.master, p, at, visited);
        var blob :- FetchFrom(sources, at.catalogCid);
        ghost var before := nodes;
        var c :- Replicate(blob, 5);
        GrownSpread(before, nodes, {c}, set d | d in visited, 5);
        var catalog := OpenCatalog(s.master, at.vaultId, at.catalogVersion, at.owner, blob);
        if catalog.None? {
          return Err(BadCatalog);
        }
        visited := visited + [at.catalogCid];
        if catalog.value.previousCatalogCid.None? {
          break;
        }
        if at.catalogVersion <= 1 {
          return Err(BadCatalog);
        }
        at := Pointer(at.vaultId, catalog.value.previousCatalogCid.value, at.catalogVersion - 1, at.owner);
      }
      r := Ok(());
    }

    ghost predicate FileCopyable(p: Pointer, e: CatalogFileVersion, sources: seq<Source>) {
      && Manifest(secrets.master, p.vaultId, e).Some?
      && forall c :: c in Objects(secrets.master, p.vaultId, e) ==> Found(Disks(sources), c)
    }

    method CopyChunks(cids: seq<Cid>, sources: seq<Source>) returns (r: Result<(), VaultError>)
      requires Valid()
      modifies `nodes, `trace, `failures
      ensures Valid() && Records(old(trace), trace, {files})
      ensures exists added :: Grown(old(nodes), nodes, added)
      ensures failures >= old(failures)
      ensures r.Ok? ==> forall c :: c in cids ==> Found(Disks(sources), c)
      ensures failures == old(failures) && (forall c :: c in cids ==> Found(Disks(sources), c)) ==> r.Ok?
      ensures r.Ok? ==> Spread(nodes, set c | c in cids, 3)
      ensures r.Err? && r.error == TooFewReplicas ==> failures - old(failures) > 3
    {
      hide Sound, Holders, Found, Kept;
      ghost var added: set<Cid> := {};
      for k := 0 to |cids|
        invariant Valid() && Records(old(trace), trace, {files})
        invariant Grown(old(nodes), nodes, added) && failures >= old(failures)
        invariant forall c :: c in cids[..k] ==> Found(Disks(sources), c)
        invariant Spread(nodes, set c | c in cids[..k], 3)
      {
        assert cids[..k + 1] == cids[..k] + [cids[k]];
        var chunk :- FetchFrom(sources, cids[k]);
        ghost var before := nodes;
        var stored := Replicate(chunk, 3);
        GrownTransitive(old(nodes), before, nodes, added, {Cid(chunk)});
        added := added + {Cid(chunk)};
        GrownSpread(before, nodes, {Cid(chunk)}, set d | d in cids[..k], 3);
        var _ :- stored;
      }
      assert cids[..|cids|] == cids;
      r := Ok(());
    }

    method CopyFile(p: Pointer, s: Secrets, e: CatalogFileVersion, sources: seq<Source>) returns (r: Result<(), VaultError>)
      requires Valid() && s == secrets
      modifies `nodes, `trace, `failures
      ensures Valid() && Records(old(trace), trace, {files})
      ensures exists added :: Grown(old(nodes), nodes, added)
      ensures failures >= old(failures)
      ensures r.Ok? ==> FileCopyable(p, e, sources)
      ensures failures == old(failures) && FileCopyable(p, e, sources) ==> r.Ok?
      ensures r.Ok? ==> FileReplicated(secrets.master, p.vaultId, e, nodes)
      ensures r.Err? && r.error == TooFewReplicas ==> failures - old(failures) > 1
    {
      UnchangedGrown(nodes, {});
      hide Sound, Grown, Found, Kept, Holders, Spread, OpenManifest, HeadCatalog, Chain, Previous, AllKept, Due;
      var blob :- FetchFrom(sources, e.manifestCid);
      var stored := Replicate(blob, 5);
      ghost var middle := nodes;
      var manifestCid :- stored;
      var manifest := OpenManifest(s.master, p.vaultId, e.fileId, e.fileVersionId, blob);
      if manifest.None? {
        return Err(BadManifest);
      }
      r := CopyChunks(manifest.value.orderedChunkCids, sources);
      ghost var added :| Grown(middle, nodes, added);
      GrownTransitive(old(nodes), middle, nodes, {Cid(blob)}, added);
      GrownSpread(middle, nodes, added, {manifestCid}, 5);
    }

    method CopyFiles(p: Pointer, s: Secrets, entries: seq<CatalogFileVersion>, sources: seq<Source>)
      returns (r: Result<(), VaultError>)
      requires Valid() && s == secrets
      modifies `nodes, `trace, `failures
      ensures Valid() && Records(old(trace), trace, {files})
      ensures exists added :: Grown(old(nodes), nodes, added)
      ensures failures >= old(failures)
      ensures r.Ok? ==> forall e :: e in entries ==> FileCopyable(p, e, sources)
      ensures failures == old(failures) && (forall e :: e in entries ==> FileCopyable(p, e, sources)) ==> r.Ok?
      ensures r.Ok? ==> forall e :: e in entries ==> FileReplicated(secrets.master, p.vaultId, e, nodes)
    {
      ghost var total: set<Cid> := {};
      UnchangedGrown(nodes, {});
      hide Sound, Grown, FileReplicated, FileCopyable;
      for k := 0 to |entries|
        invariant Valid() && Records(old(trace), trace, {files})
        invariant failures >= old(failures) && Grown(old(nodes), nodes, total)
        invariant forall e :: e in entries[..k] ==> FileCopyable(p, e, sources)
        invariant forall e :: e in entries[..k] ==> FileReplicated(secrets.master, p.vaultId, e, nodes)
      {
        assert entries[..k + 1] == entries[..k] + [entries[k]];
        ghost var before := nodes;
        var copied := CopyFile(p, s, entries[k], sources);
        ghost var added :| Grown(before, nodes, added);
        GrownTransitive(old(nodes), before, nodes, total, added);
        total := total + added;
        forall e | e in entries[..k] ensures FileReplicated(secrets.master, p.vaultId, e, nodes) {
          GrownReplicated(p.vaultId, e, before, nodes, added);
        }
        var _ :- copied;
      }
      assert entries[..|entries|] == entries;
      r := Ok(());
    }

    lemma {:induction false} GrownReplicated(vaultId: string, e: CatalogFileVersion, before: seq<Disk>, after: seq<Disk>,
            added: set<Cid>)
      requires Grown(before, after, added) && FileReplicated(secrets.master, vaultId, e, before)
      ensures FileReplicated(secrets.master, vaultId, e, after)
    {
      hide Grown, Spread;
      GrownSpread(before, after, added, {e.manifestCid}, 5);
      GrownSpread(before, after, added, set c | c in Manifest(secrets.master, vaultId, e).value.orderedChunkCids, 3);
    }

    /** Saves the recovered state and refreshes the kit, taking up the file map it continues. */
    method Adopt(p: Pointer, passphrase: string, ghost newFiles: FileMap) returns (r: Result<(), VaultError>)
      requires Valid() && rootExists && state.None?
      modifies `state, `kit, `files, `issued, `trace, `failures
      ensures r.Ok? ==> state == Some(p) && kit == Some(KitFile(passphrase, secrets, p)) && files == newFiles
      ensures old(Sound(secrets, Now().(state := Some(p), files := newFiles))) ==>
                Valid() && (state.None? || (state == Some(p) && files == newFiles))
      ensures state.None? ==> Valid()
      ensures failures == old(failures) + if r.Ok? then 0 else 1
    {
      hide HeadSound, AllKept, Needed;
      if * {
        failures := failures + 1;
        return Err(Io);
      }
      state := Some(p);
      files := newFiles;
      trace := trace + [Now()];
      if * {
        failures := failures + 1;
        return Err(Io);
      }
      kit := Some(KitFile(passphrase, secrets, p));
      issued := issued + {p};
      trace := trace + [Now()];
      r := Ok(());
    }

    /**
      Rebuilds a vault, in a place that has none, from a kit and storage-node roots. The vault
      was constructed with the secrets the kit carries. With no step failing it goes through
      exactly when the head discovered and all it names can be read; whatever file map that
      head stands for, the rebuilt vault stands for.
     */
    method Recover(k: KitFile, passphrase: string, sources: seq<Source>, ghost newFiles: FileMap, ghost newHorizon: int)
      returns (r: Result<(), VaultError>)
      requires Valid() && k.secrets == secrets && faulty == {}
      modifies this
      ensures old(rootExists) ==> r == Err(AlreadyExists) && state == old(state)
      ensures failures >= old(failures) && (r.Ok? ==> Recoverable(secrets.master, k.pointer, sources))
      ensures failures == old(failures) ==>
                (r.Ok? <==> !old(rootExists) && k.passphrase == passphrase && Recoverable(secrets.master, k.pointer, sources))
      ensures r.Ok? ==>
                && state == Some(Walk(secrets.master, k.pointer, Scanned(sources), k.pointer))
                && kit == Some(KitFile(passphrase, secrets, state.value))
                && Descends(secrets.master, state.value, k.pointer)
                && state.value.catalogVersion >= k.pointer.catalogVersion
                && Spread(nodes, CopiedMetadata(secrets.master, state.value), 5)
                && Spread(nodes, Copied(secrets.master, state.value), 3)
                && files == newFiles && horizon == newHorizon
      ensures (|| state == old(state)
               || HeadSound(secrets, Walk(secrets.master, k.pointer, Scanned(sources), k.pointer), newFiles, newHorizon))
              ==> Valid()
    {
      hide Sound, Chain, HeadCatalog, Descends, Copied, HeadSound, Copyable, Walk, Scanned, Found, Spread, CopiedMetadata;
      if rootExists {
        return Err(AlreadyExists);
      }
      if k.passphrase != passphrase {
        return Err(BadKit);
      }
      var found :- Discover(k.pointer, k.secrets.master, sources);
      EmptySound(secrets, Now(), newHorizon);
      rootExists := true;
      horizon := newHorizon;
      trace := trace + [Now()];
      r := Refill(found.0, found.1, k, passphrase, sources, newFiles);
    }

    /** Writes the kit given, copies all that the head names, and then takes it up. */
    method Refill(p: Pointer, catalog: VaultCatalog, k: KitFile, passphrase: string, sources: seq<Source>,
                  ghost newFiles: FileMap)
      returns (r: Result<(), VaultError>)
      requires Valid() && rootExists && state.None? && issued == {} && faulty == {} && k.secrets == secrets
      requires Some(catalog) == HeadCatalog(secrets.master, p) && Descends(secrets.master, p, k.pointer)
      modifies `nodes, `state, `kit, `files, `issued, `trace, `failures
      ensures failures >= old(failures) && (r.Ok? ==> Copyable(secrets.master, p, Disks(sources)))
      ensures failures == old(failures) ==> (r.Ok? <==> Copyable(secrets.master, p, Disks(sources)))
      ensures r.Ok? ==>
                && state == Some(p) && kit == Some(KitFile(passphrase, secrets, p)) && files == newFiles
                && Spread(nodes, CopiedMetadata(secrets.master, p), 5) && Spread(nodes, Copied(secrets.master, p), 3)
      ensures state.None? || HeadSound(secrets, p, newFiles, horizon) ==> Valid()
    {
      hide Sound, Chain, HeadCatalog, Descends, Copied, HeadSound, Copyable, Found, Spread, CopiedMetadata;
      var _ :- WriteKit(k.pointer, passphrase);
      var _ :- CopyAll(p, catalog, k.secrets, sources);
      if HeadSound(secrets, p, newFiles, horizon) {
        RebuiltSound(secrets, p, newFiles, Now());
      }
      r := Adopt(p, passphrase, newFiles);
    }

    method CopyAll(p: Pointer, catalog: VaultCatalog, s: Secrets, sources: seq<Source>) returns (r: Result<(), VaultError>)
      requires Valid() && s == secrets && Some(catalog) == HeadCatalog(secrets.master, p)
      modifies `nodes, `trace, `failures
      ensures Valid() && Records(old(trace), trace, {files})
      ensures r.Ok? ==> Spread(nodes, CopiedMetadata(secrets.master, p), 5) && Spread(nodes, Copied(secrets.master, p), 3)
      ensures failures >= old(failures) && (r.Ok? ==> Copyable(secrets.master, p, Disks(sources)))
      ensures failures == old(failures) && Copyable(secrets.master, p, Disks(sources)) ==> r.Ok?
    {
      hide Sound, Chain, HeadCatalog, Grown, Spread, Copyable, FileCopyable, FileReplicated;
      CopyableParts(p, catalog, sources);
      var _ :- CopyChain(p, s, sources);
      ghost var middle := nodes;
      r := CopyFiles(p, s, catalog.files, sources);
      ghost var added :| Grown(middle, nodes, added);
      GrownSpread(middle, nodes, added, set c | c in Chain(secrets.master, p).value, 5);
      if r.Ok? {
        CopiedSpread(p, catalog);
      }
    }

    lemma {:induction false} CopiedSpread(p: Pointer, catalog: VaultCatalog)
      requires HeadCatalog(secrets.master, p) == Some(catalog) && Chain(secrets.master, p).Some?
      requires Spread(nodes, set c | c in Chain(secrets.master, p).value, 5)
      requires forall e :: e in catalog.files ==> FileReplicated(secrets.master, p.vaultId, e, nodes)
      ensures Spread(nodes, CopiedMetadata(secrets.master, p), 5) && Spread(nodes, Copied(secrets.master, p), 3)
    {
      hide Holders, Chain, HeadCatalog;
    }

    lemma {:induction false} CopyableParts(p: Pointer, catalog: VaultCatalog, sources: seq<Source>)
      requires Some(catalog) == HeadCatalog(secrets.master, p)
      ensures Copyable(secrets.master, p, Disks(sources)) <==>
                && Chain(secrets.master, p).Some?
                && (forall c :: c in Chain(secrets.master, p).value ==> Found(Disks(sources), c))
                && (forall e :: e in catalog.files ==> FileCopyable(p, e, sources))
    {
    }
  }
}
