/**
  Whole runs of a local vault: any sequence of adds, deletes, collections by either collector,
  and losses of up to two nodes, with every step free to fail, against the plain file map; and
  recovery from what such a run leaves on the nodes.
 */
module VaultRuns {
  import opened Wrappers
  import opened ByteStrings
  import opened Sealed
  import opened Nodes
  import opened VaultModel
  import opened Recovery
  import opened LocalVaults
  import opened VaultTrails

  function Fold(files: FileMap, ops: seq<Op>, committed: seq<bool>): FileMap
    requires |ops| == |committed|
  {
    if |ops| == 0 then files
    else
      var before := Fold(files, ops[..|ops| - 1], committed[..|ops| - 1]);
      if committed[|ops| - 1] then Effect(before, ops[|ops| - 1]) else before
  }

  /** The latest time any of these collections runs at. */
  function Latest(horizon: int, ops: seq<Op>): int {
    if |ops| == 0 then horizon
    else
      var before := Latest(horizon, ops[..|ops| - 1]);
      var op := ops[|ops| - 1];
      if op.Collect? && op.now > before then op.now else before
  }

  function Lost(ops: seq<Op>): set<int> {
    set i | 0 <= i < |ops| && ops[i].LoseNode? :: ops[i].node as int
  }

  lemma {:induction false} FoldKeys(files: FileMap, ops: seq<Op>, committed: seq<bool>)
    requires |ops| == |committed|
    ensures forall id :: id in Fold(files, ops, committed) ==>
              id in files || exists i :: 0 <= i < |ops| && ops[i].AddFile? && ops[i].fileId == id
  {
    if |ops| > 0 {
      FoldKeys(files, ops[..|ops| - 1], committed[..|ops| - 1]);
    }
  }

  /** File identifiers are drawn at random: no two adds share one, and none is in use. */
  ghost predicate FreshIds(files: FileMap, ops: seq<Op>) {
    && (forall i, j :: 0 <= i < j < |ops| && ops[i].AddFile? && ops[j].AddFile? ==> ops[i].fileId != ops[j].fileId)
    && (forall i :: 0 <= i < |ops| && ops[i].AddFile? ==> ops[i].fileId !in files)
  }

  /**
    At the moment a collection has dropped its expired objects and not yet saved the catalog, an
    expired entry that shares no object with a live one stops the command line's collector and
    recovery alike.
   */
  lemma {:induction false} DroppedStops(v: LocalVault, now: int, e: CatalogFileVersion)
    requires v.Valid() && v.state.Some? && v.DroppedBefore(v.state.value, now, v.Now())
    requires e in HeadCatalog(v.secrets.master, v.state.value).value.files && Expired(e, now)
    requires e.manifestCid !in Needed(v.secrets.master, v.state.value, now)
    ensures !v.ManifestsFound(v.state.value)
    ensures !ExpiredFound(v.secrets.master, v.state.value, v.horizon, v.nodes)
  {
    assert e.manifestCid in Objects(v.secrets.master, v.state.value.vaultId, e);
  }

  // ---------- one operation ----------

  method AddWith(v: LocalVault, op: Op, passphrase: string) returns (ok: bool, ghost committed: bool)
    requires v.Valid() && v.rootExists && op.AddFile? && op.fileId !in v.files
    modifies v`nodes, v`state, v`kit, v`files, v`issued, v`trace, v`failures
    ensures v.Valid() && (old(v.state).Some? ==> v.state.Some?)
    ensures v.files == if committed then Effect(old(v.files), op) else old(v.files)
    ensures ok ==> committed
    ensures old(v.state).Some? ==> OpStep(v.secrets, old(v.Now()), v.Now(), op, ok)
    ensures v.failures >= old(v.failures)
    ensures v.failures == old(v.failures) ==> (ok <==> old(v.state).Some? && old(v.kit).value.passphrase == passphrase)
  {
    hide Sound, Chain, HeadCatalog, Found, Needed;
    if v.state.Some? {
      LiveReadsSucceed(v.secrets, v.Now(), v.horizon);
    }
    var r := v.Add(op.bytes, op.fileId, op.fileKey, passphrase, op.now, op.nonce);
    ok := r.Ok?;
    committed := v.files != old(v.files);
  }

  method DeleteWith(v: LocalVault, op: Op, passphrase: string) returns (ok: bool, ghost committed: bool)
    requires v.Valid() && v.rootExists && op.DeleteFile?
    modifies v`nodes, v`state, v`kit, v`files, v`issued, v`trace, v`failures
    ensures v.Valid() && (old(v.state).Some? ==> v.state.Some?)
    ensures v.files == if committed then Effect(old(v.files), op) else old(v.files)
    ensures ok ==> committed
    ensures old(v.state).Some? ==> OpStep(v.secrets, old(v.Now()), v.Now(), op, ok)
    ensures v.failures >= old(v.failures)
    ensures v.failures == old(v.failures) ==>
              (ok <==>
                 && old(v.state).Some? && old(v.kit).value.passphrase == passphrase
                 && op.fileId in old(v.files) && old(v.files)[op.fileId].deletedAt.None?)
  {
    hide Sound, Chain, HeadCatalog, Found, Needed;
    if v.state.Some? {
      LiveReadsSucceed(v.secrets, v.Now(), v.horizon);
    }
    var r := v.Delete(op.fileId, passphrase, op.now, op.nonce);
    ok := r.Ok?;
    committed := ok || v.files != old(v.files);
  }

  method CollectWith(v: LocalVault, op: Op, passphrase: string) returns (ok: bool)
    requires v.Valid() && v.rootExists && op.Collect?
    modifies v`nodes, v`state, v`kit, v`files, v`issued, v`horizon, v`trace, v`failures
    ensures v.Valid() && v.files == Effect(old(v.files), op) && (old(v.state).Some? ==> v.state.Some?)
    ensures v.horizon == old(v.horizon) || v.horizon == if op.now > old(v.horizon) then op.now else old(v.horizon)
    ensures old(v.state).Some? ==> OpStep(v.secrets, old(v.Now()), v.Now(), op, ok)
    ensures v.failures >= old(v.failures)
    ensures v.failures == old(v.failures) && old(v.horizon) <= op.now && old(v.state).Some? ==>
              (ok <==>
                 && old(v.kit).value.passphrase == passphrase
                 && (op.desktop || old(v.ManifestsFound(v.state.value))))
  {
    hide Sound, Chain, Found, Needed, Attempted, Single;
    if v.state.Some? && v.horizon <= op.now {
      LiveReadsSucceed(v.secrets, v.Now(), op.now);
    }
    ghost var before := v.Now();
    var r;
    if op.desktop {
      r := v.GcDesktop(passphrase, op.now, op.nonce);
    } else {
      r := v.Gc(passphrase, op.now, op.nonce);
    }
    ok := r.Ok?;
    if ok {
      CollectedSingle(v.secrets, v.Now(), op.now, before.nodes,
                      if v.state == before.state then {} else {v.state.value.catalogCid});
    }
  }

  method LoseWith(v: LocalVault, op: Op)
    requires v.Valid() && op.LoseNode? && op.node < NODE_COUNT && |v.faulty + {op.node as int}| <= 2
    modifies v`nodes, v`faulty, v`trace
    ensures v.Valid() && v.faulty == old(v.faulty) + {op.node as int}
    ensures OpStep(v.secrets, old(v.Now()), v.Now(), op, true) && v.files == Effect(old(v.files), op)
  {
    v.Damage(op.node, op.disk);
  }

  method Apply(v: LocalVault, op: Op, passphrase: string) returns (ok: bool, ghost committed: bool)
    requires v.Valid() && v.rootExists
    requires op.AddFile? ==> op.fileId !in v.files
    requires op.LoseNode? ==> op.node < NODE_COUNT && |v.faulty + {op.node as int}| <= 2
    modifies v
    ensures v.Valid() && v.rootExists && (old(v.state).Some? ==> v.state.Some?)
    ensures v.files == if committed then Effect(old(v.files), op) else old(v.files)
    ensures ok ==> committed
    ensures v.faulty == old(v.faulty) + if op.LoseNode? then {op.node as int} else {}
    ensures v.horizon == old(v.horizon) || (op.Collect? && v.horizon == if op.now > old(v.horizon) then op.now else old(v.horizon))
    ensures old(v.state).Some? ==> OpStep(v.secrets, old(v.Now()), v.Now(), op, ok)
  {
    hide Sound, Single, OpStep, Effect, LocalVault.Valid, LocalVault.ManifestsFound;
    match op {
      case AddFile(_, _, _, _, _) =>
        ok, committed := AddWith(v, op, passphrase);
      case DeleteFile(_, _, _) =>
        ok, committed := DeleteWith(v, op, passphrase);
      case Collect(_, _, _) =>
        ok := CollectWith(v, op, passphrase);
        committed := true;
      case LoseNode(_, _) =>
        LoseWith(v, op);
        ok := true;
        committed := true;
    }
  }

  lemma {:induction false} RestoresAll(v: LocalVault, from: int)
    requires v.Valid() && v.state.Some? && v.horizon <= from
    ensures forall id, now :: from <= now ==>
              RestoreFrom(v.secrets.master, v.nodes, v.state.value, id, now) == Lookup(v.files, id, now)
  {
    forall id, now | from <= now
      ensures RestoreFrom(v.secrets.master, v.nodes, v.state.value, id, now) == Lookup(v.files, id, now)
    {
      RestoreRefinesFileMap(v.secrets, v.Now(), id, now);
    }
  }

  /** What a run has come to, from its start to the moment after these operations. */
  ghost predicate Progress(s: Secrets, start: Moment, now: Moment, ops: seq<Op>, oks: seq<bool>, committed: seq<bool>,
                           moments: seq<Moment>) {
    && |oks| == |committed| == |ops|
    && (forall k :: 0 <= k < |ops| && oks[k] ==> committed[k])
    && now.files == Fold(start.files, ops, committed)
    && now.horizon <= Latest(start.horizon, ops)
    && Trail(s, moments, ops, oks) && moments[0] == start && moments[|ops|] == now
    && (forall k :: 0 <= k <= |ops| ==> moments[k].files == Fold(start.files, ops[..k], committed[..k]))
  }

  lemma {:induction false} ProgressFacts(s: Secrets, start: Moment, now: Moment, ops: seq<Op>, oks: seq<bool>,
          committed: seq<bool>, moments: seq<Moment>)
    requires Progress(s, start, now, ops, oks, committed, moments)
    ensures |oks| == |committed| == |ops| && |moments| == |ops| + 1
    ensures forall k :: 0 <= k < |ops| && oks[k] ==> committed[k]
    ensures now.files == Fold(start.files, ops, committed) && now.horizon <= Latest(start.horizon, ops)
    ensures Trail(s, moments, ops, oks) && moments[0] == start && moments[|ops|] == now
    ensures forall k :: 0 <= k <= |ops| ==> moments[k].files == Fold(start.files, ops[..k], committed[..k])
  {
    hide Fold, Latest, OpStep, Sound;
  }

  lemma {:induction false} NoProgress(s: Secrets, start: Moment)
    requires Sound(s, start) && start.state.Some?
    ensures Progress(s, start, start, [], [], [], [start])
  {
    hide Sound;
  }

  lemma {:induction false} MoreProgress(s: Secrets, start: Moment, now: Moment, next: Moment, ops: seq<Op>, oks: seq<bool>,
          committed: seq<bool>, moments: seq<Moment>, op: Op, ok: bool, done: bool)
    requires Progress(s, start, now, ops, oks, committed, moments)
    requires Sound(s, next) && next.state.Some? && OpStep(s, now, next, op, ok) && (ok ==> done)
    requires next.files == if done then Effect(now.files, op) else now.files
    requires next.horizon == now.horizon || (op.Collect? && next.horizon == if op.now > now.horizon then op.now else now.horizon)
    ensures Progress(s, start, next, ops + [op], oks + [ok], committed + [done], moments + [next])
  {
    hide Sound, OpStep, Effect, Fold, Latest, Trail;
    ProgressFacts(s, start, now, ops, oks, committed, moments);
    FoldGrows(start.files, ops, committed, op, done);
    LatestGrows(start.horizon, ops, op);
    TrailGrows(s, moments, ops, oks, next, op, ok);
    var moments', ops', committed' := moments + [next], ops + [op], committed + [done];
    assert ops' == ops'[..|ops'|] && committed' == committed'[..|ops'|];
    forall k | 0 <= k <= |ops'| ensures moments'[k].files == Fold(start.files, ops'[..k], committed'[..k]) {
      if k <= |ops| {
        assert ops'[..k] == ops[..k] && committed'[..k] == committed[..k];
      }
    }
  }

  /**
    Over every run the vault refines the file map: each operation that reports success has had
    its effect, each other either has or has not, and restoring any file at any later time gives
    exactly what the map holds, with up to two nodes lost or altered along the way or at its end.
    From its start or any collection that completed, one catalog for each version is left until
    an operation seals a catalog and does not save it.
   */
  method Run(v: LocalVault, ops: seq<Op>, passphrase: string)
    returns (oks: seq<bool>, ghost committed: seq<bool>, ghost moments: seq<Moment>)
    requires v.Valid() && v.rootExists && v.state.Some?
    requires FreshIds(v.files, ops)
    requires forall i :: 0 <= i < |ops| && ops[i].LoseNode? ==> ops[i].node < NODE_COUNT
    requires |v.faulty + Lost(ops)| <= 2
    modifies v
    ensures v.Valid() && v.state.Some?
    ensures |oks| == |committed| == |ops|
    ensures forall i :: 0 <= i < |ops| && oks[i] ==> committed[i]
    ensures v.files == Fold(old(v.files), ops, committed)
    ensures v.horizon <= Latest(old(v.horizon), ops)
    ensures forall id, now :: Latest(old(v.horizon), ops) <= now ==>
              RestoreFrom(v.secrets.master, v.nodes, v.state.value, id, now) ==
              Lookup(Fold(old(v.files), ops, committed), id, now)
    ensures Trail(v.secrets, moments, ops, oks) && moments[0] == old(v.Now()) && moments[|ops|] == v.Now()
    ensures forall i :: 0 <= i <= |ops| ==> moments[i].files == Fold(old(v.files), ops[..i], committed[..i])
    ensures forall j :: 0 <= j <= |ops| && SingleAt(v.secrets.master, moments, ops, oks, j) && NoneStranded(moments, ops, j) ==>
              Single(v.secrets.master, v.Now())
  {
    hide Sound, Lookup, RestoreFrom, OpStep, SingleAt, NoneStranded, Single, Effect, Progress, Trail, Fold, Latest;
    oks, committed, moments := [], [], [v.Now()];
    NoProgress(v.secrets, v.Now());
    for i := 0 to |ops|
      invariant v.Valid() && v.rootExists && v.state.Some?
      invariant Progress(v.secrets, old(v.Now()), v.Now(), ops[..i], oks, committed, moments)
      invariant v.faulty <= old(v.faulty) + Lost(ops)
    {
      ProgressFacts(v.secrets, old(v.Now()), v.Now(), ops[..i], oks, committed, moments);
      FoldKeys(old(v.files), ops[..i], committed);
      if ops[i].LoseNode? {
        SubsetCard(v.faulty + {ops[i].node as int}, old(v.faulty) + Lost(ops));
      }
      ghost var before := v.Now();
      var ok;
      ghost var done;
      ok, done := Apply(v, ops[i], passphrase);
      MoreProgress(v.secrets, old(v.Now()), before, v.Now(), ops[..i], oks, committed, moments, ops[i], ok, done);
      assert ops[..i + 1] == ops[..i] + [ops[i]];
      oks, committed, moments := oks + [ok], committed + [done], moments + [v.Now()];
    }
    assert ops[..|ops|] == ops;
    ProgressFacts(v.secrets, old(v.Now()), v.Now(), ops, oks, committed, moments);
    RestoresAll(v, Latest(old(v.horizon), ops));
    forall j | 0 <= j <= |ops| && SingleAt(v.secrets.master, moments, ops, oks, j) && NoneStranded(moments, ops, j)
      ensures Single(v.secrets.master, v.Now())
    {
      TrailSingle(v.secrets, moments, ops, oks, j, |ops|);
    }
  }

  lemma {:induction false} FoldGrows(files: FileMap, ops: seq<Op>, committed: seq<bool>, op: Op, done: bool)
    requires |ops| == |committed|
    ensures Fold(files, ops + [op], committed + [done]) ==
            if done then Effect(Fold(files, ops, committed), op) else Fold(files, ops, committed)
  {
    assert (ops + [op])[..|ops|] == ops && (committed + [done])[..|ops|] == committed;
  }

  lemma {:induction false} LatestGrows(horizon: int, ops: seq<Op>, op: Op)
    ensures Latest(horizon, ops + [op]) ==
            if op.Collect? && op.now > Latest(horizon, ops) then op.now else Latest(horizon, ops)
  {
    assert (ops + [op])[..|ops|] == ops;
  }

  /**
    Rebuilds `v` elsewhere from its own reopened nodes, of which two may be lost or damaged, and
    any kit it ever issued. With no step failing that goes through exactly when no expired file
    its catalog still lists has lost an object, and what is rebuilt restores the same files.
   */
  method Rebuild(v: LocalVault, w: LocalVault, k: KitFile, passphrase: string, sources: seq<Source>)
    returns (r: Result<(), VaultError>)
    requires v.Valid() && v.state.Some? && Single(v.secrets.master, v.Now())
    requires w != v && w.Valid() && !w.rootExists && w.faulty == {}
    requires k.secrets == v.secrets == w.secrets && k.pointer in v.issued
    requires v.state.value.catalogVersion <= k.pointer.catalogVersion + 10_000
    requires Opened(sources) && Disks(sources) == v.nodes
    modifies w
    ensures w.Valid()
    ensures r.Ok? ==> w.state == v.state && w.files == v.files
    ensures r.Ok? ==>
              forall id, now :: v.horizon <= now ==>
                RestoreFrom(w.secrets.master, w.nodes, w.state.value, id, now) == Lookup(v.files, id, now)
    ensures w.failures == old(w.failures) ==>
              (r.Ok? <==>
                 && k.passphrase == passphrase
                 && ExpiredFound(v.secrets.master, v.state.value, v.horizon, v.nodes))
  {
    hide Sound, Single, Uncontested, Walk, Scanned, Copyable, HeadSound;
    SingleUncontested(v.secrets, v.Now(), k.pointer);
    SoundTakesUp(v.secrets, v.Now(), k.pointer, sources);
    ContinuesFindsHead(v.secrets, v.state.value, v.files, v.horizon, k.pointer, sources);
    r := w.Recover(k, passphrase, sources, v.files, v.horizon);
    if r.Ok? {
      RestoresAll(w, v.horizon);
    }
  }

  /**
    After any run at all, catalogs stranded and nodes back with old contents included, a rebuild
    from any kit stands for a file map the vault had, or some operation would have made, at some
    time; `VaultTrails.TrailAccounted` gives the map that is known for each catalog.
   */
  method Salvage(v: LocalVault, w: LocalVault, k: KitFile, passphrase: string, sources: seq<Source>,
                 ghost moments: seq<Moment>, ghost known: map<Pointer, FileMap>)
    returns (r: Result<(), VaultError>)
    requires v.Valid() && v.state.Some?
    requires Accounted(v.secrets, moments, known) && moments[|moments| - 1] == v.Now()
    requires w != v && w.Valid() && !w.rootExists && w.faulty == {}
    requires k.secrets == v.secrets == w.secrets && k.pointer in v.issued
    requires Opened(sources) && Disks(sources) == v.nodes
    modifies w
    ensures w.Valid()
    ensures r.Ok? ==>
              && w.state.Some? && w.state.value in known && w.files == known[w.state.value]
              && w.state.value.catalogVersion >= k.pointer.catalogVersion
    ensures r.Ok? ==>
              forall id, now :: v.horizon <= now ==>
                RestoreFrom(w.secrets.master, w.nodes, w.state.value, id, now) == Lookup(w.files, id, now)
    ensures w.failures == old(w.failures) ==>
              (r.Ok? <==> k.passphrase == passphrase && Recoverable(v.secrets.master, k.pointer, sources))
  {
    hide Sound, Accounted, Walk, Scanned, HeadSound, Recoverable;
    AccountedWalk(v.secrets, moments, known, k.pointer, sources);
    ghost var head := Walk(v.secrets.master, k.pointer, Scanned(sources), k.pointer);
    r := w.Recover(k, passphrase, sources, known[head], v.horizon);
    if r.Ok? {
      RestoresAll(w, v.horizon);
    }
  }
}
