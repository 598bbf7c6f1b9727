/**
  What a run of a local vault leaves on its nodes, told from the moments between operations:
  which catalogs are there, and what recovery makes of them.
 */
module VaultTrails {
  import opened Wrappers
  import opened ByteStrings
  import opened Identity
  import opened Sealed
  import opened Nodes
  import opened VaultModel
  import opened Recovery
  import opened LocalVaults

  datatype Op =
    | AddFile(bytes: Bytes, fileId: string, fileKey: Key, now: int, nonce: nat)
    | DeleteFile(fileId: string, now: int, nonce: nat)
    | Collect(desktop: bool, now: int, nonce: nat)
    | LoseNode(node: nat, disk: Disk)

  /** What an operation does to the file map when it commits. */
  function Effect(files: FileMap, op: Op): FileMap {
    match op
    case AddFile(bytes, id, _, _, _) => files[id := FileEntry(bytes, None)]
    case DeleteFile(id, now, _) =>
      if id in files && files[id].deletedAt.None? then files[id := files[id].(deletedAt := Some(now))] else files
    case Collect(_, _, _) => files
    case LoseNode(_, _) => files
  }

  // ---------- one catalog for each version ----------

  /** Nodes with no catalog off the head's chain do not contest it, whichever kit is used. */
  lemma {:induction false} SingleUncontested(s: Secrets, m: Moment, kit: Pointer)
    requires Sound(s, m) && Single(s.master, m) && kit in m.issued
    ensures Uncontested(s.master, kit, m.state.value, m.nodes)
  {
    var head := m.state.value;
    DescendsVersion(s.master, head, kit);
    forall c | Found(m.nodes, c) && CandidateVersion(s.master, kit, c).Some?
      ensures var v := CandidateVersion(s.master, kit, c).value;
              && v <= head.catalogVersion
              && Ancestor(s.master, head, v).Some?
              && Ancestor(s.master, head, v).value.catalogCid == c
    {
      assert IsCatalog(c);
      ChainIsAncestors(s.master, head, c);
    }
  }

  /** A catalog was sealed that the state was never moved to. */
  ghost predicate Stranded(before: Moment, after: Moment) {
    after.state == before.state && !NoNewCatalogs(before.nodes, after.nodes)
  }

  /** An operation keeps one catalog for each version exactly when it strands none. */
  lemma {:induction false} AttemptedSingleIff(s: Secrets, before: Moment, after: Moment, files: FileMap)
    requires Sound(s, before) && Single(s.master, before) && Sound(s, after) && after.state.Some?
    requires Attempted(s, before, after, files)
    ensures Single(s.master, after) <==> !Stranded(before, after)
  {
    if after.state != before.state {
      var q :| SealedNext(s, before, after, files, q);
      ChainNext(s.master, q, before.state.value);
    } else {
      ChainIsFound(s, before);
    }
  }

  lemma {:induction false} ChainIsFound(s: Secrets, m: Moment)
    requires Sound(s, m) && m.state.Some?
    ensures forall c :: c in Chain(s.master, m.state.value).value ==> Found(m.nodes, c)
  {
    forall c | c in Chain(s.master, m.state.value).value ensures Found(m.nodes, c) {
      assert c in Needed(s.master, m.state.value, m.horizon);
      KeptFound(m.nodes, m.faulty, c);
    }
  }

  /** A completed collection leaves one catalog for each version, whatever was on the nodes before it. */
  lemma {:induction false} CollectedSingle(s: Secrets, m: Moment, now: int, before: seq<Disk>, added: set<Cid>)
    requires Sound(s, m) && m.state.Some?
    requires Collected(before, m.nodes, Needed(s.master, m.state.value, now), added)
    ensures Single(s.master, m)
  {
    var head := m.state.value;
    var entries := HeadCatalog(s.master, head).value.files;
    forall c | Found(m.nodes, c) && IsCatalog(c) ensures c in Chain(s.master, head).value {
      if c !in Chain(s.master, head).value {
        var e :| e in entries && !Expired(e, now) && c in Objects(s.master, head.vaultId, e);
        assert Entails(s.master, head.vaultId, e, m.files);
        ObjectsAreNotCatalogs(s.master, head.vaultId, e, c);
      }
    }
  }

  /** Recovery finds `head`, stands for `files`, and can only be stopped by the loss of an expired file. */
  ghost predicate TakesUp(s: Secrets, m: Moment, head: Pointer, files: FileMap, kit: Pointer, sources: seq<Source>) {
    && Continues(s, head, files, m.horizon, kit, sources)
    && (Recoverable(s.master, kit, sources) <==> ExpiredFound(s.master, head, m.horizon, m.nodes))
  }

  lemma {:induction false} SoundTakesUp(s: Secrets, m: Moment, kit: Pointer, sources: seq<Source>)
    requires Sound(s, m) && m.state.Some? && kit in m.issued
    requires Opened(sources) && Disks(sources) == m.nodes
    requires m.state.value.catalogVersion <= kit.catalogVersion + 10_000
    requires Uncontested(s.master, kit, m.state.value, m.nodes)
    ensures TakesUp(s, m, m.state.value, m.files, kit, sources)
  {
    SoundContinues(s, m, kit, sources);
    ContinuesRecoverable(s, m.state.value, m.files, m.horizon, kit, sources);
    SoundCopyableIff(s, m);
  }

  /** A vault created over nodes without catalogs starts with one catalog for each version. */
  lemma {:induction false} CreatedSingle(s: Secrets, m: Moment, before: seq<Disk>)
    requires Sound(s, m) && m.state.Some? && Grown(before, m.nodes, {m.state.value.catalogCid})
    requires forall c :: Found(before, c) ==> !IsCatalog(c)
    ensures Single(s.master, m)
  {
    GrownAddsOne(before, m.nodes, m.state.value.catalogCid);
  }

  /**
    However far an operation came, the nodes it left continue, from any kit issued, either with
    the head saved then or with the one catalog it sealed: recovery gives the file map before
    the operation or after it, and goes through exactly when no expired file its catalog still
    lists has lost an object.
   */
  lemma {:induction false} CutShortContinues(s: Secrets, before: Moment, after: Moment, files: FileMap, kit: Pointer,
          sources: seq<Source>)
    requires Sound(s, before) && Single(s.master, before)
    requires Sound(s, after) && after.state.Some? && kit in after.issued
    requires Attempted(s, before, after, files)
    requires Opened(sources) && Disks(sources) == after.nodes
    requires before.state.value.catalogVersion < kit.catalogVersion + 10_000
    ensures || TakesUp(s, after, after.state.value, after.files, kit, sources)
            || exists q :: TakesUp(s, after, q, files, kit, sources)
  {
    if !Stranded(before, after) {
      AttemptedSingleIff(s, before, after, files);
      SingleUncontested(s, after, kit);
      SoundTakesUp(s, after, kit, sources);
    } else {
      var q :| SealedNext(s, before, after, files, q);
      StrandedTakesUp(s, before, after, files, q, kit, sources);
    }
  }

  lemma {:induction false} StrandedTakesUp(s: Secrets, before: Moment, after: Moment, files: FileMap, q: Pointer,
          kit: Pointer, sources: seq<Source>)
    requires Sound(s, before) && Single(s.master, before) && Sound(s, after) && kit in after.issued
    requires SealedNext(s, before, after, files, q) && Stranded(before, after)
    requires Opened(sources) && Disks(sources) == after.nodes
    requires before.state.value.catalogVersion < kit.catalogVersion + 10_000
    ensures TakesUp(s, after, q, files, kit, sources)
  {
    hide Matches, LiveObjects, Uncontested, Continues, Recoverable, ExpiredFound, Sound;
    ChainNext(s.master, q, before.state.value);
    assert forall c :: Found(after.nodes, c) && CandidateVersion(s.master, kit, c).Some? ==> IsCatalog(c);
    var c :| Found(after.nodes, c) && IsCatalog(c) && !Found(before.nodes, c);
    OrphanContinues(s, after, q, files, kit, sources);
  }

  lemma {:induction false} ChainNext(master: Key, q: Pointer, p: Pointer)
    requires Previous(master, q) == Some(p) && Chain(master, q).Some?
    ensures Chain(master, p).Some? && Chain(master, q).value == [q.catalogCid] + Chain(master, p).value
  {
  }

  // ---------- trails ----------

  /** How an operation that reported `ok` leads from one moment to the next. */
  ghost predicate OpStep(s: Secrets, before: Moment, after: Moment, op: Op, ok: bool) {
    && before.horizon <= after.horizon
    && (forall p :: p in after.issued ==> p in before.issued || Some(p) == after.state)
    && match op {
         case LoseNode(i, disk) =>
           i < |before.nodes| && after == before.(nodes := before.nodes[i := disk], faulty := after.faulty)
         case Collect(_, _, _) =>
           Attempted(s, before, after, before.files) && (ok ==> Single(s.master, after))
         case _ =>
           Attempted(s, before, after, Effect(before.files, op)) && (ok ==> after.state != before.state)
       }
  }

  /** A run told by the moments between its operations. */
  ghost predicate Trail(s: Secrets, moments: seq<Moment>, ops: seq<Op>, oks: seq<bool>) {
    && |moments| == |ops| + 1 && |oks| == |ops|
    && (forall i :: 0 <= i < |moments| ==> Sound(s, moments[i]) && moments[i].state.Some?)
    && (forall i :: 0 <= i < |ops| ==> OpStep(s, moments[i], moments[i + 1], ops[i], oks[i]))
  }

  lemma {:induction false} TrailGrows(s: Secrets, moments: seq<Moment>, ops: seq<Op>, oks: seq<bool>, m: Moment, op: Op,
          ok: bool)
    requires Trail(s, moments, ops, oks) && Sound(s, m) && m.state.Some?
    requires OpStep(s, moments[|ops|], m, op, ok)
    ensures Trail(s, moments + [m], ops + [op], oks + [ok])
  {
    hide Sound, OpStep;
    var moments', ops', oks' := moments + [m], ops + [op], oks + [ok];
    forall i | 0 <= i < |ops'| ensures OpStep(s, moments'[i], moments'[i + 1], ops'[i], oks'[i]) {
      if i < |ops| {
        assert OpStep(s, moments[i], moments[i + 1], ops[i], oks[i]);
      }
    }
  }

  /** A lost node comes back empty, damaged, or with anything but catalogs. */
  ghost predicate BringsNoCatalog(op: Op) {
    op.LoseNode? ==> forall c :: Holds(op.disk, c) ==> !IsCatalog(c)
  }

  /** One catalog for each version, known from the start or from a collection that completed. */
  ghost predicate SingleAt(master: Key, moments: seq<Moment>, ops: seq<Op>, oks: seq<bool>, j: nat)
    requires |moments| == |ops| + 1 == |oks| + 1 && j <= |ops|
  {
    (j == 0 && Single(master, moments[0])) || (j > 0 && ops[j - 1].Collect? && oks[j - 1])
  }

  /** From moment `j` on no operation strands a catalog and no node brings one. */
  ghost predicate NoneStranded(moments: seq<Moment>, ops: seq<Op>, j: nat)
    requires |moments| == |ops| + 1
  {
    forall i :: j <= i < |ops| ==> BringsNoCatalog(ops[i]) && !Stranded(moments[i], moments[i + 1])
  }

  lemma {:induction false} LostSingle(s: Secrets, before: Moment, after: Moment, op: Op, ok: bool)
    requires op.LoseNode? && OpStep(s, before, after, op, ok) && BringsNoCatalog(op) && Single(s.master, before)
    ensures Single(s.master, after)
  {
    forall c | Found(after.nodes, c) && IsCatalog(c) ensures Found(before.nodes, c) {
      var j :| 0 <= j < |after.nodes| && Holds(after.nodes[j], c);
      assert j != op.node && Holds(before.nodes[j], c);
    }
  }

  /** One catalog for each version lasts from any such moment for as long as none is stranded. */
  lemma {:induction false} TrailSingle(s: Secrets, moments: seq<Moment>, ops: seq<Op>, oks: seq<bool>, j: nat, n: nat)
    requires Trail(s, moments, ops, oks) && j <= n <= |ops|
    requires SingleAt(s.master, moments, ops, oks, j) && NoneStranded(moments, ops, j)
    ensures Single(s.master, moments[n])
    decreases n
  {
    hide Sound, Single, Attempted, Stranded, BringsNoCatalog;
    if n == j {
      assert j > 0 ==> OpStep(s, moments[j - 1], moments[j], ops[j - 1], oks[j - 1]);
    } else {
      TrailSingle(s, moments, ops, oks, j, n - 1);
      assert OpStep(s, moments[n - 1], moments[n], ops[n - 1], oks[n - 1]);
      assert BringsNoCatalog(ops[n - 1]) && !Stranded(moments[n - 1], moments[n]);
      match ops[n - 1] {
        case LoseNode(_, _) => LostSingle(s, moments[n - 1], moments[n], ops[n - 1], oks[n - 1]);
        case Collect(_, _, _) => AttemptedSingleIff(s, moments[n - 1], moments[n], moments[n - 1].files);
        case _ => AttemptedSingleIff(s, moments[n - 1], moments[n], Effect(moments[n - 1].files, ops[n - 1]));
      }
    }
  }

  // ---------- whatever was stranded ----------

  /**
    Every catalog any of these moments had on its nodes, and every pointer saved or issued by the
    last, is known with a file map it stands for.
   */
  ghost predicate Accounted(s: Secrets, moments: seq<Moment>, known: map<Pointer, FileMap>) {
    && |moments| > 0
    && (forall p :: p in known ==> HeadSound(s, p, known[p], moments[|moments| - 1].horizon))
    && (forall k, c :: 0 <= k < |moments| && Found(moments[k].nodes, c) && IsCatalog(c) ==>
          exists p :: p in known && p.catalogCid == c)
    && (forall p :: p in moments[|moments| - 1].issued || Some(p) == moments[|moments| - 1].state ==> p in known)
  }

  /** The file map at some moment, or what some operation would have made of it. */
  ghost predicate Reached(moments: seq<Moment>, ops: seq<Op>, files: FileMap)
    requires |moments| == |ops| + 1
  {
    || (exists i :: 0 <= i < |moments| && files == moments[i].files)
    || (exists i :: 0 <= i < |ops| && files == Effect(moments[i].files, ops[i]))
  }

  /** A lost node comes back with no catalog but those some moment before had on its nodes. */
  ghost predicate BringsBack(moments: seq<Moment>, op: Op) {
    op.LoseNode? ==>
      forall c :: Holds(op.disk, c) && IsCatalog(c) ==> exists k :: 0 <= k < |moments| && Found(moments[k].nodes, c)
  }

  /** A vault just created is accounted for by its one catalog. */
  lemma {:induction false} CreatedAccounted(s: Secrets, m: Moment)
    requires Sound(s, m) && Single(s.master, m)
    requires Chain(s.master, m.state.value) == Some([m.state.value.catalogCid]) && m.issued <= {m.state.value}
    ensures Accounted(s, [m], map[m.state.value := m.files])
  {
  }

  /** With nothing new written, what was known is enough. */
  lemma {:induction false} SameAccounted(s: Secrets, moments: seq<Moment>, m: Moment, known: map<Pointer, FileMap>)
    requires Accounted(s, moments, known)
    requires var last := moments[|moments| - 1];
             && last.horizon <= m.horizon && m.state == last.state
             && (forall p :: p in m.issued ==> p in last.issued || Some(p) == m.state)
    requires forall c :: Found(m.nodes, c) && IsCatalog(c) ==> exists k :: 0 <= k < |moments| && Found(moments[k].nodes, c)
    ensures Accounted(s, moments + [m], known)
  {
    hide HeadSound, Found;
    forall p | p in known ensures HeadSound(s, p, known[p], m.horizon) {
      HeadSoundLater(s, p, known[p], moments[|moments| - 1].horizon, m.horizon);
    }
  }

  /** With one catalog written, knowing it too is enough. */
  lemma {:induction false} SealedAccounted(s: Secrets, moments: seq<Moment>, m: Moment, known: map<Pointer, FileMap>,
          files: FileMap, q: Pointer)
    requires Accounted(s, moments, known) && SealedNext(s, moments[|moments| - 1], m, files, q)
    requires var last := moments[|moments| - 1];
             last.horizon <= m.horizon && forall p :: p in m.issued ==> p in last.issued || Some(p) == m.state
    ensures Accounted(s, moments + [m], if q in known then known else known[q := files])
  {
    hide HeadSound, Found, LiveFound, Previous;
    var known' := if q in known then known else known[q := files];
    assert q in known';
    forall p | p in known' ensures HeadSound(s, p, known'[p], m.horizon) {
      if p in known {
        HeadSoundLater(s, p, known[p], moments[|moments| - 1].horizon, m.horizon);
      }
    }
    forall k, c | 0 <= k <= |moments| && Found((moments + [m])[k].nodes, c) && IsCatalog(c)
      ensures exists p :: p in known' && p.catalogCid == c
    {
      if c != q.catalogCid {
        var j := if k < |moments| then k else |moments| - 1;
        assert Found(moments[j].nodes, c);
        var p :| p in known && p.catalogCid == c;
        assert p in known';
      }
    }
  }

  lemma {:induction false} StepAccounted(s: Secrets, moments: seq<Moment>, m: Moment, op: Op, ok: bool,
          known: map<Pointer, FileMap>)
    returns (known': map<Pointer, FileMap>)
    requires |moments| > 0 && Accounted(s, moments, known)
    requires OpStep(s, moments[|moments| - 1], m, op, ok) && BringsBack(moments, op)
    ensures Accounted(s, moments + [m], known')
    ensures var last := moments[|moments| - 1];
            forall p :: p in known' ==>
              || (p in known && known'[p] == known[p])
              || known'[p] == last.files || known'[p] == Effect(last.files, op)
  {
    hide Accounted, SealedNext, Found, Single;
    var last := moments[|moments| - 1];
    var files := if op.Collect? then last.files else Effect(last.files, op);
    known' := known;
    if op.LoseNode? {
      LostNodeShows(moments, m, op);
      SameAccounted(s, moments, m, known);
    } else if m.state == last.state && NoNewCatalogs(last.nodes, m.nodes) {
      SameAccounted(s, moments, m, known);
    } else {
      var q :| SealedNext(s, last, m, files, q);
      SealedAccounted(s, moments, m, known, files, q);
      known' := if q in known then known else known[q := files];
    }
  }

  lemma {:induction false} LostNodeShows(moments: seq<Moment>, m: Moment, op: Op)
    requires |moments| > 0 && op.LoseNode? && BringsBack(moments, op)
    requires op.node < |moments[|moments| - 1].nodes| && m.nodes == moments[|moments| - 1].nodes[op.node := op.disk]
    ensures forall c :: Found(m.nodes, c) && IsCatalog(c) ==> exists k :: 0 <= k < |moments| && Found(moments[k].nodes, c)
  {
    var last := |moments| - 1;
    forall c | Found(m.nodes, c) && IsCatalog(c) ensures exists k :: 0 <= k < |moments| && Found(moments[k].nodes, c) {
      var j :| 0 <= j < |m.nodes| && Holds(m.nodes[j], c);
      if j != op.node {
        assert Holds(moments[last].nodes[j], c) && Found(moments[last].nodes, c);
      }
    }
  }

  /**
    Whatever failed, every catalog stands for a file map: one known at the start, or one that
    some operation of the run found or would have made.
   */
  lemma {:induction false} TrailAccounted(s: Secrets, moments: seq<Moment>, ops: seq<Op>, oks: seq<bool>, n: nat,
          known: map<Pointer, FileMap>)
    returns (known': map<Pointer, FileMap>)
    requires Trail(s, moments, ops, oks) && n <= |ops|
    requires Accounted(s, [moments[0]], known)
    requires forall i :: 0 <= i < |ops| ==> BringsBack(moments[..i + 1], ops[i])
    ensures Accounted(s, moments[..n + 1], known')
    ensures forall p :: p in known' ==> (p in known && known'[p] == known[p]) || Reached(moments, ops, known'[p])
  {
    hide Accounted, Sound, OpStep, BringsBack, Effect;
    if n == 0 {
      assert moments[..1] == [moments[0]];
      known' := known;
    } else {
      var earlier := TrailAccounted(s, moments, ops, oks, n - 1, known);
      assert moments[..n + 1] == moments[..n] + [moments[n]];
      assert OpStep(s, moments[n - 1], moments[n], ops[n - 1], oks[n - 1]) && BringsBack(moments[..n], ops[n - 1]);
      known' := StepAccounted(s, moments[..n], moments[n], ops[n - 1], oks[n - 1], earlier);
    }
  }

  /** The walk ends where it starts or at a kept candidate. */
  lemma {:induction false} WalkEndsAtCandidate(master: Key, kit: Pointer, scanned: seq<Cid>, at: Pointer)
    requires at == kit || (at.catalogCid in scanned && at == At(kit, at.catalogCid, at.catalogVersion) &&
               CandidateVersion(master, kit, at.catalogCid) == Some(at.catalogVersion))
    ensures var end := Walk(master, kit, scanned, at);
            end == kit || (end.catalogCid in scanned && end == At(kit, end.catalogCid, end.catalogVersion) &&
              CandidateVersion(master, kit, end.catalogCid) == Some(end.catalogVersion))
    decreases kit.catalogVersion + DISCOVERY_WINDOW + 1 - at.catalogVersion
  {
    hide CandidateVersion, HeadCatalog, Candidate;
    if at.catalogVersion <= kit.catalogVersion + DISCOVERY_WINDOW && LinksOnto(master, kit, scanned, at) {
      CandidateSpec(master, kit, scanned, at.catalogVersion + 1);
      WalkEndsAtCandidate(master, kit, scanned,
                          At(kit, Candidate(master, kit, scanned, at.catalogVersion + 1).value, at.catalogVersion + 1));
    }
  }

  /** So from any kit discovery ends at a head that stands for a file map that is known. */
  lemma {:induction false} AccountedWalk(s: Secrets, moments: seq<Moment>, known: map<Pointer, FileMap>, kit: Pointer,
          sources: seq<Source>)
    requires Accounted(s, moments, known)
    requires var last := moments[|moments| - 1]; kit in last.issued && Disks(sources) == last.nodes
    requires Opened(sources)
    ensures var head := Walk(s.master, kit, Scanned(sources), kit);
            head in known && HeadSound(s, head, known[head], moments[|moments| - 1].horizon)
  {
    hide Walk, Scanned, Chain, Found;
    var head := Walk(s.master, kit, Scanned(sources), kit);
    ScannedIsFound(sources);
    WalkEndsAtCandidate(s.master, kit, Scanned(sources), kit);
    if head != kit {
      assert Found(moments[|moments| - 1].nodes, head.catalogCid) && IsCatalog(head.catalogCid);
      var p :| p in known && p.catalogCid == head.catalogCid;
      HeadOpens(s, p, known[p], moments[|moments| - 1].horizon);
      HeadOpens(s, kit, known[kit], moments[|moments| - 1].horizon);
      assert p == head;
    }
  }

  lemma {:induction false} HeadOpens(s: Secrets, p: Pointer, files: FileMap, horizon: int)
    requires HeadSound(s, p, files, horizon)
    ensures HeadCatalog(s.master, p).Some? && p.owner == PublicKey(s.seed)
  {
  }

  /**
    Over every run, whatever failed, discovery from any kit ends at a head that stands for a file
    map known before the run or reached in it: never for anything else.
   */
  lemma {:induction false} TrailWalk(s: Secrets, moments: seq<Moment>, ops: seq<Op>, oks: seq<bool>,
          known: map<Pointer, FileMap>, kit: Pointer, sources: seq<Source>)
    returns (files: FileMap)
    requires Trail(s, moments, ops, oks) && Accounted(s, [moments[0]], known)
    requires forall i :: 0 <= i < |ops| ==> BringsBack(moments[..i + 1], ops[i])
    requires kit in moments[|ops|].issued && Opened(sources) && Disks(sources) == moments[|ops|].nodes
    ensures var head := Walk(s.master, kit, Scanned(sources), kit);
            && HeadSound(s, head, files, moments[|ops|].horizon)
            && ((head in known && files == known[head]) || Reached(moments, ops, files))
  {
    hide Accounted, Sound, OpStep, BringsBack, HeadSound, Walk, Scanned, Reached;
    var after := TrailAccounted(s, moments, ops, oks, |ops|, known);
    assert moments[..|ops| + 1] == moments;
    AccountedWalk(s, moments, after, kit, sources);
    files := after[Walk(s.master, kit, Scanned(sources), kit)];
  }

  // ---------- a commit made again ----------

  /**
    A commit that stranded `q` and was then made again as `h`: recovery from the kit before both
    ends at whichever was scanned last, and `q` still stands for what the first attempt would
    have made. So a file whose add reported success can be missing from what is recovered.
   */
  lemma {:induction false} RetriedCommit(s: Secrets, m0: Moment, m1: Moment, m2: Moment, lost: FileMap, saved: FileMap,
          q: Pointer, h: Pointer, sources: seq<Source>)
    requires Sound(s, m0) && Single(s.master, m0) && m1.horizon <= m2.horizon
    requires SealedNext(s, m0, m1, lost, q) && m1.state == m0.state
    requires SealedNext(s, m1, m2, saved, h) && m2.state == Some(h) && Sound(s, m2) && h != q
    requires Found(m2.nodes, q.catalogCid) && Opened(sources) && Disks(sources) == m2.nodes
    ensures var kit := m0.state.value;
            var last := ScannedLast(Scanned(sources), h.catalogCid, q.catalogCid);
            Walk(s.master, kit, Scanned(sources), kit) == if last == h.catalogCid then h else q
    ensures HeadSound(s, q, lost, m2.horizon) && HeadSound(s, h, saved, m2.horizon)
  {
    var kit := m0.state.value;
    HeadSoundLater(s, q, lost, m1.horizon, m2.horizon);
    ScannedIsFound(sources);
    ChainIsFound(s, m2);
    forall c | Found(m2.nodes, c) && CandidateVersion(s.master, kit, c).Some?
      ensures c == h.catalogCid || c == q.catalogCid
    {
      assert IsCatalog(c);
      if c in Chain(s.master, kit).value {
        ChainIsAncestors(s.master, kit, c);
      }
    }
    LastRivalWins(s.master, kit, Scanned(sources), h, q);
  }
}
