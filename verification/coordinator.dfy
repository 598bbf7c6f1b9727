/**
  The coordinator: HTTP handlers that read a row, read the head of the audit chain, and then
  commit one atomic batch guarded by unique keys or by a compare-and-set `WHERE`.

  Any number of handlers run at once. Each of a handler's three database visits is a step of
  its own, so a schedule of steps is an interleaving.
 */
module Coordinator {
  import opened Wrappers
  import opened ByteStrings
  import opened MachineIntegers
  import opened Identity
  import opened Text
  import opened Merkle
  import opened Audit
  import opened Canonical
  import Credit

  // ---------- tables ----------

  datatype PointerRow = PointerRow(
    communityId: Bytes,
    ownerMemberId: Bytes,
    catalogCid: Bytes,
    version: nat,
    previousCid: Option<Bytes>,
    signedAt: I64,
    ownerSignature: Signature<Bytes>)

  datatype TaskKind = AuditObject | RepairObject | OtherKind

  datatype TaskStatus = Pending | Accepted | Completed | Failed

  /** A task, with the size its object has in the objects table. */
  datatype TaskRow = TaskRow(
    nodeId: Bytes,
    kind: TaskKind,
    objectCid: Option<Bytes>,
    ciphertextSize: Option<nat>,
    status: TaskStatus,
    expiresAt: I64)

  datatype NodeRow = NodeRow(communityId: Bytes, ownerMemberId: Bytes, certificateIssuedAt: I64, certificateExpiresAt: I64)

  datatype ProposalRow = ProposalRow(communityId: Bytes, opensAt: I64, closesAt: I64)

  datatype CreditRow = CreditRow(memberId: Bytes, milliGibHour: nat, occurredAt: I64, expiresAt: int)

  datatype VoteRow = VoteRow(choice: Choice, castAt: I64, signature: Signature<Bytes>)

  datatype Choice = Yes | No | Abstain

  datatype AuditRow = AuditRow(communityId: Bytes, event: AuditEvent)

  /** `events` is in order of insertion; credits are keyed by the node task that earned them. */
  datatype Db = Db(
    nodes: map<Bytes, NodeRow>,
    proposals: map<Bytes, ProposalRow>,
    pointers: map<Bytes, PointerRow>,
    tasks: map<Bytes, TaskRow>,
    votes: map<(Bytes, Bytes), VoteRow>,
    credits: map<Bytes, CreditRow>,
    placements: map<(Bytes, Bytes), string>,
    events: seq<AuditRow>)

  // ---------- statements ----------

  datatype Statement =
    | InsertPointer(vaultId: Bytes, row: PointerRow)
    | UpdatePointer(vaultId: Bytes, expected: PointerRow, row: PointerRow)
    | UpdateTask(taskId: Bytes, memberId: Bytes, communityId: Bytes, required: TaskStatus, status: TaskStatus)
    | InsertCredit(taskId: Bytes, credit: CreditRow)
    | UpsertPlacement(objectCid: Bytes, nodeId: Bytes)
    | InsertVote(proposalId: Bytes, memberId: Bytes, vote: VoteRow)
    | InsertAudit(audit: AuditRow)

  /** The row the `WHERE` of an update of a pointer looks for. */
  predicate AsRead(row: PointerRow, expected: PointerRow) {
    && row.communityId == expected.communityId && row.ownerMemberId == expected.ownerMemberId
    && row.catalogCid == expected.catalogCid && row.version == expected.version
  }

  predicate Owns(db: Db, nodeId: Bytes, memberId: Bytes, communityId: Bytes) {
    nodeId in db.nodes && db.nodes[nodeId].ownerMemberId == memberId && db.nodes[nodeId].communityId == communityId
  }

  predicate Clash(a: AuditRow, b: AuditRow) {
    (a.communityId == b.communityId && a.event.sequence == b.event.sequence) || a.event.eventHash == b.event.eventHash
  }

  /** A row with this community and sequence, or with this hash, is already there. */
  predicate Clashes(events: seq<AuditRow>, row: AuditRow) {
    exists i :: 0 <= i < |events| && Clash(events[i], row)
  }

  /** The table after a statement and how many rows it changed, unless it breaks a constraint. */
  function Exec(db: Db, s: Statement): Option<(Db, nat)> {
    match s
    case InsertPointer(v, row) =>
      if v in db.pointers then None else Some((db.(pointers := db.pointers[v := row]), 1))
    case UpdatePointer(v, expected, row) =>
      if v in db.pointers && AsRead(db.pointers[v], expected) then Some((db.(pointers := db.pointers[v := row]), 1)) else Some((db, 0))
    case UpdateTask(t, memberId, communityId, required, status) =>
      if t in db.tasks && Owns(db, db.tasks[t].nodeId, memberId, communityId) && db.tasks[t].status == required then
        Some((db.(tasks := db.tasks[t := db.tasks[t].(status := status)]), 1))
      else Some((db, 0))
    case InsertCredit(t, credit) =>
      if t in db.credits then Some((db, 0)) else Some((db.(credits := db.credits[t := credit]), 1))
    case UpsertPlacement(c, n) => Some((db.(placements := db.placements[(c, n) := "healthy"]), 1))
    case InsertVote(p, m, vote) =>
      if (p, m) in db.votes then None else Some((db.(votes := db.votes[(p, m) := vote]), 1))
    case InsertAudit(row) =>
      if Clashes(db.events, row) then None else Some((db.(events := db.events + [row]), 1))
  }

  /** A batch takes effect as a whole or not at all. */
  function ExecAll(db: Db, batch: seq<Statement>): Option<(Db, seq<nat>)> {
    if |batch| == 0 then Some((db, []))
    else
      match ExecAll(db, batch[..|batch| - 1])
      case None => None
      case Some((mid, changes)) =>
        match Exec(mid, batch[|batch| - 1])
        case None => None
        case Some((after, n)) => Some((after, changes + [n]))
  }

  /** The keys of the events table: one event for each sequence of a community, and one for each hash. */
  lemma {:induction false} InsertAuditIff(db: Db, row: AuditRow)
    ensures Exec(db, InsertAudit(row)).Some? <==>
              forall other :: other in db.events ==>
                && !(other.communityId == row.communityId && other.event.sequence == row.event.sequence)
                && other.event.eventHash != row.event.eventHash
  {
    if Clashes(db.events, row) {
      var i :| 0 <= i < |db.events| && Clash(db.events[i], row);
      assert db.events[i] in db.events;
    }
  }

  // ---------- requests ----------

  datatype Principal = Principal(memberId: Bytes, communityId: Bytes, publicKey: Bytes)

  datatype Action = Accept | Complete | Fail

  datatype Request =
    | PutPointer(
        who: Principal, vaultId: Bytes, catalogCid: Bytes, version: nat, previousCid: Option<Bytes>,
        signedAt: I64, signature: Signature<Bytes>)
    | MoveTask(who: Principal, taskId: Bytes, action: Action, proofOk: bool, at: I64)
    | CastVote(who: Principal, proposalId: Bytes, choice: Choice, signedAt: I64, signature: Signature<Bytes>, at: I64)
    | AppendOnly(communityId: Bytes, kind: Bytes, actorId: Bytes, subjectId: Bytes, at: I64, attempts: nat)

  /** What a handler's first read gave it. */
  datatype Seen = SeenPointer(previous: Option<PointerRow>) | SeenTask(task: TaskRow) | SeenNothing

  function PointerMessage(vaultId: Bytes, row: PointerRow): Bytes {
    Joined([
      Ascii("acm.catalog-pointer.v1"), vaultId, row.catalogCid, Decimal(row.version),
      if row.previousCid.Some? then row.previousCid.value else [], Decimal(row.signedAt) ])
  }

  function PointerOf(r: Request): PointerRow
    requires r.PutPointer?
  {
    PointerRow(r.who.communityId, r.who.memberId, r.catalogCid, r.version, r.previousCid, r.signedAt, r.signature)
  }

  function VoteMessage(r: Request): Bytes
    requires r.CastVote?
  {
    var choice := match r.choice case Yes => Ascii("Yes") case No => Ascii("No") case Abstain => Ascii("Abstain");
    Joined([Ascii("acm.vote.v1"), r.proposalId, r.who.memberId, choice, Decimal(r.signedAt)])
  }

  /** Neither a rollback nor a fork of what was read. */
  predicate Follows(r: Request, previous: Option<PointerRow>)
    requires r.PutPointer?
  {
    match previous
    case None => r.version == 1 && r.previousCid.None?
    case Some(row) =>
      row.ownerMemberId == r.who.memberId && r.version == row.version + 1 && r.previousCid == Some(row.catalogCid)
  }

  function Required(a: Action): TaskStatus {
    if a.Accept? then Pending else Accepted
  }

  function Target(a: Action): TaskStatus {
    match a case Accept => Accepted case Complete => Completed case Fail => Failed
  }

  predicate TaskReady(db: Db, r: Request)
    requires r.MoveTask?
  {
    && r.taskId in db.tasks
    && var t := db.tasks[r.taskId];
       && Owns(db, t.nodeId, r.who.memberId, r.who.communityId)
       && t.expiresAt >= r.at
       && db.nodes[t.nodeId].certificateIssuedAt <= r.at < db.nodes[t.nodeId].certificateExpiresAt
       && t.status == Required(r.action)
       && (r.action.Complete? ==> r.proofOk && t.objectCid.Some?)
  }

  /** How often an append-only writer tries; handlers whose batch holds more than an event try once. */
  const APPEND_ATTEMPTS: nat := 8

  /** The first read, and every check before the batch is prepared; `None` is a refusal. */
  function Observe(db: Db, r: Request): Option<Seen> {
    match r
    case PutPointer(who, vaultId, _, _, _, _, signature) =>
      var previous := if vaultId in db.pointers then Some(db.pointers[vaultId]) else None;
      if Verifies(PublicKey(who.publicKey), PointerMessage(r.vaultId, PointerOf(r)), signature) && Follows(r, previous)
      then Some(SeenPointer(previous))
      else None
    case MoveTask(_, taskId, _, _, _) =>
      if TaskReady(db, r) then Some(SeenTask(db.tasks[taskId])) else None
    case CastVote(who, proposalId, _, _, signature, at) =>
      if && Verifies(PublicKey(who.publicKey), VoteMessage(r), signature)
         && proposalId in db.proposals && db.proposals[proposalId].communityId == who.communityId
         && db.proposals[proposalId].opensAt <= at <= db.proposals[proposalId].closesAt
      then Some(SeenNothing) else None
    case AppendOnly(_, _, _, _, _, attempts) => if 1 <= attempts <= APPEND_ATTEMPTS then Some(SeenNothing) else None
  }

  /** Six hours of the object's storage, rounded up, and at least one unit. */
  function Earned(size: nat): nat {
    var units := Credit.DivCeil(size * 6 * 1000, 1024 * 1024 * 1024);
    if units < 1 then 1 else units
  }

  /** The statements of the batch, but for the audit event. */
  function Body(r: Request, seen: Seen): seq<Statement> {
    match (r, seen)
    case (PutPointer(who, vaultId, _, _, _, _, _), SeenPointer(None)) => [InsertPointer(vaultId, PointerOf(r))]
    case (PutPointer(who, vaultId, _, _, _, _, _), SeenPointer(Some(row))) =>
      [UpdatePointer(vaultId, row.(communityId := who.communityId, ownerMemberId := who.memberId), PointerOf(r))]
    case (MoveTask(who, taskId, action, _, at), SeenTask(t)) =>
      [UpdateTask(taskId, who.memberId, who.communityId, Required(action), Target(action))]
      + (if action.Complete? && t.kind.AuditObject? && t.ciphertextSize.Some?
         then [InsertCredit(taskId, CreditRow(who.memberId, Earned(t.ciphertextSize.value), at, at + 90 * 86400))] else [])
      + (if action.Complete? && t.kind.RepairObject? && t.objectCid.Some? then [UpsertPlacement(t.objectCid.value, t.nodeId)] else [])
    case (CastVote(who, proposalId, choice, _, signature, at), _) => [InsertVote(proposalId, who.memberId, VoteRow(choice, at, signature))]
    case _ => []
  }

  // ---------- the audit head ----------

  /** The event a batch appends, if any: its community, kind, actor, subject and time. */
  function AuditInput(r: Request, seen: Seen): Option<(Bytes, Bytes, Bytes, Bytes, I64)> {
    match r
    case PutPointer(who, vaultId, _, _, _, signedAt, _) =>
      Some((who.communityId, Ascii("catalog_pointer_updated"), who.memberId, vaultId, signedAt))
    case MoveTask(who, taskId, action, _, at) =>
      if action.Accept? || !seen.SeenTask? then None
      else
        var kind :=
          if seen.task.kind.AuditObject? then (if action.Complete? then Ascii("audit_succeeded") else Ascii("audit_failed"))
          else (if action.Complete? then Ascii("repair_completed") else Ascii("repair_failed"));
        Some((who.communityId, kind, who.memberId, if seen.task.objectCid.Some? then seen.task.objectCid.value else taskId, at))
    case CastVote(who, proposalId, _, _, _, at) => Some((who.communityId, Ascii("vote_cast"), who.memberId, proposalId, at))
    case AppendOnly(communityId, kind, actorId, subjectId, at, _) => Some((communityId, kind, actorId, subjectId, at))
  }

  /** The row of a community with the greatest sequence. */
  function HeadOf(events: seq<AuditRow>, communityId: Bytes): Option<AuditEvent> {
    if |events| == 0 then None
    else
      var row := events[|events| - 1];
      match HeadOf(events[..|events| - 1], communityId)
      case None => if row.communityId == communityId then Some(row.event) else None
      case Some(best) => if row.communityId == communityId && row.event.sequence > best.sequence then Some(row.event) else Some(best)
  }

  function AuditFor(hash: Hash, r: Request, seen: Seen, head: Option<AuditEvent>): Option<AuditRow> {
    match AuditInput(r, seen)
    case None => None
    case Some((communityId, kind, actor, subject, at)) => Some(AuditRow(communityId, Append(hash, head, at, kind, actor, subject)))
  }

  function BatchFor(hash: Hash, r: Request, seen: Seen, head: Option<AuditEvent>): seq<Statement> {
    match AuditFor(hash, r, seen, head)
    case None => Body(r, seen)
    case Some(row) => Body(r, seen) + [InsertAudit(row)]
  }

  // ---------- schedules ----------

  /** Where a handler is: past its first read, or past its read of the head as well. */
  datatype Writer =
    | Reading(request: Request, seen: Seen)
    | Ready(request: Request, seen: Seen, head: Option<AuditEvent>)

  datatype Commit = Commit(request: Request, seen: Seen, head: Option<AuditEvent>, changes: seq<nat>)

  datatype State = State(db: Db, writers: map<nat, Writer>, log: seq<Commit>)

  datatype Step =
    | Start(writer: nat, request: Request)
    | ReadHead(writer: nat)
    | Finish(writer: nat)
    | Drop(writer: nat)
    | AddTask(taskId: Bytes, task: TaskRow)

  function CommitOf(w: Writer): Commit {
    match w
    case Reading(r, seen) => Commit(r, seen, None, [])
    case Ready(r, seen, head) => Commit(r, seen, head, [])
  }

  /** A handler with no event to append commits straight after its first read. */
  predicate CanFinish(w: Writer) {
    w.Ready? || AuditInput(w.request, w.seen).None?
  }

  /** After a conflict an append-only writer reads the head again while it has attempts left. */
  function Retry(r: Request, seen: Seen): Option<Writer> {
    if r.AppendOnly? && r.attempts > 1 then Some(Reading(r.(attempts := r.attempts - 1), seen)) else None
  }

  function Next(hash: Hash, s: State, step: Step): State {
    match step
    case Start(w, r) =>
      if w in s.writers then s
      else
        (match Observe(s.db, r)
         case None => s
         case Some(seen) => s.(writers := s.writers[w := Reading(r, seen)]))
    case ReadHead(w) =>
      if w in s.writers && s.writers[w].Reading? && AuditInput(s.writers[w].request, s.writers[w].seen).Some? then
        var r, seen := s.writers[w].request, s.writers[w].seen;
        s.(writers := s.writers[w := Ready(r, seen, HeadOf(s.db.events, AuditInput(r, seen).value.0))])
      else s
    case Finish(w) =>
      if w in s.writers && CanFinish(s.writers[w]) then
        var c := CommitOf(s.writers[w]);
        match ExecAll(s.db, BatchFor(hash, c.request, c.seen, c.head))
        case Some((after, changes)) => State(after, s.writers - {w}, s.log + [c.(changes := changes)])
        case None =>
          (match Retry(c.request, c.seen)
           case Some(again) => s.(writers := s.writers[w := again])
           case None => s.(writers := s.writers - {w}))
      else s
    case Drop(w) => s.(writers := s.writers - {w})
    case AddTask(t, task) =>
      s.(db := TaskAdded(s.db, t, task))
  }

  /** Maintenance inserts a pending task unless there is one of that name. */
  function TaskAdded(db: Db, taskId: Bytes, task: TaskRow): Db {
    if taskId in db.tasks then db else db.(tasks := db.tasks[taskId := task.(status := Pending)])
  }

  /** An empty coordinator: its members' nodes and proposals, and nothing else. */
  function Initial(nodes: map<Bytes, NodeRow>, proposals: map<Bytes, ProposalRow>): State {
    State(Db(nodes, proposals, map[], map[], map[], map[], map[], []), map[], [])
  }

  function After(hash: Hash, s: State, schedule: seq<Step>): State {
    if |schedule| == 0 then s
    else Next(hash, After(hash, s, schedule[..|schedule| - 1]), schedule[|schedule| - 1])
  }

  /** After a conflict an append-only writer with more than one attempt left starts over with one fewer; any other gives up. */
  lemma {:induction false} ConflictRetries(hash: Hash, s: State, w: nat)
    requires w in s.writers && CanFinish(s.writers[w])
    requires var c := CommitOf(s.writers[w]); ExecAll(s.db, BatchFor(hash, c.request, c.seen, c.head)).None?
    ensures var r, t := s.writers[w].request, Next(hash, s, Finish(w));
            && t.db == s.db && t.log == s.log
            && t.writers == if r.AppendOnly? && r.attempts >= 2
                            then s.writers[w := Reading(r.(attempts := r.attempts - 1), s.writers[w].seen)]
                            else s.writers - {w}
  {
    hide ExecAll, BatchFor;
  }

  // ---------- what a batch does ----------

  lemma {:induction false} ExecSnoc(db: Db, batch: seq<Statement>, s: Statement)
    ensures ExecAll(db, batch + [s]) ==
            match ExecAll(db, batch)
            case None => None
            case Some((mid, changes)) =>
              match Exec(mid, s)
              case None => None
              case Some((after, n)) => Some((after, changes + [n]))
  {
    assert (batch + [s])[..|batch|] == batch;
  }

  /** The batch's own effect, before its audit event: the new tables and the changes of its first statement. */
  function Effect(db: Db, r: Request, seen: Seen): Option<(Db, seq<nat>)> {
    ExecAll(db, Body(r, seen))
  }

  /** A batch with an event commits exactly when its body does and the event clashes with none. */
  lemma {:induction false} BatchWithAudit(hash: Hash, db: Db, r: Request, seen: Seen, head: Option<AuditEvent>)
    requires AuditFor(hash, r, seen, head).Some?
    ensures var row := AuditFor(hash, r, seen, head).value;
            ExecAll(db, BatchFor(hash, r, seen, head)) ==
            match Effect(db, r, seen)
            case None => None
            case Some((mid, changes)) =>
              if Clashes(mid.events, row) then None else Some((mid.(events := mid.events + [row]), changes + [1]))
  {
    hide Body, ExecAll, AuditInput, Append, Clashes;
    ExecSnoc(db, Body(r, seen), InsertAudit(AuditFor(hash, r, seen, head).value));
  }

  lemma {:induction false} BodyKeepsEvents(db: Db, batch: seq<Statement>)
    requires forall s :: s in batch ==> !s.InsertAudit?
    ensures ExecAll(db, batch).Some? ==> ExecAll(db, batch).value.0.events == db.events
    decreases |batch|
  {
    if |batch| > 0 {
      BodyKeepsEvents(db, batch[..|batch| - 1]);
      assert batch[|batch| - 1] in batch;
    }
  }

  // ---------- the audit chains ----------

  /** One community's events, in order of insertion. */
  function ChainOf(events: seq<AuditRow>, communityId: Bytes): seq<AuditEvent> {
    if |events| == 0 then []
    else
      var row := events[|events| - 1];
      ChainOf(events[..|events| - 1], communityId) + if row.communityId == communityId then [row.event] else []
  }

  ghost predicate ChainsOk(hash: Hash, events: seq<AuditRow>) {
    forall c :: ChainOk(hash, ChainOf(events, c))
  }

  lemma {:induction false} ChainHolds(events: seq<AuditRow>, communityId: Bytes, i: nat)
    requires i < |ChainOf(events, communityId)|
    ensures exists k :: 0 <= k < |events| && events[k] == AuditRow(communityId, ChainOf(events, communityId)[i])
    decreases |events|
  {
    var front := ChainOf(events[..|events| - 1], communityId);
    if i < |front| {
      ChainHolds(events[..|events| - 1], communityId, i);
      var k :| 0 <= k < |events| - 1 && events[..|events| - 1][k] == AuditRow(communityId, front[i]);
      assert events[k] == AuditRow(communityId, front[i]);
    } else {
      assert events[|events| - 1] == AuditRow(communityId, ChainOf(events, communityId)[i]);
    }
  }

  /** In a table of chains the greatest sequence is the last event's. */
  lemma {:induction false} HeadIsLast(hash: Hash, events: seq<AuditRow>, communityId: Bytes)
    requires ChainOk(hash, ChainOf(events, communityId))
    ensures HeadOf(events, communityId) == Last(ChainOf(events, communityId))
    decreases |events|
  {
    if |events| > 0 {
      var front, row := events[..|events| - 1], events[|events| - 1];
      var chain := ChainOf(front, communityId);
      assert row.communityId == communityId ==> ChainOf(events, communityId)[..|chain|] == chain;
      ChainPrefix(hash, ChainOf(events, communityId), |chain|);
      assert ChainOf(events, communityId)[..|chain|] == chain;
      HeadIsLast(hash, front, communityId);
      if row.communityId == communityId {
        assert Linked(hash, ChainOf(events, communityId), |chain|);
        assert |chain| > 0 ==> Linked(hash, chain, |chain| - 1);
      }
    }
  }

  /** In any table the head is an event of its community, and none of that community has a greater sequence. */
  lemma {:induction false} HeadIsGreatest(events: seq<AuditRow>, communityId: Bytes)
    ensures HeadOf(events, communityId).None? <==> forall row :: row in events ==> row.communityId != communityId
    ensures HeadOf(events, communityId).Some? ==>
              && AuditRow(communityId, HeadOf(events, communityId).value) in events
              && forall row :: row in events && row.communityId == communityId ==>
                   row.event.sequence <= HeadOf(events, communityId).value.sequence
    decreases |events|
  {
    if |events| > 0 {
      var front, row := events[..|events| - 1], events[|events| - 1];
      HeadIsGreatest(front, communityId);
      assert forall r :: r in events <==> r in front || r == row;
      assert row == AuditRow(row.communityId, row.event);
    }
  }

  /** A head read at any time is still in the table: the events of its chain only grow. */
  ghost predicate HeadStands(events: seq<AuditRow>, communityId: Bytes, head: Option<AuditEvent>) {
    head.Some? ==> head.value in ChainOf(events, communityId)
  }

  lemma {:induction false} SequenceTaken(hash: Hash, events: seq<AuditRow>, communityId: Bytes, row: AuditRow)
    requires ChainOk(hash, ChainOf(events, communityId))
    requires row.communityId == communityId && row.event.sequence < |ChainOf(events, communityId)|
    ensures Clashes(events, row)
  {
    var chain, n := ChainOf(events, communityId), row.event.sequence;
    assert Linked(hash, chain, n);
    ChainHolds(events, communityId, n);
    var k :| 0 <= k < |events| && events[k] == AuditRow(communityId, chain[n]);
    assert Clash(events[k], row);
  }

  /** An event appended after a head that still stands either clashes or continues the chain. */
  lemma {:induction false} AppendContinues(hash: Hash, events: seq<AuditRow>, communityId: Bytes, head: Option<AuditEvent>,
                                           at: I64, kind: Bytes, actor: Bytes, subject: Bytes)
    requires ChainsOk(hash, events) && HeadStands(events, communityId, head)
    requires !Clashes(events, AuditRow(communityId, Append(hash, head, at, kind, actor, subject)))
    ensures ChainsOk(hash, events + [AuditRow(communityId, Append(hash, head, at, kind, actor, subject))])
    ensures head == Last(ChainOf(events, communityId))
  {
    hide Append, ChainOf;
    StandingHeadIsEnd(hash, events, communityId, head, at, kind, actor, subject);
    AppendedChains(hash, events, communityId, at, kind, actor, subject);
  }

  /** A standing head after which an event does not clash is the end of its chain. */
  lemma {:induction false} StandingHeadIsEnd(hash: Hash, events: seq<AuditRow>, communityId: Bytes,
          head: Option<AuditEvent>, at: I64, kind: Bytes, actor: Bytes, subject: Bytes)
    requires ChainOk(hash, ChainOf(events, communityId)) && HeadStands(events, communityId, head)
    requires !Clashes(events, AuditRow(communityId, Append(hash, head, at, kind, actor, subject)))
    ensures head == Last(ChainOf(events, communityId))
  {
    hide ChainOf, Clashes, ChainOk;
    var chain := ChainOf(events, communityId);
    var row := AuditRow(communityId, Append(hash, head, at, kind, actor, subject));
    if row.event.sequence < |chain| {
      SequenceTaken(hash, events, communityId, row);
    }
    if head.Some? {
      var i :| 0 <= i < |chain| && chain[i] == head.value;
      LinkedAt(hash, chain, i);
    }
  }

  lemma {:induction false} LinkedAt(hash: Hash, chain: seq<AuditEvent>, i: nat)
    requires ChainOk(hash, chain) && i < |chain|
    ensures chain[i].sequence == i
  {
    assert Linked(hash, chain, i);
  }

  lemma {:induction false} AppendedChains(hash: Hash, events: seq<AuditRow>, communityId: Bytes, at: I64, kind: Bytes,
          actor: Bytes, subject: Bytes)
    requires ChainsOk(hash, events)
    ensures var row := AuditRow(communityId, Append(hash, Last(ChainOf(events, communityId)), at, kind, actor, subject));
            ChainsOk(hash, events + [row])
  {
    hide ChainOk, Append;
    var chain := ChainOf(events, communityId);
    var row := AuditRow(communityId, Append(hash, Last(chain), at, kind, actor, subject));
    assert (events + [row])[..|events|] == events;
    AppendKeepsChain(hash, chain, at, kind, actor, subject);
    forall c ensures ChainOk(hash, ChainOf(events + [row], c)) {
      assert ChainOk(hash, ChainOf(events, c));
      assert ChainOf(events + [row], c) == if c == communityId then chain + [row.event] else ChainOf(events, c);
    }
  }

  // ---------- what handlers may rely on ----------

  /** A request that passed its checks against what it saw. */
  predicate Admitted(r: Request, seen: Seen) {
    match r
    case PutPointer(who, _, _, _, _, _, signature) =>
      seen.SeenPointer? && Follows(r, seen.previous) && Verifies(PublicKey(who.publicKey), PointerMessage(r.vaultId, PointerOf(r)), signature)
    case MoveTask(_, _, action, _, _) =>
      seen.SeenTask? && seen.task.status == Required(action) && (action.Complete? ==> seen.task.objectCid.Some?)
    case CastVote(who, _, _, _, signature, _) => Verifies(PublicKey(who.publicKey), VoteMessage(r), signature)
    case AppendOnly(_, _, _, _, _, attempts) => 1 <= attempts <= APPEND_ATTEMPTS
  }

  /** A task that was read is still there and still its owner's; once accepted it is never pending again. */
  predicate TaskStands(db: Db, r: Request, seen: Seen) {
    r.MoveTask? && seen.SeenTask? ==>
      && r.taskId in db.tasks
      && db.tasks[r.taskId] == seen.task.(status := db.tasks[r.taskId].status)
      && Owns(db, seen.task.nodeId, r.who.memberId, r.who.communityId)
      && (seen.task.status.Accepted? ==> !db.tasks[r.taskId].status.Pending?)
  }

  ghost predicate WriterOk(db: Db, w: Writer) {
    && Admitted(w.request, w.seen)
    && TaskStands(db, w.request, w.seen)
    && (w.Ready? ==> AuditInput(w.request, w.seen).Some? && HeadStands(db.events, AuditInput(w.request, w.seen).value.0, w.head))
  }

  ghost predicate WritersOk(s: State) {
    forall w :: w in s.writers ==> WriterOk(s.db, s.writers[w])
  }

  /** What moving a task does to the tables. */
  function TaskEffect(db: Db, r: Request, t: TaskRow): Db
    requires r.MoveTask?
  {
    var moved := r.taskId in db.tasks && Owns(db, db.tasks[r.taskId].nodeId, r.who.memberId, r.who.communityId)
                 && db.tasks[r.taskId].status == Required(r.action);
    var credit := CreditRow(r.who.memberId, if t.ciphertextSize.Some? then Earned(t.ciphertextSize.value) else 0, r.at, r.at + 90 * 86400);
    db.(
      tasks := if moved then db.tasks[r.taskId := db.tasks[r.taskId].(status := Target(r.action))] else db.tasks,
      credits := if r.action.Complete? && t.kind.AuditObject? && t.ciphertextSize.Some? && r.taskId !in db.credits
                 then db.credits[r.taskId := credit] else db.credits,
      placements := if r.action.Complete? && t.kind.RepairObject? && t.objectCid.Some?
                    then db.placements[(t.objectCid.value, t.nodeId) := "healthy"] else db.placements)
  }

  lemma {:induction false} ExecOne(db: Db, s: Statement)
    ensures ExecAll(db, [s]) ==
            match Exec(db, s)
            case None => None
            case Some((after, n)) => Some((after, [n]))
  {
    ExecSnoc(db, [], s);
    assert [] + [s] == [s];
    if Exec(db, s).Some? {
      assert [] + [Exec(db, s).value.1] == [Exec(db, s).value.1];
    }
  }

  lemma {:induction false} TaskBody(db: Db, r: Request, t: TaskRow)
    requires r.MoveTask?
    ensures var e := Effect(db, r, SeenTask(t));
            && e.Some? && e.value.0 == TaskEffect(db, r, t) && |e.value.1| > 0
            && e.value.1[0] == if r.taskId in db.tasks && Owns(db, db.tasks[r.taskId].nodeId, r.who.memberId, r.who.communityId)
                                  && db.tasks[r.taskId].status == Required(r.action) then 1 else 0
  {
    hide Exec, ExecAll, Owns, Required, Target, Body, TaskEffect, Reward;
    TaskStatements(r, t);
    ExecOne(db, Move(r));
    MoveExec(db, r, t);
    if Rewarded(r, t) {
      ExecSnoc(db, [Move(r)], Reward(r, t));
      RewardExec(db, r, t);
    }
  }

  function Move(r: Request): Statement
    requires r.MoveTask?
  {
    UpdateTask(r.taskId, r.who.memberId, r.who.communityId, Required(r.action), Target(r.action))
  }

  predicate Rewarded(r: Request, t: TaskRow)
    requires r.MoveTask?
  {
    r.action.Complete? && ((t.kind.AuditObject? && t.ciphertextSize.Some?) || (t.kind.RepairObject? && t.objectCid.Some?))
  }

  lemma {:induction false} MoveExec(db: Db, r: Request, t: TaskRow)
    requires r.MoveTask?
    ensures Exec(db, Move(r)).Some?
    ensures Exec(db, Move(r)).value.1 ==
            if r.taskId in db.tasks && Owns(db, db.tasks[r.taskId].nodeId, r.who.memberId, r.who.communityId)
               && db.tasks[r.taskId].status == Required(r.action) then 1 else 0
    ensures !Rewarded(r, t) ==> Exec(db, Move(r)).value.0 == TaskEffect(db, r, t)
  {
    hide Earned, Owns, Required, Target;
  }

  lemma {:induction false} RewardExec(db: Db, r: Request, t: TaskRow)
    requires r.MoveTask? && Rewarded(r, t) && Exec(db, Move(r)).Some?
    ensures Exec(Exec(db, Move(r)).value.0, Reward(r, t)).Some?
    ensures Exec(Exec(db, Move(r)).value.0, Reward(r, t)).value.0 == TaskEffect(db, r, t)
  {
    hide Earned, Owns, Required, Target;
    var mid := Exec(db, Move(r)).value.0;
    if t.kind.AuditObject? {
      CreditExec(db, mid, r, t);
    } else {
      PlacementExec(db, mid, r, t);
    }
  }

  lemma {:induction false} CreditExec(db: Db, mid: Db, r: Request, t: TaskRow)
    requires r.MoveTask? && r.action.Complete? && t.kind.AuditObject? && t.ciphertextSize.Some?
    requires mid == db.(tasks := TaskEffect(db, r, t).tasks)
    ensures Exec(mid, Reward(r, t)).Some? && Exec(mid, Reward(r, t)).value.0 == TaskEffect(db, r, t)
  {
    hide Earned, Owns, Required, Target;
  }

  lemma {:induction false} PlacementExec(db: Db, mid: Db, r: Request, t: TaskRow)
    requires r.MoveTask? && r.action.Complete? && t.kind.RepairObject? && t.objectCid.Some?
    requires mid == db.(tasks := TaskEffect(db, r, t).tasks)
    ensures Exec(mid, Reward(r, t)).Some? && Exec(mid, Reward(r, t)).value.0 == TaskEffect(db, r, t)
  {
    hide Earned, Owns, Required, Target;
  }

  /** What completing a task adds: a credit for an audit, a placement for a repair. */
  function Reward(r: Request, t: TaskRow): Statement
    requires r.MoveTask?
  {
    if t.kind.AuditObject? && t.ciphertextSize.Some?
    then InsertCredit(r.taskId, CreditRow(r.who.memberId, Earned(t.ciphertextSize.value), r.at, r.at + 90 * 86400))
    else UpsertPlacement(if t.objectCid.Some? then t.objectCid.value else [], t.nodeId)
  }

  lemma {:induction false} TaskStatements(r: Request, t: TaskRow)
    requires r.MoveTask?
    ensures Body(r, SeenTask(t)) == if Rewarded(r, t) then [Move(r)] + [Reward(r, t)] else [Move(r)]
  {
    hide Earned, Required, Target;
  }

  lemma {:induction false} PointerBody(db: Db, r: Request, previous: Option<PointerRow>)
    requires r.PutPointer?
    ensures var e := Effect(db, r, SeenPointer(previous));
            e == if Fits(db, r, previous) then Some((db.(pointers := db.pointers[r.vaultId := PointerOf(r)]), [1]))
                 else if previous.None? then None
                 else Some((db, [0]))
  {
    ExecOne(db, Body(r, SeenPointer(previous))[0]);
  }

  /** The vault's row is still as it was read, and in the principal's own community. */
  predicate Fits(db: Db, r: Request, previous: Option<PointerRow>)
    requires r.PutPointer?
  {
    match previous
    case None => r.vaultId !in db.pointers
    case Some(row) =>
      r.vaultId in db.pointers && AsRead(db.pointers[r.vaultId], row.(communityId := r.who.communityId, ownerMemberId := r.who.memberId))
  }

  lemma {:induction false} VoteBody(db: Db, r: Request, seen: Seen)
    requires r.CastVote?
    ensures var key := (r.proposalId, r.who.memberId);
            Effect(db, r, seen) ==
            if key in db.votes then None else Some((db.(votes := db.votes[key := VoteRow(r.choice, r.at, r.signature)]), [1]))
  {
    ExecOne(db, Body(r, seen)[0]);
  }

  lemma {:induction false} BodiesKeepEvents(db: Db, r: Request, seen: Seen)
    ensures Effect(db, r, seen).Some? ==> Effect(db, r, seen).value.0.events == db.events
  {
    hide Earned;
    BodyKeepsEvents(db, Body(r, seen));
  }

  // ---------- a committed batch ----------

  /** What committing a writer's batch does: the tables after it and the changes it reports, or a conflict. */
  function Outcome(hash: Hash, db: Db, c: Commit): Option<(Db, seq<nat>)> {
    ExecAll(db, BatchFor(hash, c.request, c.seen, c.head))
  }

  lemma {:induction false} OutcomeIs(hash: Hash, db: Db, c: Commit)
    ensures var audit := AuditFor(hash, c.request, c.seen, c.head);
            match Effect(db, c.request, c.seen)
            case None => Outcome(hash, db, c).None?
            case Some((mid, changes)) =>
              Outcome(hash, db, c) ==
              if audit.None? then Some((mid, changes))
              else if Clashes(db.events, audit.value) then None
              else Some((mid.(events := db.events + [audit.value]), changes + [1]))
  {
    hide ExecAll, Body, AuditInput, Append, Clashes;
    BodiesKeepEvents(db, c.request, c.seen);
    if AuditFor(hash, c.request, c.seen, c.head).Some? {
      BatchWithAudit(hash, db, c.request, c.seen, c.head);
    }
  }

  // ---------- invariants of every interleaving: events and writers ----------

  /** The audit events of every committed batch, in order of commit. */
  function LoggedEvents(hash: Hash, log: seq<Commit>): seq<AuditRow> {
    if |log| == 0 then []
    else
      var c := log[|log| - 1];
      var audit := AuditFor(hash, c.request, c.seen, c.head);
      LoggedEvents(hash, log[..|log| - 1]) + if audit.Some? then [audit.value] else []
  }

  /** The batch a step commits, if it commits one. */
  function Committed(hash: Hash, s: State, step: Step): Option<Commit> {
    if step.Finish? && step.writer in s.writers && CanFinish(s.writers[step.writer]) then
      var c := CommitOf(s.writers[step.writer]);
      match Outcome(hash, s.db, c)
      case None => None
      case Some((_, changes)) => Some(c.(changes := changes))
    else None
  }

  lemma {:induction false} NextIs(hash: Hash, s: State, step: Step)
    ensures match Committed(hash, s, step)
            case Some(c) =>
              && Next(hash, s, step) == State(Outcome(hash, s.db, c).value.0, s.writers - {step.writer}, s.log + [c])
              && c.changes == Outcome(hash, s.db, c).value.1
              && step.writer in s.writers && CanFinish(s.writers[step.writer])
              && c == CommitOf(s.writers[step.writer]).(changes := c.changes)
            case None =>
              && Next(hash, s, step).log == s.log
              && (!step.AddTask? ==> Next(hash, s, step).db == s.db)
              && (step.AddTask? ==> Next(hash, s, step).db == TaskAdded(s.db, step.taskId, step.task))
  {
    hide ExecAll, BatchFor, Observe, AuditInput, HeadOf;
    if Committed(hash, s, step).Some? {
      var c := CommitOf(s.writers[step.writer]);
      assert Outcome(hash, s.db, c) == Outcome(hash, s.db, c.(changes := Committed(hash, s, step).value.changes));
    }
  }

  /** A batch that commits leaves every chain a chain, and its events are those of the log. */
  lemma {:induction false} CommitKeepsChains(hash: Hash, db: Db, w: Writer)
    requires ChainsOk(hash, db.events) && WriterOk(db, w) && CanFinish(w)
    ensures Outcome(hash, db, CommitOf(w)).Some? ==>
              var after, audit := Outcome(hash, db, CommitOf(w)).value.0, AuditFor(hash, w.request, w.seen, CommitOf(w).head);
              && ChainsOk(hash, after.events)
              && after.events == db.events + (if audit.Some? then [audit.value] else [])
  {
    hide ExecAll, Body, BatchFor, Append, ChainsOk, TaskStands, Admitted, HeadStands, Outcome, Clashes,
         AuditInput, Effect;
    var c := CommitOf(w);
    OutcomeIs(hash, db, c);
    BodiesKeepEvents(db, w.request, w.seen);
    if Outcome(hash, db, c).Some? && AuditFor(hash, w.request, w.seen, c.head).Some? {
      var (communityId, kind, actor, subject, at) := AuditInput(w.request, w.seen).value;
      AppendContinues(hash, db.events, communityId, w.head, at, kind, actor, subject);
    }
  }

  lemma {:induction false} ChainOfGrows(events: seq<AuditRow>, more: seq<AuditRow>, communityId: Bytes)
    requires |more| <= 1
    ensures ChainOf(events, communityId) <= ChainOf(events + more, communityId)
  {
    if |more| == 1 {
      assert (events + more)[..|events|] == events;
    } else {
      assert events + more == events;
    }
  }

  /** What a writer relies on survives what any other commits. */
  lemma {:induction false} WriterOkAfter(hash: Hash, db: Db, c: Writer, w: Writer)
    requires ChainsOk(hash, db.events) && WriterOk(db, c) && CanFinish(c) && WriterOk(db, w)
    requires Outcome(hash, db, CommitOf(c)).Some?
    ensures WriterOk(Outcome(hash, db, CommitOf(c)).value.0, w)
  {
    hide ExecAll, Body, BatchFor, Append, ChainsOk, Admitted, Outcome, Clashes, AuditInput, TaskStands, AuditFor;
    var after := Outcome(hash, db, CommitOf(c)).value.0;
    CommitKeepsChains(hash, db, c);
    TaskStandsAfter(hash, db, c, w.request, w.seen);
    if w.Ready? && w.head.Some? {
      var communityId := AuditInput(w.request, w.seen).value.0;
      ChainOfGrows(db.events, after.events[|db.events|..], communityId);
      assert after.events == db.events + after.events[|db.events|..];
    }
  }

  lemma {:induction false} TaskStandsAfter(hash: Hash, db: Db, c: Writer, r: Request, seen: Seen)
    requires Admitted(c.request, c.seen) && TaskStands(db, r, seen)
    requires Outcome(hash, db, CommitOf(c)).Some?
    ensures TaskStands(Outcome(hash, db, CommitOf(c)).value.0, r, seen)
  {
    hide ExecAll, Body, BatchFor, Append, Outcome, Clashes, AuditInput, Follows, PointerMessage, VoteMessage,
         Earned, Effect, Fits, TaskEffect, TaskStands;
    OutcomeIs(hash, db, CommitOf(c));
    if c.request.MoveTask? {
      TaskBody(db, c.request, c.seen.task);
      MoveKeepsStanding(db, c.request, c.seen.task, r, seen);
    } else {
      OthersKeepTasks(db, c.request, c.seen);
      OtherTablesStand(db, Outcome(hash, db, CommitOf(c)).value.0, r, seen);
    }
  }

  lemma {:induction false} OthersKeepTasks(db: Db, r: Request, seen: Seen)
    requires Admitted(r, seen) && !r.MoveTask?
    ensures Effect(db, r, seen).Some? ==>
              Effect(db, r, seen).value.0.tasks == db.tasks && Effect(db, r, seen).value.0.nodes == db.nodes
  {
    hide Effect;
    match r {
      case PutPointer(_, _, _, _, _, _, _) => PointerBody(db, r, seen.previous);
      case CastVote(_, _, _, _, _, _) => VoteBody(db, r, seen);
      case AppendOnly(_, _, _, _, _, _) => NoBody(db, r, seen);
    }
  }

  /** Nothing but the nodes and the tasks decides whether a task stands. */
  lemma {:induction false} OtherTablesStand(db: Db, after: Db, r: Request, seen: Seen)
    requires TaskStands(db, r, seen) && after.nodes == db.nodes && after.tasks == db.tasks
    ensures TaskStands(after, r, seen)
  {
  }

  lemma {:induction false} MoveKeepsStanding(db: Db, move: Request, t: TaskRow, r: Request, seen: Seen)
    requires move.MoveTask? && TaskStands(db, r, seen)
    ensures forall events :: TaskStands(TaskEffect(db, move, t).(events := events), r, seen)
    ensures TaskStands(TaskEffect(db, move, t), r, seen)
  {
    hide Earned;
  }

  lemma {:induction false} NoBody(db: Db, r: Request, seen: Seen)
    requires r.AppendOnly?
    ensures Effect(db, r, seen) == Some((db, []))
  {
  }

  /** Events are the log's, every chain verifies, and every writer still has what it relies on. */
  ghost predicate EventsOk(hash: Hash, s: State) {
    && ChainsOk(hash, s.db.events) && s.db.events == LoggedEvents(hash, s.log) && WritersOk(s)
    && forall i :: 0 <= i < |s.log| ==> Admitted(s.log[i].request, s.log[i].seen)
  }

  lemma {:induction false} ObserveAdmits(db: Db, r: Request)
    requires Observe(db, r).Some?
    ensures WriterOk(db, Reading(r, Observe(db, r).value))
  {
    hide Follows, PointerMessage, VoteMessage;
  }

  lemma {:induction false} NextKeepsEvents(hash: Hash, s: State, step: Step)
    requires EventsOk(hash, s)
    ensures EventsOk(hash, Next(hash, s, step))
  {
    hide ExecAll, BatchFor, Observe, AuditInput, HeadOf, ChainsOk, WriterOk, Outcome, AuditFor, CanFinish, Retry,
         Admitted;
    NextIs(hash, s, step);
    if Committed(hash, s, step).Some? {
      CommitKeepsEvents(hash, s, step);
    } else {
      StepKeepsWriters(hash, s, step);
    }
  }

  lemma {:induction false} CommitKeepsEvents(hash: Hash, s: State, step: Step)
    requires EventsOk(hash, s) && Committed(hash, s, step).Some?
    ensures EventsOk(hash, Next(hash, s, step))
  {
    hide ExecAll, BatchFor, Observe, AuditInput, HeadOf, ChainsOk, WriterOk, Outcome, AuditFor, CanFinish, Retry,
         Admitted;
    NextIs(hash, s, step);
    var t, c := Next(hash, s, step), s.writers[step.writer];
    CommitSame(hash, s.db, c, Committed(hash, s, step).value);
    CommitKeepsChains(hash, s.db, c);
    WriterAdmitted(s.db, c);
    assert t.log[..|s.log|] == s.log;
    forall w | w in t.writers ensures WriterOk(t.db, t.writers[w]) {
      WriterOkAfter(hash, s.db, c, s.writers[w]);
    }
  }

  lemma {:induction false} WriterAdmitted(db: Db, w: Writer)
    requires WriterOk(db, w)
    ensures Admitted(w.request, w.seen)
  {
  }

  lemma {:induction false} CommitSame(hash: Hash, db: Db, w: Writer, c: Commit)
    requires c == CommitOf(w).(changes := c.changes)
    ensures Outcome(hash, db, c) == Outcome(hash, db, CommitOf(w))
    ensures AuditFor(hash, c.request, c.seen, c.head) == AuditFor(hash, w.request, w.seen, CommitOf(w).head)
  {
    hide ExecAll, BatchFor, AuditFor;
  }

  lemma {:induction false} StepKeepsWriters(hash: Hash, s: State, step: Step)
    requires ChainsOk(hash, s.db.events) && WritersOk(s) && Committed(hash, s, step).None?
    ensures WritersOk(Next(hash, s, step))
  {
    hide ExecAll, BatchFor, Observe, AuditInput, HeadOf, ChainsOk, Admitted, TaskStands, HeadStands;
    NextIs(hash, s, step);
    var t := Next(hash, s, step);
    forall w | w in t.writers ensures WriterOk(t.db, t.writers[w]) {
      if w in s.writers && t.writers[w] == s.writers[w] {
        TaskAddedKeeps(hash, s, step, s.writers[w]);
      } else if step.Start? {
        ObserveAdmits(s.db, step.request);
      } else if step.ReadHead? {
        var r, seen := s.writers[w].request, s.writers[w].seen;
        HeadReadStands(hash, s.db.events, AuditInput(r, seen).value.0);
      } else {
        RetryOk(s.db, s.writers[w]);
      }
    }
  }

  lemma {:induction false} RetryOk(db: Db, w: Writer)
    requires WriterOk(db, w) && Retry(w.request, w.seen).Some?
    ensures WriterOk(db, Retry(w.request, w.seen).value)
  {
  }

  lemma {:induction false} HeadReadStands(hash: Hash, events: seq<AuditRow>, communityId: Bytes)
    requires ChainsOk(hash, events)
    ensures HeadStands(events, communityId, HeadOf(events, communityId))
  {
    HeadIsLast(hash, events, communityId);
  }

  lemma {:induction false} TaskAddedKeeps(hash: Hash, s: State, step: Step, w: Writer)
    requires WriterOk(s.db, w) && Committed(hash, s, step).None?
    ensures WriterOk(Next(hash, s, step).db, w)
  {
    hide ExecAll, BatchFor, Observe, AuditInput, HeadOf, Admitted;
    NextIs(hash, s, step);
  }

  // ---------- invariants of every interleaving: rows ----------

  /** The batch's first statement changed a row. */
  predicate Changed(changes: seq<nat>) {
    |changes| > 0 && changes[0] == 1
  }

  /** This task is the principal's and still in the status the action starts from. */
  predicate Movable(db: Db, r: Request)
    requires r.MoveTask?
  {
    && r.taskId in db.tasks && Owns(db, db.tasks[r.taskId].nodeId, r.who.memberId, r.who.communityId)
    && db.tasks[r.taskId].status == Required(r.action)
  }

  /** What a committed batch did to the tables other than the audit events. */
  lemma {:induction false} CommitEffect(hash: Hash, db: Db, w: Writer)
    requires Admitted(w.request, w.seen) && Outcome(hash, db, CommitOf(w)).Some?
    ensures var r, (after, changes) := w.request, Outcome(hash, db, CommitOf(w)).value;
            match r
            case PutPointer(_, _, _, _, _, _, _) =>
              && (Changed(changes) <==> Fits(db, r, w.seen.previous))
              && (w.seen.previous.None? ==> Fits(db, r, w.seen.previous))
              && after == (if Fits(db, r, w.seen.previous)
                           then db.(pointers := db.pointers[r.vaultId := PointerOf(r)])
                           else db).(events := after.events)
            case MoveTask(_, _, _, _, _) =>
              && (Changed(changes) <==> Movable(db, r))
              && after == TaskEffect(db, r, w.seen.task).(events := after.events)
            case CastVote(_, _, _, _, _, _) =>
              && Changed(changes) && (r.proposalId, r.who.memberId) !in db.votes
              && after == db.(votes := db.votes[(r.proposalId, r.who.memberId) := VoteRow(r.choice, r.at, r.signature)], events := after.events)
            case AppendOnly(_, _, _, _, _, _) => after == db.(events := after.events)
  {
    hide ExecAll, Body, BatchFor, Append, Outcome, Clashes, AuditInput, Follows, PointerMessage, VoteMessage,
         Earned, Effect, Fits, Owns, TaskEffect, AsRead, PointerOf, TaskStands;
    OutcomeIs(hash, db, CommitOf(w));
    match w.request {
      case PutPointer(_, _, _, _, _, _, _) => PointerBody(db, w.request, w.seen.previous);
      case MoveTask(_, _, _, _, _) => TaskBody(db, w.request, w.seen.task);
      case CastVote(_, _, _, _, _, _) => VoteBody(db, w.request, w.seen);
      case AppendOnly(_, _, _, _, _, _) => NoBody(db, w.request, w.seen);
    }
  }

  /** The pointers stored for one vault, oldest first. */
  function PointerLog(log: seq<Commit>, vaultId: Bytes): seq<PointerRow> {
    if |log| == 0 then []
    else
      var c := log[|log| - 1];
      PointerLog(log[..|log| - 1], vaultId)
      + if c.request.PutPointer? && c.request.vaultId == vaultId && Changed(c.changes) then [PointerOf(c.request)] else []
  }

  predicate TrailFits(vaultId: Bytes, rows: seq<PointerRow>, i: nat)
    requires i < |rows|
  {
    && rows[i].version == i + 1
    && rows[i].previousCid == (if i == 0 then None else Some(rows[i - 1].catalogCid))
    && rows[i].ownerMemberId == rows[0].ownerMemberId && rows[i].communityId == rows[0].communityId
    && rows[i].ownerSignature.message == PointerMessage(vaultId, rows[i])
  }

  /** Versions 1, 2, 3, ... of one owner, each naming the catalog of the one before and signed as it stands. */
  predicate Trail(vaultId: Bytes, rows: seq<PointerRow>) {
    forall i :: 0 <= i < |rows| ==> TrailFits(vaultId, rows, i)
  }

  /** The stored pointer of a vault is the last of its trail. */
  predicate PointerOk(s: State, vaultId: Bytes) {
    var rows := PointerLog(s.log, vaultId);
    && Trail(vaultId, rows)
    && (vaultId in s.db.pointers <==> rows != [])
    && (rows != [] ==> s.db.pointers[vaultId] == rows[|rows| - 1])
  }

  lemma {:induction false} TrailGrows(vaultId: Bytes, rows: seq<PointerRow>, row: PointerRow)
    requires Trail(vaultId, rows) && row.ownerSignature.message == PointerMessage(vaultId, row)
    requires if rows == [] then row.version == 1 && row.previousCid.None?
             else var last := rows[|rows| - 1];
                  && row.version == last.version + 1 && row.previousCid == Some(last.catalogCid)
                  && row.ownerMemberId == last.ownerMemberId && row.communityId == last.communityId
    ensures Trail(vaultId, rows + [row])
  {
    hide PointerMessage;
    var longer := rows + [row];
    if rows != [] {
      assert TrailFits(vaultId, rows, |rows| - 1);
    }
    forall i | 0 <= i < |longer| ensures TrailFits(vaultId, longer, i) {
      if i < |rows| {
        assert TrailFits(vaultId, rows, i);
      }
    }
  }

  /** A pointer that a writer stores follows on the one that is stored. */
  lemma {:induction false} StoredFollows(db: Db, r: Request, seen: Seen)
    requires r.PutPointer? && Admitted(r, seen) && Fits(db, r, seen.previous)
    ensures PointerOf(r).ownerSignature.message == PointerMessage(r.vaultId, PointerOf(r))
    ensures if r.vaultId !in db.pointers then r.version == 1 && r.previousCid.None?
            else var last := db.pointers[r.vaultId];
                 && r.version == last.version + 1 && r.previousCid == Some(last.catalogCid)
                 && r.who.memberId == last.ownerMemberId && r.who.communityId == last.communityId
  {
    hide PointerMessage;
  }

  lemma {:induction false} NextKeepsPointer(hash: Hash, s: State, step: Step, vaultId: Bytes)
    requires WritersOk(s) && PointerOk(s, vaultId)
    ensures PointerOk(Next(hash, s, step), vaultId)
  {
    hide Next, Outcome, Committed, CommitOf, CanFinish, TaskEffect, PointerMessage, WriterOk, Trail, Admitted,
         Fits, Changed;
    NextIs(hash, s, step);
    if Committed(hash, s, step).Some? {
      CommittedWriter(hash, s, step);
      CommitKeepsPointer(hash, s, step, vaultId);
    }
  }

  lemma {:induction false} CommitKeepsPointer(hash: Hash, s: State, step: Step, vaultId: Bytes)
    requires step.Finish? && step.writer in s.writers && WriterOk(s.db, s.writers[step.writer])
    requires Committed(hash, s, step).Some? && PointerOk(s, vaultId)
    ensures PointerOk(Next(hash, s, step), vaultId)
  {
    hide Next, Outcome, Committed, CommitOf, CanFinish, Earned, Owns, PointerMessage, VoteMessage, Trail,
         Follows, Fits, Changed, TaskStands, HeadStands, AuditInput;
    CommittedWriter(hash, s, step);
    var w, t := s.writers[step.writer], Next(hash, s, step);
    CommitEffect(hash, s.db, w);
    assert t.log[..|s.log|] == s.log;
    if w.request.PutPointer? && w.request.vaultId == vaultId && Fits(s.db, w.request, w.seen.previous) {
      StoredFollows(s.db, w.request, w.seen);
      TrailGrows(vaultId, PointerLog(s.log, vaultId), PointerOf(w.request));
    } else {
      assert PointerLog(t.log, vaultId) == PointerLog(s.log, vaultId);
    }
  }

  /** The committed batch is that of the writer that finished. */
  lemma {:induction false} CommittedWriter(hash: Hash, s: State, step: Step)
    requires Committed(hash, s, step).Some?
    ensures step.Finish? && step.writer in s.writers
    ensures var w, c := s.writers[step.writer], Committed(hash, s, step).value;
            && c.request == w.request && c.seen == w.seen && c.head == CommitOf(w).head
            && Outcome(hash, s.db, CommitOf(w)) == Some((Next(hash, s, step).db, c.changes))
            && Next(hash, s, step).log == s.log + [c]
  {
    hide Outcome;
    NextIs(hash, s, step);
    CommitSame(hash, s.db, s.writers[step.writer], Committed(hash, s, step).value);
  }

  // ---------- tasks, credits and placements ----------

  /** The moves of one task that took effect, oldest first. */
  function TaskLog(log: seq<Commit>, taskId: Bytes): seq<Action> {
    if |log| == 0 then []
    else
      var c := log[|log| - 1];
      TaskLog(log[..|log| - 1], taskId)
      + if c.request.MoveTask? && c.request.taskId == taskId && Changed(c.changes) then [c.request.action] else []
  }

  /** The only walk that leads to each status. */
  function WalkTo(status: TaskStatus): seq<Action> {
    match status
    case Pending => []
    case Accepted => [Accept]
    case Completed => [Accept, Complete]
    case Failed => [Accept, Fail]
  }

  /** The least amount, but for 1, worth six hours of so many bytes at 1000 for a GiB and an hour. */
  predicate SixHours(size: nat, amount: nat) {
    && amount >= 1 && size * 6_000 <= amount * 1_073_741_824
    && (amount == 1 || (amount - 1) * 1_073_741_824 < size * 6_000)
  }

  lemma {:induction false} EarnsSixHours(size: nat)
    ensures SixHours(size, Earned(size)) && forall amount :: SixHours(size, amount) ==> amount == Earned(size)
    ensures Earned(4_194_304) == 24
  {
  }

  /**
    A task's status is where its moves led. A credit for it means it was an audit that ended,
    and that its node's owner earned it; an audit that was completed has one. A repair that was
    completed has its placement.
   */
  predicate TaskOk(s: State, taskId: Bytes) {
    && TaskLog(s.log, taskId) == (if taskId in s.db.tasks then WalkTo(s.db.tasks[taskId].status) else [])
    && (taskId in s.db.credits ==>
          && taskId in s.db.tasks
          && var t := s.db.tasks[taskId];
             && (t.status.Completed? || t.status.Failed?) && t.kind.AuditObject? && t.ciphertextSize.Some?
             && t.nodeId in s.db.nodes && s.db.credits[taskId].memberId == s.db.nodes[t.nodeId].ownerMemberId
             && SixHours(t.ciphertextSize.value, s.db.credits[taskId].milliGibHour)
             && s.db.credits[taskId].expiresAt == s.db.credits[taskId].occurredAt + 90 * 86400)
    && (taskId in s.db.tasks && s.db.tasks[taskId].status.Completed? ==>
          var t := s.db.tasks[taskId];
          && t.objectCid.Some?
          && (t.kind.AuditObject? && t.ciphertextSize.Some? ==> taskId in s.db.credits)
          && (t.kind.RepairObject? ==>
                (t.objectCid.value, t.nodeId) in s.db.placements && s.db.placements[(t.objectCid.value, t.nodeId)] == "healthy"))
  }

  lemma {:induction false} NextKeepsTask(hash: Hash, s: State, step: Step, taskId: Bytes)
    requires WritersOk(s) && TaskOk(s, taskId)
    ensures TaskOk(Next(hash, s, step), taskId)
  {
    hide Next, Outcome, Committed, CommitOf, CanFinish, WriterOk, Admitted, Changed, SixHours;
    NextIs(hash, s, step);
    if Committed(hash, s, step).Some? {
      CommittedWriter(hash, s, step);
      CommitKeepsTask(hash, s, step, taskId);
    }
  }

  lemma {:induction false} CommitKeepsTask(hash: Hash, s: State, step: Step, taskId: Bytes)
    requires step.Finish? && step.writer in s.writers && WriterOk(s.db, s.writers[step.writer])
    requires Committed(hash, s, step).Some? && TaskOk(s, taskId)
    ensures TaskOk(Next(hash, s, step), taskId)
  {
    hide Next, Outcome, Committed, CommitOf, CanFinish, Earned, PointerMessage, VoteMessage, Follows, Fits,
         Changed, HeadStands, AuditInput, Movable, TaskEffect, SixHours;
    CommittedWriter(hash, s, step);
    var w, t := s.writers[step.writer], Next(hash, s, step);
    CommitEffect(hash, s.db, w);
    assert t.log[..|s.log|] == s.log;
    if w.request.MoveTask? && w.request.taskId == taskId && Movable(s.db, w.request) {
      assert TaskLog(t.log, taskId) == TaskLog(s.log, taskId) + [w.request.action];
    } else {
      assert TaskLog(t.log, taskId) == TaskLog(s.log, taskId);
    }
    if w.request.MoveTask? {
      MoveKeepsTask(s, w.request, w.seen.task, t, taskId);
    }
  }

  /** A move's effect on the tables keeps what they say of every task. */
  lemma {:induction false} MoveKeepsTask(s: State, r: Request, seen: TaskRow, t: State, taskId: Bytes)
    requires r.MoveTask? && Admitted(r, SeenTask(seen)) && TaskStands(s.db, r, SeenTask(seen)) && TaskOk(s, taskId)
    requires t.db == TaskEffect(s.db, r, seen).(events := t.db.events)
    requires TaskLog(t.log, taskId) == TaskLog(s.log, taskId) + (if r.taskId == taskId && Movable(s.db, r) then [r.action] else [])
    ensures TaskOk(t, taskId)
  {
    hide Earned, TaskLog, SixHours;
    if seen.ciphertextSize.Some? {
      EarnsSixHours(seen.ciphertextSize.value);
    }
  }

  // ---------- votes ----------

  /** The votes committed, oldest first. */
  function VoteLog(log: seq<Commit>): seq<((Bytes, Bytes), VoteRow)> {
    if |log| == 0 then []
    else
      var r := log[|log| - 1].request;
      VoteLog(log[..|log| - 1])
      + if r.CastVote? then [((r.proposalId, r.who.memberId), VoteRow(r.choice, r.at, r.signature))] else []
  }

  /** The votes table holds the committed votes, each of them once. */
  predicate VotesMatch(log: seq<((Bytes, Bytes), VoteRow)>, votes: map<(Bytes, Bytes), VoteRow>) {
    && |log| == |votes|
    && (forall i :: 0 <= i < |log| ==> log[i].0 in votes && votes[log[i].0] == log[i].1)
    && (forall i, j :: 0 <= i < j < |log| ==> log[i].0 != log[j].0)
  }

  lemma {:induction false} VotesGrow(log: seq<((Bytes, Bytes), VoteRow)>, votes: map<(Bytes, Bytes), VoteRow>,
          key: (Bytes, Bytes), vote: VoteRow)
    requires VotesMatch(log, votes) && key !in votes
    ensures VotesMatch(log + [(key, vote)], votes[key := vote])
  {
  }

  lemma {:induction false} NextKeepsVotes(hash: Hash, s: State, step: Step)
    requires WritersOk(s) && VotesMatch(VoteLog(s.log), s.db.votes)
    ensures VotesMatch(VoteLog(Next(hash, s, step).log), Next(hash, s, step).db.votes)
  {
    hide Next, Outcome, Committed, CommitOf, CanFinish, WriterOk, Admitted, Changed, VotesMatch, VoteLog;
    NextIs(hash, s, step);
    if Committed(hash, s, step).Some? {
      CommittedWriter(hash, s, step);
      CommitKeepsVotes(hash, s, step);
    }
  }

  lemma {:induction false} CommitKeepsVotes(hash: Hash, s: State, step: Step)
    requires step.Finish? && step.writer in s.writers && WriterOk(s.db, s.writers[step.writer])
    requires Committed(hash, s, step).Some? && VotesMatch(VoteLog(s.log), s.db.votes)
    ensures VotesMatch(VoteLog(Next(hash, s, step).log), Next(hash, s, step).db.votes)
  {
    hide Next, Outcome, Committed, CommitOf, CanFinish, Earned, Owns, PointerMessage, VoteMessage, Follows, Fits,
         Changed, TaskStands, HeadStands, AuditInput, VotesMatch, Movable;
    CommittedWriter(hash, s, step);
    var w, t := s.writers[step.writer], Next(hash, s, step);
    CommitEffect(hash, s.db, w);
    assert t.log[..|s.log|] == s.log;
    if w.request.CastVote? {
      var r := w.request;
      VotesGrow(VoteLog(s.log), s.db.votes, (r.proposalId, r.who.memberId), VoteRow(r.choice, r.at, r.signature));
    } else {
      assert VoteLog(t.log) == VoteLog(s.log);
    }
  }

  // ---------- what was checked before ----------

  function ChoiceText(choice: Choice): Bytes {
    match choice case Yes => Ascii("Yes") case No => Ascii("No") case Abstain => Ascii("Abstain")
  }

  /**
    What any batch was checked for: pointers and votes are signed over their fields, votes were
    cast in an open window, and tasks were moved in time, under a certificate in force, and
    completed with a proof.
   */
  predicate Warranted(db: Db, r: Request) {
    match r
    case PutPointer(who, vaultId, catalogCid, version, previousCid, signedAt, signature) =>
      signature == Signature(PublicKey(who.publicKey),
        Joined([ Ascii("acm.catalog-pointer.v1"), vaultId, catalogCid, Decimal(version),
                 if previousCid.Some? then previousCid.value else [], Decimal(signedAt) ]))
    case CastVote(who, proposalId, choice, signedAt, signature, at) =>
      && proposalId in db.proposals && db.proposals[proposalId].communityId == who.communityId
      && db.proposals[proposalId].opensAt <= at <= db.proposals[proposalId].closesAt
      && signature == Signature(PublicKey(who.publicKey),
           Joined([Ascii("acm.vote.v1"), proposalId, who.memberId, ChoiceText(choice), Decimal(signedAt)]))
    case MoveTask(who, taskId, action, proofOk, at) =>
      && taskId in db.tasks && at <= db.tasks[taskId].expiresAt
      && var node := db.tasks[taskId].nodeId;
         && node in db.nodes && db.nodes[node].ownerMemberId == who.memberId && db.nodes[node].communityId == who.communityId
         && db.nodes[node].certificateIssuedAt <= at < db.nodes[node].certificateExpiresAt
         && (action.Complete? ==> proofOk && db.tasks[taskId].objectCid.Some?)
    case AppendOnly(_, _, _, _, _, _) => true
  }

  /** A first read goes through exactly when the request is warranted and what it asks for follows on what is there. */
  lemma {:induction false} ObserveIff(db: Db, r: Request)
    ensures Observe(db, r).Some? <==>
            && Warranted(db, r)
            && (r.PutPointer? ==>
                  if r.vaultId in db.pointers then
                    && db.pointers[r.vaultId].ownerMemberId == r.who.memberId
                    && r.version == db.pointers[r.vaultId].version + 1
                    && r.previousCid == Some(db.pointers[r.vaultId].catalogCid)
                  else r.version == 1 && r.previousCid == None)
            && (r.MoveTask? ==> db.tasks[r.taskId].status == if r.action == Accept then Pending else Accepted)
            && (r.AppendOnly? ==> 1 <= r.attempts <= 8)
  {
    hide Joined, Decimal, Ascii;
  }

  /** A task keeps everything but its status, nodes and proposals everything. */
  predicate Registers(db: Db, after: Db) {
    && after.nodes == db.nodes && after.proposals == db.proposals
    && forall t :: t in db.tasks ==> t in after.tasks && after.tasks[t] == db.tasks[t].(status := after.tasks[t].status)
  }

  lemma {:induction false} StaysWarranted(db: Db, after: Db, r: Request)
    requires Registers(db, after) && Warranted(db, r)
    ensures Warranted(after, r)
  {
    hide Joined, Decimal, Ascii;
  }

  lemma {:induction false} NextKeepsRegisters(hash: Hash, s: State, step: Step)
    requires WritersOk(s)
    ensures Registers(s.db, Next(hash, s, step).db)
  {
    hide Next, Outcome, Committed, CommitOf, CanFinish, WriterOk, Admitted, Changed;
    NextIs(hash, s, step);
    if Committed(hash, s, step).Some? {
      CommittedWriter(hash, s, step);
      CommitKeepsRegisters(hash, s.db, s.writers[step.writer]);
    }
  }

  lemma {:induction false} CommitKeepsRegisters(hash: Hash, db: Db, w: Writer)
    requires WriterOk(db, w) && Outcome(hash, db, CommitOf(w)).Some?
    ensures Registers(db, Outcome(hash, db, CommitOf(w)).value.0)
  {
    hide Outcome, CommitOf, Changed, Fits, WriterOk, Admitted, TaskEffect, PointerOf, Movable, Registers;
    WriterAdmitted(db, w);
    CommitEffect(hash, db, w);
    var after := Outcome(hash, db, CommitOf(w)).value.0;
    if w.request.MoveTask? {
      MoveSawTask(w.request, w.seen);
      MoveKeepsRegisters(db, w.request, w.seen.task, after);
    } else {
      SameRegisters(db, after);
    }
  }

  lemma {:induction false} SameRegisters(db: Db, after: Db)
    requires after.nodes == db.nodes && after.proposals == db.proposals && after.tasks == db.tasks
    ensures Registers(db, after)
  {
  }

  lemma {:induction false} MoveSawTask(r: Request, seen: Seen)
    requires r.MoveTask? && Admitted(r, seen)
    ensures seen.SeenTask?
  {
  }

  lemma {:induction false} MoveKeepsRegisters(db: Db, r: Request, t: TaskRow, after: Db)
    requires r.MoveTask? && after == TaskEffect(db, r, t).(events := after.events)
    ensures Registers(db, after)
  {
    hide Earned;
  }

  /** Whatever is being handled or was committed was warranted. */
  predicate AllWarranted(s: State) {
    && (forall w :: w in s.writers ==> Warranted(s.db, s.writers[w].request))
    && (forall i :: 0 <= i < |s.log| ==> Warranted(s.db, s.log[i].request))
  }

  lemma {:induction false} NextKeepsWarrants(hash: Hash, s: State, step: Step)
    requires WritersOk(s) && AllWarranted(s)
    ensures AllWarranted(Next(hash, s, step))
  {
    hide ExecAll, BatchFor, Observe, AuditInput, HeadOf, Warranted, WriterOk, Outcome, Registers;
    NextKeepsRegisters(hash, s, step);
    var t := Next(hash, s, step);
    forall r | Warranted(s.db, r) ensures Warranted(t.db, r) {
      StaysWarranted(s.db, t.db, r);
    }
    forall w | w in t.writers ensures Warranted(t.db, t.writers[w].request) {
      if step.Start? && w == step.writer {
        ObserveIff(s.db, step.request);
      } else if step.Finish? && w == step.writer {
        RetryWarranted(s.db, s.writers[w].request, s.writers[w].seen);
      }
    }
  }

  lemma {:induction false} RetryWarranted(db: Db, r: Request, seen: Seen)
    requires Warranted(db, r)
    ensures Retry(r, seen).Some? ==> Warranted(db, Retry(r, seen).value.request)
  {
    hide Joined, Decimal, Ascii;
  }

  /** A completion of this task at this time was committed. */
  predicate CompletedAt(log: seq<Commit>, taskId: Bytes, at: I64) {
    exists i :: 0 <= i < |log| && Completes(log[i].request, taskId, at)
  }

  predicate Completes(r: Request, taskId: Bytes, at: I64) {
    r.MoveTask? && r.taskId == taskId && r.action.Complete? && r.at == at
  }

  /** Each credit is dated by a completion of its task. */
  predicate CreditsDated(s: State) {
    forall t :: t in s.db.credits ==> CompletedAt(s.log, t, s.db.credits[t].occurredAt)
  }

  lemma {:induction false} NextKeepsDates(hash: Hash, s: State, step: Step)
    requires WritersOk(s) && CreditsDated(s)
    ensures CreditsDated(Next(hash, s, step))
  {
    hide Next, Outcome, Committed, CommitOf, CanFinish, WriterOk, Admitted, Changed, CompletedAt;
    NextIs(hash, s, step);
    if Committed(hash, s, step).Some? {
      CommittedWriter(hash, s, step);
      CommitKeepsDates(hash, s, step);
    }
  }

  lemma {:induction false} CommitKeepsDates(hash: Hash, s: State, step: Step)
    requires step.Finish? && step.writer in s.writers && WriterOk(s.db, s.writers[step.writer])
    requires Committed(hash, s, step).Some? && CreditsDated(s)
    ensures CreditsDated(Next(hash, s, step))
  {
    hide Next, Outcome, Committed, CommitOf, CanFinish, Changed, TaskEffect, Admitted, CompletedAt, Fits;
    CommittedWriter(hash, s, step);
    var w, t := s.writers[step.writer], Next(hash, s, step);
    WriterAdmitted(s.db, w);
    CommitEffect(hash, s.db, w);
    forall id | id in t.db.credits ensures CompletedAt(t.log, id, t.db.credits[id].occurredAt) {
      if id in s.db.credits && t.db.credits[id] == s.db.credits[id] {
        DateStays(s.log, t.log[|s.log|], id, s.db.credits[id].occurredAt);
      } else {
        CreditIsNew(s.db, w.request, w.seen.task, id);
        DatedNow(s.log, t.log[|s.log|], id, t.db.credits[id].occurredAt);
      }
    }
  }

  lemma {:induction false} DateStays(log: seq<Commit>, c: Commit, taskId: Bytes, at: I64)
    requires CompletedAt(log, taskId, at)
    ensures CompletedAt(log + [c], taskId, at)
  {
    var i :| 0 <= i < |log| && Completes(log[i].request, taskId, at);
    assert (log + [c])[i] == log[i];
  }

  lemma {:induction false} DatedNow(log: seq<Commit>, c: Commit, taskId: Bytes, at: I64)
    requires Completes(c.request, taskId, at)
    ensures CompletedAt(log + [c], taskId, at)
  {
    assert (log + [c])[|log|] == c;
  }

  lemma {:induction false} CreditIsNew(db: Db, r: Request, t: TaskRow, taskId: Bytes)
    requires r.MoveTask? && taskId in TaskEffect(db, r, t).credits
    requires !(taskId in db.credits && TaskEffect(db, r, t).credits[taskId] == db.credits[taskId])
    ensures Completes(r, taskId, TaskEffect(db, r, t).credits[taskId].occurredAt)
  {
    hide Earned;
  }

  // ---------- every interleaving ----------

  /** Everything that holds of a coordinator whatever its handlers' interleaving. */
  ghost predicate Sound(hash: Hash, s: State) {
    && EventsOk(hash, s)
    && VotesMatch(VoteLog(s.log), s.db.votes)
    && (forall v :: PointerOk(s, v))
    && (forall t :: TaskOk(s, t))
    && AllWarranted(s) && CreditsDated(s)
  }

  /** Under every schedule of any number of writers, audit chains, pointers, tasks, credits and votes are sound. */
  lemma {:induction false} EveryInterleavingSound(hash: Hash, nodes: map<Bytes, NodeRow>,
          proposals: map<Bytes, ProposalRow>, schedule: seq<Step>)
    ensures Sound(hash, After(hash, Initial(nodes, proposals), schedule))
    decreases |schedule|
  {
    hide Next, EventsOk, VotesMatch, VoteLog, PointerOk, TaskOk, AllWarranted, CreditsDated, Initial;
    if |schedule| == 0 {
      InitialSound(hash, nodes, proposals);
    } else {
      var front, step := schedule[..|schedule| - 1], schedule[|schedule| - 1];
      EveryInterleavingSound(hash, nodes, proposals, front);
      NextSound(hash, After(hash, Initial(nodes, proposals), front), step);
    }
  }

  lemma {:induction false} InitialSound(hash: Hash, nodes: map<Bytes, NodeRow>, proposals: map<Bytes, ProposalRow>)
    ensures Sound(hash, Initial(nodes, proposals))
  {
  }

  lemma {:induction false} NextSound(hash: Hash, s: State, step: Step)
    requires Sound(hash, s)
    ensures Sound(hash, Next(hash, s, step))
  {
    hide Next, VotesMatch, VoteLog, PointerOk, TaskOk, ChainsOk, WriterOk, LoggedEvents, AllWarranted, CreditsDated;
    NextKeepsEvents(hash, s, step);
    NextKeepsVotes(hash, s, step);
    NextKeepsWarrants(hash, s, step);
    NextKeepsDates(hash, s, step);
    forall v ensures PointerOk(Next(hash, s, step), v) {
      NextKeepsPointer(hash, s, step, v);
    }
    forall t ensures TaskOk(Next(hash, s, step), t) {
      NextKeepsTask(hash, s, step, t);
    }
  }

  /** Each community's committed events are numbered from 0 without a gap and pass the chain check. */
  lemma {:induction false} CommittedChainsVerify(hash: Hash, nodes: map<Bytes, NodeRow>,
          proposals: map<Bytes, ProposalRow>, schedule: seq<Step>, communityId: Bytes)
    ensures var chain := ChainOf(After(hash, Initial(nodes, proposals), schedule).db.events, communityId);
            ChainOk(hash, chain) && forall i :: 0 <= i < |chain| ==> chain[i].sequence == i
  {
    hide PointerOk, TaskOk, VotesMatch, Initial, After;
    EveryInterleavingSound(hash, nodes, proposals, schedule);
    var chain := ChainOf(After(hash, Initial(nodes, proposals), schedule).db.events, communityId);
    forall i | 0 <= i < |chain| ensures chain[i].sequence == i {
      assert Linked(hash, chain, i);
    }
  }

  /** Whether an event in this community says this of this subject. */
  predicate Says(row: AuditRow, communityId: Bytes, kind: Bytes, actorId: Bytes, subjectId: Bytes, at: I64) {
    && row.communityId == communityId && row.event.kind == kind && row.event.actorId == actorId
    && row.event.subjectId == subjectId && row.event.occurredAt == at
  }

  /** What the event of a committed batch says. */
  predicate Reports(row: AuditRow, c: Commit) {
    match c.request
    case PutPointer(who, vaultId, _, _, _, signedAt, _) =>
      Says(row, who.communityId, Ascii("catalog_pointer_updated"), who.memberId, vaultId, signedAt)
    case CastVote(who, proposalId, _, _, _, at) => Says(row, who.communityId, Ascii("vote_cast"), who.memberId, proposalId, at)
    case AppendOnly(communityId, kind, actorId, subjectId, at, _) => Says(row, communityId, kind, actorId, subjectId, at)
    case MoveTask(who, taskId, action, _, at) =>
      c.seen.SeenTask? &&
      var audited, subject := c.seen.task.kind == AuditObject, (match c.seen.task.objectCid case Some(cid) => cid case None => taskId);
      && (audited && action == Complete ==> Says(row, who.communityId, Ascii("audit_succeeded"), who.memberId, subject, at))
      && (audited && action == Fail ==> Says(row, who.communityId, Ascii("audit_failed"), who.memberId, subject, at))
      && (!audited && action == Complete ==> Says(row, who.communityId, Ascii("repair_completed"), who.memberId, subject, at))
      && (!audited && action == Fail ==> Says(row, who.communityId, Ascii("repair_failed"), who.memberId, subject, at))
  }

  /** Every committed batch but the acceptance of a task has its event in the table, which says what was done. */
  lemma {:induction false} ChangesAreAudited(hash: Hash, s: State, i: nat)
    requires EventsOk(hash, s) && i < |s.log|
    requires !(s.log[i].request.MoveTask? && s.log[i].request.action.Accept?)
    ensures exists row :: row in s.db.events && Reports(row, s.log[i])
  {
    hide Ascii, PointerMessage, VoteMessage, Follows, ChainsOk, WritersOk, EventHash;
    assert Admitted(s.log[i].request, s.log[i].seen);
    LoggedHolds(hash, s.log, i);
    assert Reports(AuditFor(hash, s.log[i].request, s.log[i].seen, s.log[i].head).value, s.log[i]);
  }

  lemma {:induction false} LoggedHolds(hash: Hash, log: seq<Commit>, i: nat)
    requires i < |log|
    ensures AuditFor(hash, log[i].request, log[i].seen, log[i].head).Some? ==>
              AuditFor(hash, log[i].request, log[i].seen, log[i].head).value in LoggedEvents(hash, log)
    decreases |log|
  {
    hide AuditFor;
    if i < |log| - 1 {
      LoggedHolds(hash, log[..|log| - 1], i);
      assert log[..|log| - 1][i] == log[i];
    }
  }

  // ---------- when a batch changes its row ----------

  /** A pointer batch that commits changes the row exactly when the row is as it was read, in the principal's community. */
  lemma {:induction false} PointerChangesIff(hash: Hash, db: Db, w: Writer)
    requires WriterOk(db, w) && w.request.PutPointer? && Outcome(hash, db, CommitOf(w)).Some?
    ensures Changed(Outcome(hash, db, CommitOf(w)).value.1) <==>
              match w.seen.previous
              case None => true
              case Some(row) =>
                && w.request.vaultId in db.pointers
                && db.pointers[w.request.vaultId].catalogCid == row.catalogCid && db.pointers[w.request.vaultId].version == row.version
                && db.pointers[w.request.vaultId].ownerMemberId == row.ownerMemberId
                && db.pointers[w.request.vaultId].communityId == w.request.who.communityId
  {
    hide Outcome, Changed, PointerMessage;
    CommitEffect(hash, db, w);
  }

  /** A task batch that commits changes its row exactly when the status is still the one the action starts from. */
  lemma {:induction false} TaskChangesIff(hash: Hash, db: Db, w: Writer)
    requires WriterOk(db, w) && w.request.MoveTask? && Outcome(hash, db, CommitOf(w)).Some?
    ensures Changed(Outcome(hash, db, CommitOf(w)).value.1) <==> db.tasks[w.request.taskId].status == Required(w.request.action)
  {
    hide Outcome, Changed;
    CommitEffect(hash, db, w);
  }

  // ---------- events without the change they name ----------

  /** A hash that tells apart the texts of events numbered 0 to 9. */
  function DigitHash(text: Bytes): Digest {
    Repeated(if |text| > 19 then text[19] else 0, DIGEST_BYTES)
  }

  lemma {:induction false} DigitHashTells(e: AuditEvent)
    requires e.sequence < 10
    ensures DigitHash(EventText(e)) == Repeated(ZERO + e.sequence, DIGEST_BYTES)
  {
    var fields := Audit.Fields(e);
    assert Joined(fields) == EVENT_TAG + [BAR] + Joined(fields[1..]);
    assert Joined(fields[1..]) == Decimal(e.sequence) + [BAR] + Joined(fields[1..][1..]);
    assert Decimal(e.sequence) == [ZERO + e.sequence];
    assert |EVENT_TAG| == 18;
  }

  lemma {:induction false} NoClash(events: seq<AuditRow>, row: AuditRow)
    requires row.event.sequence == |events| < 10 && row.event.eventHash == EventHash(DigitHash, row.event)
    requires forall k :: 0 <= k < |events| ==> events[k].event.sequence == k && events[k].event.eventHash == EventHash(DigitHash, events[k].event)
    ensures !Clashes(events, row)
  {
    hide EventText, Hex;
    forall k | 0 <= k < |events| ensures !Clash(events[k], row) {
      DigitHashTells(events[k].event);
      DigitHashTells(row.event);
      assert Repeated(ZERO + k, DIGEST_BYTES)[0] != Repeated(ZERO + row.event.sequence, DIGEST_BYTES)[0];
      if events[k].event.eventHash == row.event.eventHash {
        HexInjective(DigitHash(EventText(events[k].event)), DigitHash(EventText(row.event)));
      }
    }
  }

  lemma {:induction false} AfterSnoc(hash: Hash, s: State, schedule: seq<Step>, step: Step)
    ensures After(hash, s, schedule + [step]) == Next(hash, After(hash, s, schedule), step)
  {
    assert (schedule + [step])[..|schedule|] == schedule;
  }

  /** One community's table so far: numbered from 0, each hashed by the hash above. */
  predicate Numbered(s: State, communityId: Bytes) {
    |s.db.events| < 9 && forall k :: 0 <= k < |s.db.events| ==>
      && s.db.events[k].communityId == communityId && s.db.events[k].event.sequence == k
      && s.db.events[k].event.eventHash == EventHash(DigitHash, s.db.events[k].event)
  }

  lemma {:induction false} HeadOfNumbered(s: State, communityId: Bytes, n: nat)
    requires Numbered(s, communityId) && n <= |s.db.events|
    ensures HeadOf(s.db.events[..n], communityId) == if n == 0 then None else Some(s.db.events[n - 1].event)
    decreases n
  {
    if n > 0 {
      HeadOfNumbered(s, communityId, n - 1);
      assert s.db.events[..n][..n - 1] == s.db.events[..n - 1];
    }
  }

  /** A writer that reads the head and commits at once, before anyone else, always gets its event in. */
  lemma {:induction false} FinishAtOnce(s: State, w: nat, schedule: seq<Step>, start: State)
    returns (t: State)
    requires s == After(DigitHash, start, schedule) && w in s.writers && s.writers[w].Reading?
    requires var r, seen := s.writers[w].request, s.writers[w].seen;
             AuditInput(r, seen).Some? && Effect(s.db, r, seen).Some? && Numbered(s, AuditInput(r, seen).value.0)
    ensures t == After(DigitHash, start, schedule + [ReadHead(w)] + [Finish(w)])
    ensures var r, seen := s.writers[w].request, s.writers[w].seen;
            var (mid, changes) := Effect(s.db, r, seen).value;
            && t.db == mid.(events := t.db.events) && t.writers == s.writers - {w}
            && |t.db.events| == |s.db.events| + 1 && t.db.events[..|s.db.events|] == s.db.events
            && t.log == s.log + [Commit(r, seen, HeadOf(s.db.events, AuditInput(r, seen).value.0), changes + [1])]
            && (|t.db.events| < 9 ==> Numbered(t, AuditInput(r, seen).value.0))
  {
    hide Effect, AuditInput, Numbered, HeadOf;
    var r, seen := s.writers[w].request, s.writers[w].seen;
    AfterSnoc(DigitHash, start, schedule, ReadHead(w));
    AfterSnoc(DigitHash, start, schedule + [ReadHead(w)], Finish(w));
    var ready := Next(DigitHash, s, ReadHead(w));
    assert ready.writers[w] == Ready(r, seen, HeadOf(s.db.events, AuditInput(r, seen).value.0));
    SameNumbered(s, ready, AuditInput(r, seen).value.0);
    t := FinishReady(ready, w);
    assert ready.writers - {w} == s.writers - {w};
  }

  lemma {:induction false} SameNumbered(s: State, t: State, communityId: Bytes)
    requires Numbered(s, communityId) && s.db == t.db
    ensures Numbered(t, communityId)
  {
  }

  /** From the head as it now is, a numbered chain takes the event. */
  lemma {:induction false} FinishReady(s: State, w: nat) returns (t: State)
    requires w in s.writers && s.writers[w].Ready?
    requires var (r, seen) := (s.writers[w].request, s.writers[w].seen);
             && AuditInput(r, seen).Some? && Effect(s.db, r, seen).Some? && Numbered(s, AuditInput(r, seen).value.0)
             && s.writers[w].head == HeadOf(s.db.events, AuditInput(r, seen).value.0)
    ensures t == Next(DigitHash, s, Finish(w))
    ensures var r, seen := s.writers[w].request, s.writers[w].seen;
            var (mid, changes) := Effect(s.db, r, seen).value;
            && t.db == mid.(events := t.db.events) && t.writers == s.writers - {w}
            && |t.db.events| == |s.db.events| + 1 && t.db.events[..|s.db.events|] == s.db.events
            && t.log == s.log + [Commit(r, seen, s.writers[w].head, changes + [1])]
            && (|t.db.events| < 9 ==> Numbered(t, AuditInput(r, seen).value.0))
  {
    hide Effect, EventHash, AuditInput, Clashes;
    var r, seen, head := s.writers[w].request, s.writers[w].seen, s.writers[w].head;
    var (communityId, kind, actor, subject, at) := AuditInput(r, seen).value;
    HeadOfNumbered(s, communityId, |s.db.events|);
    assert s.db.events[..|s.db.events|] == s.db.events;
    var row := AuditRow(communityId, Append(DigitHash, head, at, kind, actor, subject));
    AppendHashes(head, at, kind, actor, subject);
    NoClash(s.db.events, row);
    OutcomeIs(DigitHash, s.db, Commit(r, seen, head, []));
    t := Next(DigitHash, s, Finish(w));
  }

  lemma {:induction false} AppendHashes(head: Option<AuditEvent>, at: I64, kind: Bytes, actor: Bytes, subject: Bytes)
    ensures var e := Append(DigitHash, head, at, kind, actor, subject);
            && e.eventHash == EventHash(DigitHash, e) && e.sequence == if head.Some? then head.value.sequence + 1 else 0
  {
    var e := Append(DigitHash, head, at, kind, actor, subject);
    assert EventText(e.(eventHash := [])) == EventText(e);
  }

  lemma {:induction false} StartStep(start: State, schedule: seq<Step>, s: State, w: nat, r: Request)
    requires s == After(DigitHash, start, schedule) && w !in s.writers && Observe(s.db, r).Some?
    ensures After(DigitHash, start, schedule + [Start(w, r)]) == s.(writers := s.writers[w := Reading(r, Observe(s.db, r).value)])
  {
    hide Observe;
    AfterSnoc(DigitHash, start, schedule, Start(w, r));
  }

  /** An update of the test vault by the test member. */
  function TestUpdate(cid: Bytes, version: nat, previous: Option<Bytes>): Request {
    var row := PointerRow([2], [1], cid, version, previous, 0, Signature(PublicKey([3]), []));
    PutPointer(Principal([1], [2], [3]), [4], cid, version, previous, 0, Signature(PublicKey([3]), PointerMessage([4], row)))
  }

  lemma {:induction false} TestUpdateObserved(db: Db, cid: Bytes, version: nat, previous: Option<Bytes>)
    requires var seen := if [4] in db.pointers then Some(db.pointers[[4]]) else None; Follows(TestUpdate(cid, version, previous), seen)
    ensures Observe(db, TestUpdate(cid, version, previous)) == Some(SeenPointer(if [4] in db.pointers then Some(db.pointers[[4]]) else None))
  {
  }

  /** One update of the test vault, read, prepared and committed before anything else happens. */
  lemma {:induction false} UpdateAtOnce(schedule: seq<Step>, s: State, w: nat, cid: Bytes, version: nat,
          previous: Option<Bytes>)
    returns (longer: seq<Step>, t: State)
    requires s == After(DigitHash, Initial(map[], map[]), schedule) && w !in s.writers && Numbered(s, [2])
    requires Follows(TestUpdate(cid, version, previous), if [4] in s.db.pointers then Some(s.db.pointers[[4]]) else None)
    requires [4] in s.db.pointers ==> s.db.pointers[[4]].communityId == [2]
    ensures t == After(DigitHash, Initial(map[], map[]), longer)
    ensures CommittedUpdate(s, t, TestUpdate(cid, version, previous), true)
    ensures t.db.pointers == s.db.pointers[[4] := PointerOf(TestUpdate(cid, version, previous))] && t.writers == s.writers
  {
    hide EventHash, Ascii, Clashes, ExecAll, BatchFor, Next, Observe, Effect, After, PointerMessage, Append;
    var r := TestUpdate(cid, version, previous);
    var seen := if [4] in s.db.pointers then Some(s.db.pointers[[4]]) else None;
    TestUpdateObserved(s.db, cid, version, previous);
    StartStep(Initial(map[], map[]), schedule, s, w, r);
    var mid := s.(writers := s.writers[w := Reading(r, SeenPointer(seen))]);
    PointerBody(mid.db, r, seen);
    t := FinishAtOnce(mid, w, schedule + [Start(w, r)], Initial(map[], map[]));
    longer := schedule + [Start(w, r)] + [ReadHead(w)] + [Finish(w)];
    assert t.writers == s.writers;
  }

  /** A test update's batch committed between two states, with its event, and changed the row or did not. */
  predicate CommittedUpdate(s: State, t: State, r: Request, changed: bool) {
    && |t.log| == |s.log| + 1 && t.log[..|s.log|] == s.log && t.log[|s.log|].request == r
    && (Changed(t.log[|s.log|].changes) <==> changed)
    && |t.db.events| == |s.db.events| + 1 && (|t.db.events| < 9 ==> Numbered(t, [2]))
  }

  /** A prepared update whose row has meanwhile moved on commits its event and changes nothing. */
  lemma {:induction false} StaleUpdateAtOnce(schedule: seq<Step>, s: State, w: nat, r: Request, row: PointerRow)
    returns (longer: seq<Step>, t: State)
    requires s == After(DigitHash, Initial(map[], map[]), schedule) && Numbered(s, [2])
    requires w in s.writers && s.writers[w] == Reading(r, SeenPointer(Some(row))) && r.PutPointer? && r.who.communityId == [2]
    requires !Fits(s.db, r, Some(row))
    ensures t == After(DigitHash, Initial(map[], map[]), longer)
    ensures CommittedUpdate(s, t, r, false) && t.db.pointers == s.db.pointers
  {
    hide EventHash, Ascii, Clashes, ExecAll, BatchFor, Next, Observe, Effect, After, PointerMessage, Append, Fits;
    PointerBody(s.db, r, Some(row));
    t := FinishAtOnce(s, w, schedule, Initial(map[], map[]));
    longer := schedule + [ReadHead(w)] + [Finish(w)];
  }

  /** Three batches for one vault committed and left three events, but only two pointers. */
  predicate EventWithoutChange(s: State) {
    && |s.log| == |s.db.events| == 3
    && (forall i :: 0 <= i < 3 ==> s.log[i].request.PutPointer? && s.log[i].request.vaultId == [4])
    && |PointerLog(s.log, [4])| == 2
    && [4] in s.db.pointers && s.db.pointers[[4]].catalogCid == s.log[1].request.catalogCid != s.log[2].request.catalogCid
  }

  /**
    Two writers read version 1 of a pointer and each prepares version 2. Both batches commit:
    the vault's pointer is the first one's, yet there is an event for either.
   */
  lemma {:induction false} StalePointerLeavesEvent() returns (schedule: seq<Step>)
    ensures EventWithoutChange(After(DigitHash, Initial(map[], map[]), schedule))
  {
    hide PointerMessage, EventHash, Next, Observe, After, Numbered;
    var r3 := TestUpdate([7], 2, Some([5]));
    var s0 := Initial(map[], map[]);
    AfterNothing(s0);
    NothingNumbered(s0, [2]);
    var one, s1 := UpdateAtOnce([], s0, 1, [5], 1, None);
    TestUpdateObserved(s1.db, [7], 2, Some([5]));
    StartStep(s0, one, s1, 3, r3);
    var s2 := s1.(writers := s1.writers[3 := Reading(r3, SeenPointer(Some(s1.db.pointers[[4]])))]);
    StillNumbered(s1, s2, [2]);
    var two, s3 := UpdateAtOnce(one + [Start(3, r3)], s2, 2, [6], 2, Some([5]));
    var three, s4 := StaleUpdateAtOnce(two, s3, 3, r3, s1.db.pointers[[4]]);
    schedule := three;
    assert s4.log[0] == s3.log[0] == s1.log[0] && s4.log[1] == s3.log[1];
    ThreeCommits(s4.log, [4]);
  }

  lemma {:induction false} NothingNumbered(s: State, communityId: Bytes)
    requires s.db.events == []
    ensures Numbered(s, communityId)
  {
  }

  lemma {:induction false} StillNumbered(s: State, t: State, communityId: Bytes)
    requires Numbered(s, communityId) && t.db.events == s.db.events
    ensures Numbered(t, communityId)
  {
  }

  lemma {:induction false} AfterNothing(s: State)
    ensures After(DigitHash, s, []) == s
  {
  }

  lemma {:induction false} ThreeCommits(log: seq<Commit>, vaultId: Bytes)
    requires |log| == 3 && forall i :: 0 <= i < 3 ==> log[i].request.PutPointer? && log[i].request.vaultId == vaultId
    requires Changed(log[0].changes) && Changed(log[1].changes) && !Changed(log[2].changes)
    ensures |PointerLog(log, vaultId)| == 2
  {
    assert log[..2][..1] == log[..1] && log[..1][..0] == [];
    assert |PointerLog(log[..1], vaultId)| == 1;
    assert |PointerLog(log[..2], vaultId)| == 2;
  }

  /** An action of the test member on the test task, an audit of an object one byte long. */
  function TestMove(action: Action): Request {
    MoveTask(Principal([1], [2], [3]), [4], action, true, 0)
  }

  function TestTask(status: TaskStatus): TaskRow {
    TaskRow([9], AuditObject, Some([8]), Some(1), status, 50)
  }

  function TestNodes(): map<Bytes, NodeRow> {
    map[[9] := NodeRow([2], [1], 0, 100)]
  }

  predicate TestDb(db: Db, status: TaskStatus) {
    [4] in db.tasks && db.tasks[[4]] == TestTask(status) && db.nodes == TestNodes()
  }

  /** The test task can be observed in the status an action starts from, and its batch then takes effect. */
  lemma {:induction false} TestMoveObserved(db: Db, action: Action, status: TaskStatus)
    requires TestDb(db, status)
    ensures status == Required(action) ==> Observe(db, TestMove(action)) == Some(SeenTask(TestTask(status)))
    ensures var e := Effect(db, TestMove(action), SeenTask(TestTask(Required(action))));
            && e.Some? && e.value.0.events == db.events && e.value.0.nodes == db.nodes
            && TestDb(e.value.0, if status == Required(action) then Target(action) else status)
            && (action.Complete? ==> [4] in e.value.0.credits) && (!action.Complete? ==> e.value.0.credits == db.credits)
  {
    hide ExecAll, Earned, Effect;
    TaskBody(db, TestMove(action), TestTask(Required(action)));
  }

  /** Maintenance adds the test task and its node accepts it. */
  lemma {:induction false} AcceptedTask() returns (schedule: seq<Step>, s: State)
    ensures s == After(DigitHash, Initial(TestNodes(), map[]), schedule)
    ensures TestDb(s.db, Accepted) && s.db.events == [] && s.writers == map[]
  {
    hide ExecAll, Earned, Effect, Observe, After;
    var s0 := Initial(TestNodes(), map[]);
    AfterNothing(s0);
    AfterSnoc(DigitHash, s0, [], AddTask([4], TestTask(Pending)));
    var s1 := Next(DigitHash, s0, AddTask([4], TestTask(Pending)));
    TestMoveObserved(s1.db, Accept, Pending);
    StartStep(s0, [] + [AddTask([4], TestTask(Pending))], s1, 1, TestMove(Accept));
    schedule := [] + [AddTask([4], TestTask(Pending))] + [Start(1, TestMove(Accept))];
    var s2 := s1.(writers := map[1 := Reading(TestMove(Accept), SeenTask(TestTask(Pending)))]);
    AfterSnoc(DigitHash, s0, schedule, Finish(1));
    OutcomeIs(DigitHash, s2.db, CommitOf(s2.writers[1]));
    s := Next(DigitHash, s2, Finish(1));
    schedule := schedule + [Finish(1)];
    assert s2.writers - {1} == map[];
  }

  /**
    One handler reads an accepted audit to complete it, another fails it first: the credit of the
    first batch is kept though its task never completed.
   */
  lemma {:induction false} FailedTaskEarns() returns (schedule: seq<Step>)
    ensures var db := After(DigitHash, Initial(TestNodes(), map[]), schedule).db;
            [4] in db.credits && [4] in db.tasks && db.tasks[[4]].status.Failed?
  {
    hide ExecAll, Earned, Effect, Observe, After, Next, EventHash, Ascii, Numbered, Initial, TestTask, TestNodes;
    var s0 := Initial(TestNodes(), map[]);
    var accepted, s1 := AcceptedTask();
    TestMoveObserved(s1.db, Complete, Accepted);
    StartStep(s0, accepted, s1, 2, TestMove(Complete));
    var s2 := s1.(writers := map[2 := Reading(TestMove(Complete), SeenTask(TestTask(Accepted)))]);
    assert s1.writers[2 := Reading(TestMove(Complete), SeenTask(TestTask(Accepted)))] == s2.writers;
    TestMoveObserved(s2.db, Fail, Accepted);
    StartStep(s0, accepted + [Start(2, TestMove(Complete))], s2, 3, TestMove(Fail));
    schedule := accepted + [Start(2, TestMove(Complete))] + [Start(3, TestMove(Fail))];
    var s3 := s2.(writers := s2.writers[3 := Reading(TestMove(Fail), SeenTask(TestTask(Accepted)))]);
    NothingNumbered(s3, [2]);
    var s4 := FinishAtOnce(s3, 3, schedule, s0);
    schedule := schedule + [ReadHead(3)] + [Finish(3)];
    TestMoveObserved(s4.db, Complete, Failed);
    schedule := FinishCompletion(s4, schedule, s0);
  }

  lemma {:induction false} FinishCompletion(s: State, schedule: seq<Step>, start: State) returns (longer: seq<Step>)
    requires s == After(DigitHash, start, schedule) && TestDb(s.db, Failed) && Numbered(s, [2])
    requires 2 in s.writers && s.writers[2] == Reading(TestMove(Complete), SeenTask(TestTask(Accepted)))
    ensures var db := After(DigitHash, start, longer).db;
            [4] in db.credits && [4] in db.tasks && db.tasks[[4]].status.Failed?
  {
    hide ExecAll, Earned, Effect, Observe, After, Next, EventHash, Ascii, Numbered, TestNodes;
    TestMoveObserved(s.db, Complete, Failed);
    var t := FinishAtOnce(s, 2, schedule, start);
    longer := schedule + [ReadHead(2)] + [Finish(2)];
  }
}
